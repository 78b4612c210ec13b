/** The game record extractor (`extract_game_info`): one game's fields become a
    record with the game name, table id, duration, resolved play time, players
    and rank-change annotation. */
module Extract {
  import opened Wrappers
  import opened Text
  import opened Numerals
  import opened Calendar
  import opened Dom
  import opened History

  datatype Player = Player(rank: int, bgg: string, score: int)

  /** `game_info`: every key of the dict, None until the loop sets it. */
  datatype GameInfo = GameInfo(
    players: seq<Player>,
    table: Option<string>,
    game: Option<string>,
    time: Option<string>,
    durationMinutes: Option<int>,
    information: Option<string>)

  /** The dict as initialised before the loop. */
  const Blank := GameInfo([], None, None, None, None, None)

  /** The part of the known-data table the extractor reads: player id to BGG name. */
  datatype Known = Known(players: map<string, string>)

  const Anonymous := "Anonymous"
  const MarkerClass := "gamerank_value"
  const TierPrefix := "gamerank gamerank_"

  /** `int(s)`, raising on anything but an optionally signed decimal. */
  function IntOf(s: string): Result<int, Error> {
    match ParseInt(s)
    case Some(n) => Success(n)
    case None => Failure(NotAnInteger(s))
  }

  /** `href.split('=')[-1]`: a table id or a player id. */
  function IdOf(href: string): string {
    LastPiece(href, "=")
  }

  /** The id is whatever follows the last '=' of the link. */
  lemma IdAfterLastEquals(base: string, id: string)
    requires '=' !in id
    ensures IdOf(base + "=" + id) == id
  {
    var s := base + "=" + id;
    var r := IdOf(s);
    LastPieceIsSuffix(s, '=');
    assert s[|s| - 1 - |id|] == '=';
    assert s[|s| - |id|..] == id;
  }

  // ---------------------------------------------------------------------------
  // The 'info' entry

  /** `value[1]['text']` and the id after the last '=' of `value[1]['href']`. */
  function ParseInfo(value: seq<Node>): Result<(string, string), Error> {
    var link :- At(value, 1);
    var game :- TextOf(link);
    var href :- HrefOf(link);
    Success((game, IdOf(href)))
  }

  // ---------------------------------------------------------------------------
  // The 'time' entry

  /** The duration text: its first space-separated token as minutes when it
      mentions "mn", otherwise unknown. */
  function ParseDuration(text: string): (r: Result<Option<int>, Error>)
    ensures !Contains(text, "mn") <==> r == Success(None)
  {
    if Contains(text, "mn") then
      var minutes :- IntOf(FirstPiece(text, " "));
      Success(Some(minutes))
    else Success(None)
  }

  /** The absolute time of a "when" text, against the creation time: "N hours"
      counts back N hours, "yesterday at HH:MM" is that clock time on the day
      before, anything else is read as "YYYY-MM-DD at HH:MM". */
  function ResolveTime(when: string, creation: DateTime): (r: Result<DateTime, Error>)
    requires ValidDateTime(creation)
    ensures r.Success? ==> ValidDateTime(r.value)
  {
    if Contains(when, "hours") then
      var hours :- IntOf(FirstPiece(when, " "));
      match ShiftHours(creation, -hours)
      case None => Failure(OutOfRange)
      case Some(t) => Success(t)
    else if Contains(when, "yesterday") then
      var parts := Split(when, " at ");
      if |parts| < 2 then Failure(BadTime(when))
      else match PreviousDay(creation.date)
        case None => Failure(OutOfRange)
        case Some(day) =>
          match ParseClock(parts[1])
          case None => Failure(BadTime(parts[1]))
          case Some(clock) => Success(DateTime(day, clock.0, clock.1))
    else
      var parts := Split(when, " at ");
      if |parts| < 2 then Failure(BadTime(when))
      else match ParseDate(parts[0])
        case None => Failure(BadTime(parts[0]))
        case Some(day) =>
          match ParseClock(parts[1])
          case None => Failure(BadTime(parts[1]))
          case Some(clock) => Success(DateTime(day, clock.0, clock.1))
  }

  /** The duration from `value[1]['text']`, then the time from `value[0]['text']`. */
  function ParseTime(value: seq<Node>, creation: DateTime): (r: Result<(Option<int>, DateTime), Error>)
    requires ValidDateTime(creation)
    ensures r.Success? ==> ValidDateTime(r.value.1)
  {
    var durationNode :- At(value, 1);
    var durationText :- TextOf(durationNode);
    var duration :- ParseDuration(durationText);
    var whenNode :- At(value, 0);
    var whenText :- TextOf(whenNode);
    var t :- ResolveTime(whenText, creation);
    Success((duration, t))
  }

  // ---------------------------------------------------------------------------
  // The 'players' entry

  /** `known['players'][id]['BGG']` when the id is known, "Anonymous" otherwise. */
  function Identify(id: string, known: Known): string {
    if id in known.players then known.players[id] else Anonymous
  }

  /** One player entry: the id from the link in child 1, the rank from child 0's
      text without its two-letter ordinal suffix, the score from child 2's text. */
  function ParsePlayer(entry: Node, known: Known): Result<Player, Error> {
    var kids :- Children(entry);
    var linkKids :- ChildrenAt(kids, 1);
    var link :- At(linkKids, 0);
    var href :- HrefOf(link);
    var rankNode :- At(kids, 0);
    var rankText :- TextOf(rankNode);
    var rank :- IntOf(DropLast(rankText, 2));
    var scoreNode :- At(kids, 2);
    var scoreText :- TextOf(scoreNode);
    var score :- IntOf(scoreText);
    Success(Player(rank, Identify(IdOf(href), known), score))
  }

  /** The players of a list of entries, one per entry and in order; the first
      entry that cannot be read is the failure. */
  function ExtractPlayers(entries: seq<Node>, known: Known): (r: Result<seq<Player>, Error>)
    ensures r.Success? <==> forall i :: 0 <= i < |entries| ==> ParsePlayer(entries[i], known).Success?
    ensures r.Success? ==>
      && |r.value| == |entries|
      && forall i :: 0 <= i < |entries| ==> r.value[i] == ParsePlayer(entries[i], known).value
    decreases |entries|
  {
    if entries == [] then Success([])
    else
      var init := entries[..|entries| - 1];
      assert forall i :: 0 <= i < |init| ==> init[i] == entries[i];
      match ExtractPlayers(init, known)
      case Failure(e) => Failure(e)
      case Success(players) =>
        match ParsePlayer(entries[|entries| - 1], known)
        case Failure(e) => Failure(e)
        case Success(last) =>
          assert forall i :: 0 <= i < |init| ==> (players + [last])[i] == players[i];
          Success(players + [last])
  }

  /** The node of a player entry as the page writes it, with rank label
      `str(rank) + suffix`, the player link `base=id` and the score. */
  function PlayerEntry(rank: int, suffix: string, base: string, id: string, score: int): Node {
    Node(None, None, None, Some([
      Node(Some(IntToString(rank) + suffix), None, None, None),
      Node(None, None, None, Some([Node(None, Some(base + "=" + id), None, None)])),
      Node(Some(IntToString(score)), None, None, None)]))
  }

  /** Reading a player entry recovers its rank ("1st" gives 1, "12th" gives 12),
      its score, and the BGG name of its id, or "Anonymous" for an unknown id. */
  lemma ParsePlayerEntry(rank: int, suffix: string, base: string, id: string, score: int, known: Known)
    requires |suffix| == 2 && '=' !in id
    ensures ParsePlayer(PlayerEntry(rank, suffix, base, id, score), known)
      == Success(Player(rank, if id in known.players then known.players[id] else Anonymous, score))
  {
    DropLastAppend(IntToString(rank), suffix);
    ParseIntToString(rank);
    ParseIntToString(score);
    IdAfterLastEquals(base, id);
  }

  // ---------------------------------------------------------------------------
  // The 'game_rank' entry

  /** The text `information` is set to. */
  function Information(table: Option<string>, tier: string, elo: int, delta: string): string {
    "Played on [url=https://boardgamearena.com/table?table=" + (if table.Some? then table.value else "None")
      + "]Board Game Arena[/url]\nGame rank: " + tier + "\nELO: " + IntToString(elo) + " (delta " + delta + ")"
  }

  /** `value[1]['children'][2]['children'][1]['class']`, the rank-change marker, when the path exists. */
  function MarkerOf(value: seq<Node>): Option<string> {
    if |value| > 1 && value[1].children.Some? && |value[1].children.value| > 2
       && value[1].children.value[2].children.Some? && |value[1].children.value[2].children.value| > 1
    then value[1].children.value[2].children.value[1].className
    else None
  }

  /** The rank-change annotation: the marker must be "gamerank_value"; the ELO is
      the marker's text, the tier the rank node's class with every
      "gamerank gamerank_" removed, the delta the text of child 1. */
  function ParseGameRank(value: seq<Node>, table: Option<string>): (r: Result<string, Error>)
    ensures r.Success? ==> MarkerOf(value) == Some(MarkerClass)
  {
    var inner :- ChildrenAt(value, 1);
    var rankNode :- At(inner, 2);
    var rankKids :- Children(rankNode);
    var marker :- At(rankKids, 1);
    var markerClass :- ClassOf(marker);
    if markerClass != MarkerClass then Failure(MarkerMismatch(markerClass))
    else
      var eloText :- TextOf(marker);
      var elo :- IntOf(eloText);
      var tierClass :- ClassOf(rankNode);
      var deltaNode :- At(inner, 1);
      var delta :- TextOf(deltaNode);
      Success(Information(table, Replace(tierClass, TierPrefix, ""), elo, delta))
  }

  /** A marker of any other class is a structural error naming that class. */
  lemma MarkerMismatchFails(value: seq<Node>, table: Option<string>)
    requires MarkerOf(value).Some? && MarkerOf(value) != Some(MarkerClass)
    ensures ParseGameRank(value, table) == Failure(MarkerMismatch(MarkerOf(value).value))
  {
  }

  /** A rank node of class "gamerank gamerank_<tier>" has tier `<tier>`. */
  lemma TierOfClass(tier: string)
    requires !Contains(tier, TierPrefix)
    ensures Replace(TierPrefix + tier, TierPrefix, "") == tier
  {
    ReplacePrefix(TierPrefix, tier);
  }

  /** The `game_rank` entry as the page writes it: child 1 holds the delta text
      at index 1 and, at index 2, the rank node of class "gamerank gamerank_<tier>"
      whose child 1 is the marker carrying the ELO. */
  function RankEntry(delta: string, tier: string, elo: int): seq<Node> {
    var marker := Node(Some(IntToString(elo)), None, Some(MarkerClass), None);
    var rankNode := Node(None, None, Some(TierPrefix + tier), Some([Node(None, None, None, None), marker]));
    var deltaNode := Node(Some(delta), None, None, None);
    [Node(None, None, None, None), Node(None, None, None, Some([Node(None, None, None, None), deltaNode, rankNode]))]
  }

  /** Reading a rank entry gives the annotation with the table id, the tier
      with its class prefix removed, the ELO and the delta. */
  lemma RankEntryReads(delta: string, tier: string, elo: int, table: Option<string>)
    requires !Contains(tier, TierPrefix)
    ensures ParseGameRank(RankEntry(delta, tier, elo), table) == Success(Information(table, tier, elo, delta))
  {
    ParseIntToString(elo);
    TierOfClass(tier);
  }

  // ---------------------------------------------------------------------------
  // The record

  /** One turn of the `for key, value in gameplay.items()` loop. */
  function ApplyField(g: GameInfo, f: Field, creation: DateTime, known: Known): Result<GameInfo, Error>
    requires ValidDateTime(creation)
  {
    if f.key == "info" then
      var info :- ParseInfo(f.value);
      Success(g.(game := Some(info.0), table := Some(info.1)))
    else if f.key == "time" then
      var time :- ParseTime(f.value, creation);
      Success(g.(durationMinutes := time.0, time := Some(Format(time.1))))
    else if f.key == "players" then
      var players :- ExtractPlayers(f.value, known);
      Success(g.(players := g.players + players))
    else if f.key == "game_rank" then
      var information :- ParseGameRank(f.value, g.table);
      Success(g.(information := Some(information)))
    else Success(g)
  }

  /** The record the loop builds from the entries in order, or the first failure. */
  function GameInfoOf(fields: Gameplay, creation: DateTime, known: Known): Result<GameInfo, Error>
    requires ValidDateTime(creation)
    decreases |fields|
  {
    if fields == [] then Success(Blank)
    else
      var g :- GameInfoOf(fields[..|fields| - 1], creation, known);
      ApplyField(g, fields[|fields| - 1], creation, known)
  }

  /** Once an entry fails, the whole record fails with that error. */
  lemma {:induction false} GameInfoFailureSticks(fields: Gameplay, k: nat, creation: DateTime, known: Known)
    requires ValidDateTime(creation) && k <= |fields|
    requires GameInfoOf(fields[..k], creation, known).Failure?
    ensures GameInfoOf(fields, creation, known) == GameInfoOf(fields[..k], creation, known)
    decreases |fields| - k
  {
    if k < |fields| {
      assert fields[..k + 1][..k] == fields[..k];
      GameInfoFailureSticks(fields, k + 1, creation, known);
    } else {
      assert fields[..k] == fields;
    }
  }

  lemma {:induction false} PlayersFailureSticks(entries: seq<Node>, k: nat, known: Known)
    requires k <= |entries|
    requires ExtractPlayers(entries[..k], known).Failure?
    ensures ExtractPlayers(entries, known) == ExtractPlayers(entries[..k], known)
    decreases |entries| - k
  {
    if k < |entries| {
      assert entries[..k + 1][..k] == entries[..k];
      PlayersFailureSticks(entries, k + 1, known);
    } else {
      assert entries[..k] == entries;
    }
  }

  /** `extract_game_info(gameplay, creation_time)`: the record is filled in
      place, entry after entry, and the players are appended one by one. */
  method ExtractGameInfo(gameplay: Gameplay, creation: DateTime, known: Known) returns (r: Result<GameInfo, Error>)
    requires ValidDateTime(creation)
    ensures r == GameInfoOf(gameplay, creation, known)
  {
    var info := Blank;
    var i := 0;
    while i < |gameplay|
      invariant 0 <= i <= |gameplay|
      invariant GameInfoOf(gameplay[..i], creation, known) == Success(info)
    {
      var f := gameplay[i];
      assert gameplay[..i + 1][..i] == gameplay[..i];
      assert gameplay[..i + 1][i] == f;
      if f.key == "info" {
        var parsed := ParseInfo(f.value);
        if parsed.Failure? {
          GameInfoFailureSticks(gameplay, i + 1, creation, known);
          return Failure(parsed.error);
        }
        info := info.(game := Some(parsed.value.0), table := Some(parsed.value.1));
      } else if f.key == "time" {
        var parsed := ParseTime(f.value, creation);
        if parsed.Failure? {
          GameInfoFailureSticks(gameplay, i + 1, creation, known);
          return Failure(parsed.error);
        }
        info := info.(durationMinutes := parsed.value.0, time := Some(Format(parsed.value.1)));
      } else if f.key == "players" {
        ghost var before := info;
        var j := 0;
        while j < |f.value|
          invariant 0 <= j <= |f.value|
          invariant ExtractPlayers(f.value[..j], known).Success?
          invariant info == before.(players := before.players + ExtractPlayers(f.value[..j], known).value)
        {
          var player := ParsePlayer(f.value[j], known);
          assert f.value[..j + 1][..j] == f.value[..j];
          assert f.value[..j + 1][j] == f.value[j];
          if player.Failure? {
            PlayersFailureSticks(f.value, j + 1, known);
            assert f.value[..|f.value|] == f.value;
            GameInfoFailureSticks(gameplay, i + 1, creation, known);
            return Failure(player.error);
          }
          info := info.(players := info.players + [player.value]);
          j := j + 1;
        }
        assert f.value[..j] == f.value;
      } else if f.key == "game_rank" {
        var parsed := ParseGameRank(f.value, info.table);
        if parsed.Failure? {
          GameInfoFailureSticks(gameplay, i + 1, creation, known);
          return Failure(parsed.error);
        }
        info := info.(information := Some(parsed.value));
      }
      i := i + 1;
    }
    assert gameplay[..i] == gameplay;
    return Success(info);
  }

  // ---------------------------------------------------------------------------
  // What the three forms of the "when" text resolve to

  /** "N hours": N whole hours before the creation time, at the same minute of
      the hour, with day, month and year rolled back as needed; failing only
      when that falls outside the calendar. */
  lemma HoursForm(when: string, creation: DateTime, n: int)
    requires ValidDateTime(creation)
    requires Contains(when, "hours") && ParseInt(FirstPiece(when, " ")) == Some(n)
    ensures ResolveTime(when, creation).Success? <==> 0 <= Stamp(creation) - 60 * n <= LastStamp
    ensures ResolveTime(when, creation).Success? ==>
      var t := ResolveTime(when, creation).value;
      && Stamp(t) == Stamp(creation) - 60 * n
      && t.minute == creation.minute
      && (n > 0 ==> Before(t, creation))
  {
    HoursBranch(when, creation, n);
    ShiftHoursStamp(creation, -n);
    if ShiftHours(creation, -n).Some? {
      BeforeIsStampOrder(ShiftHours(creation, -n).value, creation);
    }
  }

  lemma HoursBranch(when: string, creation: DateTime, n: int)
    requires ValidDateTime(creation)
    requires Contains(when, "hours") && ParseInt(FirstPiece(when, " ")) == Some(n)
    ensures ResolveTime(when, creation)
      == if ShiftHours(creation, -n).Some? then Success(ShiftHours(creation, -n).value) else Failure(OutOfRange)
  {
  }

  /** "yesterday at HH:MM": that clock time on the calendar day before the
      creation date (the creation date follows it); failing only on 0001-01-01. */
  lemma YesterdayForm(when: string, creation: DateTime, hour: int, minute: int)
    requires ValidDateTime(creation)
    requires !Contains(when, "hours") && Contains(when, "yesterday")
    requires |Split(when, " at ")| >= 2 && ParseClock(Split(when, " at ")[1]) == Some((hour, minute))
    ensures ResolveTime(when, creation).Success? <==> creation.date != FirstDate
    ensures ResolveTime(when, creation).Success? ==>
      var t := ResolveTime(when, creation).value;
      && t.hour == hour && t.minute == minute
      && DayNumber(t.date) == DayNumber(creation.date) - 1
      && NextDay(t.date) == Some(creation.date)
  {
    if creation.date != FirstDate {
      PreviousDayNumber(creation.date);
      NextOfPrevious(creation.date);
    }
  }

  /** Any other text does not depend on the creation time. */
  lemma AbsoluteIgnoresCreation(when: string, c1: DateTime, c2: DateTime)
    requires ValidDateTime(c1) && ValidDateTime(c2)
    requires !Contains(when, "hours") && !Contains(when, "yesterday")
    ensures ResolveTime(when, c1) == ResolveTime(when, c2)
  {
  }

  lemma NoSpaceInInt(n: int)
    ensures ' ' !in IntToString(n)
  {
    var s := NatToString(if n < 0 then -n else n);
    assert forall i :: 0 <= i < |s| ==> IsDigit(s[i]);
  }

  /** "N mn" (with anything after the unit) is N minutes. */
  lemma DurationText(n: int, unit: string)
    requires Contains(unit, "mn")
    ensures ParseDuration(IntToString(n) + " " + unit) == Success(Some(n))
  {
    NoSpaceInInt(n);
    ContainsWithin(IntToString(n) + " ", unit, "", "mn");
    assert IntToString(n) + " " + unit + "" == IntToString(n) + " " + unit;
    SplitAfterFree(IntToString(n), " ", unit);
    ParseIntToString(n);
  }

  /** The text "yesterday at HH:MM" resolves to that clock time on the day before. */
  lemma YesterdayText(hour: int, minute: int, creation: DateTime)
    requires ValidDateTime(creation) && creation.date != FirstDate
    requires 0 <= hour < 24 && 0 <= minute < 60
    ensures ResolveTime("yesterday at " + FormatClock(hour, minute), creation)
      == Success(DateTime(PreviousDay(creation.date).value, hour, minute))
  {
    var clock := FormatClock(hour, minute);
    var when := "yesterday at " + clock;
    assert when == "yesterday" + " at " + clock;
    assert forall i :: 0 <= i < |clock| ==> clock[i] != 'h' && clock[i] != ' ';
    AbsentCharNotContained(when, "hours", 0);
    assert when[0..9] == "yesterday";
    assert Occurs(when, "yesterday", 0);
    SplitAfterFree("yesterday", " at ", clock);
    SplitFree(clock, " at ");
    FormatClockParse(hour, minute);
  }

  /** The text "YYYY-MM-DD at HH:MM" resolves to exactly that date and time. */
  lemma AbsoluteText(t: DateTime, creation: DateTime)
    requires ValidDateTime(t) && ValidDateTime(creation)
    ensures ResolveTime(FormatDate(t.date) + " at " + FormatClock(t.hour, t.minute), creation) == Success(t)
  {
    var day := FormatDate(t.date);
    var clock := FormatClock(t.hour, t.minute);
    var when := day + " at " + clock;
    assert forall i :: 0 <= i < |day| ==> day[i] != 'h' && day[i] != 'y' && day[i] != ' ';
    assert forall i :: 0 <= i < |clock| ==> clock[i] != 'h' && clock[i] != 'y' && clock[i] != ' ';
    AbsentCharNotContained(when, "hours", 0);
    AbsentCharNotContained(when, "yesterday", 0);
    SplitAfterFree(day, " at ", clock);
    SplitFree(clock, " at ");
    FormatDateParse(t.date);
    FormatClockParse(t.hour, t.minute);
  }

  /** Any "3 hours" text at 2024-01-10 18:00 resolves to 2024-01-10 15:00. */
  lemma ThreeHoursBefore(when: string)
    requires Contains(when, "hours") && ParseInt(FirstPiece(when, " ")) == Some(3)
    ensures ResolveTime(when, DateTime(Date(2024, 1, 10), 18, 0)) == Success(DateTime(Date(2024, 1, 10), 15, 0))
  {
    var creation, expected := DateTime(Date(2024, 1, 10), 18, 0), DateTime(Date(2024, 1, 10), 15, 0);
    HoursForm(when, creation, 3);
    assert Stamp(expected) == Stamp(creation) - 180;
    StampInjective(ResolveTime(when, creation).value, expected);
  }

  /** "yesterday at 20:15" at 2024-03-05 09:00 resolves to 2024-03-04 20:15. */
  lemma YesterdayEvening()
    ensures ResolveTime("yesterday at " + FormatClock(20, 15), DateTime(Date(2024, 3, 5), 9, 0))
      == Success(DateTime(Date(2024, 3, 4), 20, 15))
  {
    var creation := DateTime(Date(2024, 3, 5), 9, 0);
    YesterdayText(20, 15, creation);
    assert PreviousDay(creation.date) == Some(Date(2024, 3, 4));
  }

  // ---------------------------------------------------------------------------
  // The record of a located game

  /** For a game cut by the locator (info, time, players, game_rank in that
      order) the record succeeds exactly when each entry can be read, and then
      holds the name and table id of the info link, the duration and formatted
      time, the players in order, and the annotation built with that same
      table id (info comes before game_rank). */
  lemma LocatedRecord(g: Gameplay, parts: seq<Node>, creation: DateTime, known: Known)
    requires ValidDateTime(creation) && LocatedFrom(g, parts)
    ensures var info := ParseInfo(g[0].value);
      var time := ParseTime(g[1].value, creation);
      var players := ExtractPlayers(g[2].value, known);
      var r := GameInfoOf(g, creation, known);
      && (r.Success? <==>
          info.Success? && time.Success? && players.Success?
          && ParseGameRank(g[3].value, Some(info.value.1)).Success?)
      && (r.Success? ==>
          r.value == GameInfo(players.value, Some(info.value.1), Some(info.value.0), Some(Format(time.value.1)),
                              time.value.0, Some(ParseGameRank(g[3].value, Some(info.value.1)).value)))
  {
    var info := ParseInfo(g[0].value);
    var r1 := GameInfoOf(g[..1], creation, known);
    var r2 := GameInfoOf(g[..2], creation, known);
    var r3 := GameInfoOf(g[..3], creation, known);
    assert g[..1][..0] == [] && g[..1][0] == g[0];
    assert GameInfoOf([], creation, known) == Success(Blank);
    assert r1 == ApplyField(Blank, g[0], creation, known);
    assert g[..2][..1] == g[..1] && g[..2][1] == g[1];
    assert r2 == if r1.Failure? then r1 else ApplyField(r1.value, g[1], creation, known);
    assert g[..3][..2] == g[..2] && g[..3][2] == g[2];
    assert r3 == if r2.Failure? then r2 else ApplyField(r2.value, g[2], creation, known);
    assert g[..3] == g[..|g| - 1];
    assert GameInfoOf(g, creation, known) == if r3.Failure? then r3 else ApplyField(r3.value, g[3], creation, known);
    if r3.Success? {
      assert r3.value.table == Some(info.value.1);
    }
  }

  /** A record built from a located game has a name and a time that reads back
      as the resolved date-time. */
  lemma LocatedRecordComplete(g: Gameplay, parts: seq<Node>, creation: DateTime, known: Known)
    requires ValidDateTime(creation) && LocatedFrom(g, parts)
    requires GameInfoOf(g, creation, known).Success?
    ensures var r := GameInfoOf(g, creation, known).value;
      && r.game.Some? && r.table.Some? && r.information.Some?
      && ParseTime(g[1].value, creation).Success?
      && r.time.Some? && Parse(r.time.value) == Some(ParseTime(g[1].value, creation).value.1)
  {
    LocatedRecord(g, parts, creation, known);
    FormatThenParse(ParseTime(g[1].value, creation).value.1);
  }
}
