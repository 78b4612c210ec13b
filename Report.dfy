/** The report of `main`: the records of every located game, the distinct game
    names in case-insensitive order, the optional game filter, and the tally of
    plays with the earliest and the latest play time. */
module Report {
  import opened Wrappers
  import opened Text
  import opened Calendar
  import opened Dom
  import opened History
  import opened Extract

  // ---------------------------------------------------------------------------
  // The records: `[extract_game_info(game, creation_time) for game in games_history]`

  /** The record of every game, in order, or the first failure. */
  function GameInfosOf(history: seq<Gameplay>, creation: DateTime, known: Known): (r: Result<seq<GameInfo>, Error>)
    requires ValidDateTime(creation)
    ensures r.Success? <==> forall i :: 0 <= i < |history| ==> GameInfoOf(history[i], creation, known).Success?
    ensures r.Success? ==>
      && |r.value| == |history|
      && forall i :: 0 <= i < |history| ==> r.value[i] == GameInfoOf(history[i], creation, known).value
    decreases |history|
  {
    if history == [] then Success([])
    else
      var init :- GameInfosOf(history[..|history| - 1], creation, known);
      var last :- GameInfoOf(history[|history| - 1], creation, known);
      assert forall i :: 0 <= i < |history| - 1 ==> history[i] == history[..|history| - 1][i];
      Success(init + [last])
  }

  lemma {:induction false} GameInfosFailureSticks(history: seq<Gameplay>, k: nat, creation: DateTime, known: Known)
    requires ValidDateTime(creation) && k <= |history|
    requires GameInfosOf(history[..k], creation, known).Failure?
    ensures GameInfosOf(history, creation, known) == GameInfosOf(history[..k], creation, known)
    decreases |history| - k
  {
    if k < |history| {
      assert history[..k + 1][..k] == history[..k];
      GameInfosFailureSticks(history, k + 1, creation, known);
    } else {
      assert history[..k] == history;
    }
  }

  // ---------------------------------------------------------------------------
  // The game names: `sorted(set([play['game'] for play in games_info]), key=lambda x: x.lower())`

  /** `[play['game'] for play in games_info]`; a record without a name makes the
      sort key `None.lower()` raise. */
  function GameNames(infos: seq<GameInfo>): (r: Result<seq<string>, Error>)
    ensures r.Success? <==> forall i :: 0 <= i < |infos| ==> infos[i].game.Some?
    ensures r.Failure? ==> r.error == MissingGameName
    ensures r.Success? ==>
      && |r.value| == |infos|
      && forall i :: 0 <= i < |infos| ==> infos[i].game == Some(r.value[i])
    decreases |infos|
  {
    if infos == [] then Success([])
    else if infos[0].game.None? then Failure(MissingGameName)
    else
      var rest :- GameNames(infos[1..]);
      assert forall i :: 1 <= i < |infos| ==> infos[i] == infos[1..][i - 1];
      Success([infos[0].game.value] + rest)
  }

  /** The sort order: by the lower-cased name, and between names that lower-case
      alike by the names themselves. */
  predicate NameLe(a: string, b: string) {
    if Lower(a) == Lower(b) then StrLe(a, b) else StrLe(Lower(a), Lower(b))
  }

  lemma NameLeTotal(a: string, b: string)
    ensures NameLe(a, b) || NameLe(b, a)
  {
    StrLeTotal(a, b);
    StrLeTotal(Lower(a), Lower(b));
  }

  lemma NameLeAntisymmetric(a: string, b: string)
    requires NameLe(a, b) && NameLe(b, a)
    ensures a == b
  {
    if Lower(a) == Lower(b) {
      StrLeAntisymmetric(a, b);
    } else {
      StrLeAntisymmetric(Lower(a), Lower(b));
    }
  }

  lemma NameLeTransitive(a: string, b: string, c: string)
    requires NameLe(a, b) && NameLe(b, c)
    ensures NameLe(a, c)
  {
    var la, lb, lc := Lower(a), Lower(b), Lower(c);
    if la == lb && lb == lc {
      StrLeTransitive(a, b, c);
    } else if la == lb {
      assert StrLe(la, lc);
    } else if lb == lc {
      assert StrLe(la, lc);
    } else {
      StrLeTransitive(la, lb, lc);
      if la == lc {
        StrLeAntisymmetric(la, lb);
      }
    }
  }

  /** Strictly increasing in the sort order, hence free of repeats. */
  predicate Ordered(s: seq<string>) {
    forall i, j :: 0 <= i < j < |s| ==> NameLe(s[i], s[j]) && s[i] != s[j]
  }

  /** `x` put into its place in an ordered list that may hold it already. */
  function InsertName(x: string, s: seq<string>): (r: seq<string>)
    requires Ordered(s)
    ensures Ordered(r)
    ensures forall y :: y in r <==> y == x || y in s
    decreases |s|
  {
    if s == [] then [x]
    else if x == s[0] then s
    else if NameLe(x, s[0]) then
      assert forall k :: 0 <= k < |s| ==> NameLe(x, s[k]) && x != s[k] by {
        forall k | 0 <= k < |s|
          ensures NameLe(x, s[k]) && x != s[k]
        {
          if k > 0 {
            NameLeTransitive(x, s[0], s[k]);
            if x == s[k] {
              NameLeAntisymmetric(s[0], s[k]);
            }
          }
        }
      }
      [x] + s
    else
      NameLeTotal(x, s[0]);
      var rest := InsertName(x, s[1..]);
      assert forall k :: 0 <= k < |rest| ==> NameLe(s[0], rest[k]) && s[0] != rest[k] by {
        forall k | 0 <= k < |rest|
          ensures NameLe(s[0], rest[k]) && s[0] != rest[k]
        {
          if rest[k] != x {
            var m :| m in s[1..] && m == rest[k];
          }
        }
      }
      [s[0]] + rest
  }

  /** The distinct names in order of their lower-cased form. */
  function SortedNames(names: seq<string>): (r: seq<string>)
    ensures Ordered(r)
    ensures forall y :: y in r <==> y in names
    decreases |names|
  {
    if names == [] then []
    else InsertName(names[|names| - 1], SortedNames(names[..|names| - 1]))
  }

  /** The sorted names hold every name once, and are in the order of the sort
      key `x.lower()`. */
  lemma SortedNamesByKey(names: seq<string>)
    ensures var r := SortedNames(names);
      && (forall y :: y in r <==> y in names)
      && (forall i, j :: 0 <= i < j < |r| ==> r[i] != r[j])
      && (forall i, j :: 0 <= i < j < |r| ==> StrLe(Lower(r[i]), Lower(r[j])))
  {
    var r := SortedNames(names);
    forall i, j | 0 <= i < j < |r|
      ensures StrLe(Lower(r[i]), Lower(r[j]))
    {
      assert NameLe(r[i], r[j]);
      if Lower(r[i]) == Lower(r[j]) {
        StrLeTotal(Lower(r[i]), Lower(r[j]));
      }
    }
  }

  // ---------------------------------------------------------------------------
  // The filter: `if game_filter: assert game_filter in games; games = [game_filter]`

  /** The games to report: all of them when no filter (or an empty one) is
      given, the filtered game alone when it is among them, an error otherwise. */
  function SelectGames(games: seq<string>, filter: Option<string>): (r: Result<seq<string>, Error>)
    ensures (filter.None? || filter == Some("")) ==> r == Success(games)
    ensures filter.Some? && filter.value != "" ==>
      (r.Success? <==> filter.value in games)
      && (r.Success? ==> r.value == [filter.value])
      && (r.Failure? ==> r.error == UnknownGame(filter.value, games))
  {
    match filter
    case None => Success(games)
    case Some(f) =>
      if f == "" then Success(games)
      else if f in games then Success([f])
      else Failure(UnknownGame(f, games))
  }

  // ---------------------------------------------------------------------------
  // The plays listed: `for game in games: for play in games_info: if play['game'] == game`

  /** The records of one game, in record order. */
  function Matches(infos: seq<GameInfo>, g: string): seq<GameInfo>
    decreases |infos|
  {
    if infos == [] then []
    else
      var init := Matches(infos[..|infos| - 1], g);
      var p := infos[|infos| - 1];
      if p.game == Some(g) then init + [p] else init
  }

  /** The records in the order the nested loop visits them: game by game, and
      within a game in record order. */
  function Listing(games: seq<string>, infos: seq<GameInfo>): seq<GameInfo>
    decreases |games|
  {
    if games == [] then []
    else Listing(games[..|games| - 1], infos) + Matches(infos, games[|games| - 1])
  }

  /** A game's records are exactly the records bearing its name. */
  lemma {:induction false} MatchesMembers(infos: seq<GameInfo>, g: string)
    ensures forall p :: p in Matches(infos, g) <==> p in infos && p.game == Some(g)
    decreases |infos|
  {
    if infos != [] {
      MatchesMembers(infos[..|infos| - 1], g);
      assert infos == infos[..|infos| - 1] + [infos[|infos| - 1]];
    }
  }

  /** The listing holds exactly the records named after one of the games. */
  lemma {:induction false} ListingMembers(games: seq<string>, infos: seq<GameInfo>)
    ensures forall p :: p in Listing(games, infos) <==> p in infos && p.game.Some? && p.game.value in games
    decreases |games|
  {
    if games != [] {
      ListingMembers(games[..|games| - 1], infos);
      MatchesMembers(infos, games[|games| - 1]);
      assert games == games[..|games| - 1] + [games[|games| - 1]];
    }
  }

  lemma {:induction false} MatchesAppend(a: seq<GameInfo>, b: seq<GameInfo>, g: string)
    ensures Matches(a + b, g) == Matches(a, g) + Matches(b, g)
    decreases |b|
  {
    if b != [] {
      var b' := b[..|b| - 1];
      assert (a + b)[..|a + b| - 1] == a + b';
      MatchesAppend(a, b', g);
    } else {
      assert a + b == a;
    }
  }

  lemma {:induction false} ListingAppend(a: seq<string>, b: seq<string>, infos: seq<GameInfo>)
    ensures Listing(a + b, infos) == Listing(a, infos) + Listing(b, infos)
    decreases |b|
  {
    if b != [] {
      var b' := b[..|b| - 1];
      assert (a + b)[..|a + b| - 1] == a + b';
      ListingAppend(a, b', infos);
    } else {
      assert a + b == a;
    }
  }

  /** The number of records whose name is one of `games`. */
  function CountNamed(infos: seq<GameInfo>, games: seq<string>): (n: nat)
    ensures n <= |infos|
    decreases |infos|
  {
    if infos == [] then 0
    else
      var p := infos[|infos| - 1];
      CountNamed(infos[..|infos| - 1], games) + if p.game.Some? && p.game.value in games then 1 else 0
  }

  lemma {:induction false} CountNamedStep(infos: seq<GameInfo>, games: seq<string>, g: string)
    requires g !in games
    ensures CountNamed(infos, games + [g]) == CountNamed(infos, games) + |Matches(infos, g)|
    decreases |infos|
  {
    if infos != [] {
      CountNamedStep(infos[..|infos| - 1], games, g);
    }
  }

  /** Over distinct games each record is listed at most once, so the listing is
      as long as the number of records named after one of the games. */
  lemma {:induction false} ListingCount(games: seq<string>, infos: seq<GameInfo>)
    requires forall i, j :: 0 <= i < j < |games| ==> games[i] != games[j]
    ensures |Listing(games, infos)| == CountNamed(infos, games)
    decreases |games|
  {
    if games == [] {
      CountNamedNone(infos, games);
    } else {
      var init := games[..|games| - 1];
      ListingCount(init, infos);
      assert games == init + [games[|games| - 1]];
      CountNamedStep(infos, init, games[|games| - 1]);
    }
  }

  lemma {:induction false} CountNamedNone(infos: seq<GameInfo>, games: seq<string>)
    requires games == []
    ensures CountNamed(infos, games) == 0
    decreases |infos|
  {
    if infos != [] {
      CountNamedNone(infos[..|infos| - 1], games);
    }
  }

  /** When every record is named after one of the games, all are counted. */
  lemma {:induction false} CountNamedAll(infos: seq<GameInfo>, games: seq<string>)
    requires forall i :: 0 <= i < |infos| ==> infos[i].game.Some? && infos[i].game.value in games
    ensures CountNamed(infos, games) == |infos|
    decreases |infos|
  {
    if infos != [] {
      CountNamedAll(infos[..|infos| - 1], games);
    }
  }

  // ---------------------------------------------------------------------------
  // The tally: `num_games`, `first_game` and `last_game`

  /** `num_games`, `first_game`, `last_game`. */
  datatype Summary = Summary(count: nat, first: DateTime, last: DateTime)

  const Start := Summary(0, Latest, Earliest)

  /** `strptime(play['time'], '%Y-%m-%d %H:%M')`. */
  function PlayTime(p: GameInfo): (r: Result<DateTime, Error>)
    ensures r.Success? ==> ValidDateTime(r.value)
    ensures r.Success? <==> p.time.Some? && Parse(p.time.value).Some?
  {
    match p.time
    case None => Failure(MissingTime)
    case Some(s) =>
      match Parse(s)
      case Some(t) => Success(t)
      case None => Failure(BadTime(s))
  }

  /** One counted play. */
  function Count(s: Summary, t: DateTime): Summary {
    Summary(s.count + 1, if Before(t, s.first) then t else s.first, if Before(s.last, t) then t else s.last)
  }

  /** The counters after the given plays, or the first failure to read a time. */
  function TallyOf(plays: seq<GameInfo>): (r: Result<Summary, Error>)
    ensures r.Success? ==> r.value.count == |plays| && ValidDateTime(r.value.first) && ValidDateTime(r.value.last)
    decreases |plays|
  {
    if plays == [] then
      LastDayNumber();
      Success(Start)
    else
      var s :- TallyOf(plays[..|plays| - 1]);
      var t :- PlayTime(plays[|plays| - 1]);
      Success(Count(s, t))
  }

  lemma {:induction false} TallyFailureSticks(a: seq<GameInfo>, b: seq<GameInfo>)
    requires TallyOf(a).Failure?
    ensures TallyOf(a + b) == TallyOf(a)
    decreases |b|
  {
    if b != [] {
      var b' := b[..|b| - 1];
      assert (a + b)[..|a + b| - 1] == a + b';
      TallyFailureSticks(a, b');
    } else {
      assert a + b == a;
    }
  }

  /** The tally succeeds exactly when every listed play has a readable time. */
  lemma {:induction false} TallySucceeds(plays: seq<GameInfo>)
    ensures TallyOf(plays).Success? <==> forall k :: 0 <= k < |plays| ==> PlayTime(plays[k]).Success?
    decreases |plays|
  {
    if plays != [] {
      var init := plays[..|plays| - 1];
      TallySucceeds(init);
      assert forall k :: 0 <= k < |init| ==> plays[k] == init[k];
      if TallyOf(init).Failure? {
        var k :| 0 <= k < |init| && PlayTime(init[k]).Failure?;
        assert PlayTime(plays[k]).Failure?;
      }
    }
  }

  /** A time no earlier than the earliest so far and no later than the latest
      so far stays so after one more play is counted. */
  lemma CountKeepsBounds(s: Summary, t: DateTime, u: DateTime)
    requires !Before(u, s.first) && !Before(s.last, u)
    ensures !Before(u, Count(s, t).first) && !Before(Count(s, t).last, u)
  {
    if Before(u, Count(s, t).first) {
      BeforeTransitive(u, t, s.first);
    }
    if Before(Count(s, t).last, u) {
      BeforeTransitive(s.last, t, u);
    }
  }

  /** The play just counted lies between the new earliest and latest times. */
  lemma CountBoundsNew(s: Summary, t: DateTime)
    ensures !Before(t, Count(s, t).first) && !Before(Count(s, t).last, t)
  {
    BeforeTrichotomy(t, s.first);
    BeforeTrichotomy(s.last, t);
  }

  /** No play is earlier than `first_game` or later than `last_game`. */
  lemma {:induction false} TallyWithin(plays: seq<GameInfo>)
    requires TallyOf(plays).Success?
    ensures var s := TallyOf(plays).value;
      forall k :: 0 <= k < |plays| ==>
        && PlayTime(plays[k]).Success?
        && !Before(PlayTime(plays[k]).value, s.first)
        && !Before(s.last, PlayTime(plays[k]).value)
    decreases |plays|
  {
    if plays != [] {
      var n := |plays| - 1;
      var init, p := plays[..n], plays[n];
      assert plays == init + [p];
      TallyStep(init, p);
      TallyWithin(init);
      WithinStep(init, p, TallyOf(init).value, PlayTime(p).value);
    }
  }

  lemma WithinStep(init: seq<GameInfo>, p: GameInfo, s0: Summary, t: DateTime)
    requires PlayTime(p) == Success(t)
    requires forall k :: 0 <= k < |init| ==>
        && PlayTime(init[k]).Success?
        && !Before(PlayTime(init[k]).value, s0.first)
        && !Before(s0.last, PlayTime(init[k]).value)
    ensures var plays, s := init + [p], Count(s0, t);
      forall k :: 0 <= k < |plays| ==>
        && PlayTime(plays[k]).Success?
        && !Before(PlayTime(plays[k]).value, s.first)
        && !Before(s.last, PlayTime(plays[k]).value)
  {
    var plays := init + [p];
    forall k | 0 <= k < |plays|
      ensures PlayTime(plays[k]).Success?
      ensures !Before(PlayTime(plays[k]).value, Count(s0, t).first) && !Before(Count(s0, t).last, PlayTime(plays[k]).value)
    {
      if k < |init| {
        assert plays[k] == init[k];
        CountKeepsBounds(s0, t, PlayTime(init[k]).value);
      } else {
        CountBoundsNew(s0, t);
      }
    }
  }

  /** `first_game` and `last_game` are times of plays, unless there are none,
      when they stay at `datetime.max` and `datetime.min`. */
  lemma {:induction false} TallyAttained(plays: seq<GameInfo>)
    requires TallyOf(plays).Success?
    ensures var s := TallyOf(plays).value;
      && (plays == [] ==> s.first == Latest && s.last == Earliest)
      && (plays != [] ==>
            && (exists k :: 0 <= k < |plays| && PlayTime(plays[k]) == Success(s.first))
            && (exists k :: 0 <= k < |plays| && PlayTime(plays[k]) == Success(s.last)))
    decreases |plays|
  {
    if plays != [] {
      var n := |plays| - 1;
      var init := plays[..n];
      TallyAttained(init);
      var s0 := TallyOf(init).value;
      var t := PlayTime(plays[n]).value;
      var s := TallyOf(plays).value;
      assert s == Count(s0, t);
      if init == [] {
        WithinCalendar(t);
        BeforeTrichotomy(t, s0.first);
        BeforeTrichotomy(s0.last, t);
        assert PlayTime(plays[n]) == Success(s.first);
        assert PlayTime(plays[n]) == Success(s.last);
      } else {
        var k1 :| 0 <= k1 < |init| && PlayTime(init[k1]) == Success(s0.first);
        var k2 :| 0 <= k2 < |init| && PlayTime(init[k2]) == Success(s0.last);
        assert plays[k1] == init[k1] && plays[k2] == init[k2];
        if Before(t, s0.first) {
          assert PlayTime(plays[n]) == Success(s.first);
        } else {
          assert PlayTime(plays[k1]) == Success(s.first);
        }
        if Before(s0.last, t) {
          assert PlayTime(plays[n]) == Success(s.last);
        } else {
          assert PlayTime(plays[k2]) == Success(s.last);
        }
      }
    }
  }

  /** Where the loop stands after record `j` of game `i`: the listing so far,
      then the rest of game `i`'s records, then the later games. */
  lemma ListingSplit(games: seq<string>, infos: seq<GameInfo>, i: nat, j: nat)
    requires i < |games| && j < |infos|
    ensures Listing(games, infos)
      == (Listing(games[..i], infos) + Matches(infos[..j + 1], games[i]))
         + (Matches(infos[j + 1..], games[i]) + Listing(games[i + 1..], infos))
  {
    ListingAround(games, infos, i);
    MatchesAppend(infos[..j + 1], infos[j + 1..], games[i]);
    CutJoin(infos, j + 1);
    Regroup(Listing(games[..i], infos), Matches(infos[..j + 1], games[i]),
            Matches(infos[j + 1..], games[i]), Listing(games[i + 1..], infos));
  }

  lemma ListingAround(games: seq<string>, infos: seq<GameInfo>, i: nat)
    requires i < |games|
    ensures Listing(games, infos) == (Listing(games[..i], infos) + Matches(infos, games[i])) + Listing(games[i + 1..], infos)
  {
    ListingAppend(games[..i + 1], games[i + 1..], infos);
    CutJoin(games, i + 1);
    assert games[..i + 1][..i] == games[..i] && games[..i + 1][i] == games[i];
  }

  lemma Regroup<T>(a: seq<T>, b: seq<T>, c: seq<T>, d: seq<T>)
    ensures (a + (b + c)) + d == (a + b) + (c + d)
  {
  }

  lemma CutJoin<T>(s: seq<T>, k: nat)
    requires k <= |s|
    ensures s[..k] + s[k..] == s && s[..|s|] == s
  {
  }

  /** The nested loop of `main`: every record of every game, in that order,
      counted and compared with the earliest and latest times so far. */
  method Tally(games: seq<string>, infos: seq<GameInfo>) returns (r: Result<Summary, Error>)
    ensures r == TallyOf(Listing(games, infos))
  {
    var s := Start;
    var i := 0;
    while i < |games|
      invariant 0 <= i <= |games|
      invariant TallyOf(Listing(games[..i], infos)) == Success(s)
    {
      var g := games[i];
      ghost var before := Listing(games[..i], infos);
      assert Matches(infos[..0], g) == [];
      assert before + [] == before;
      var j := 0;
      while j < |infos|
        invariant 0 <= j <= |infos|
        invariant TallyOf(before + Matches(infos[..j], g)) == Success(s)
      {
        var play := infos[j];
        MatchesStep(infos, j, g);
        if play.game == Some(g) {
          ghost var done := before + Matches(infos[..j], g);
          AppendAssoc(before, Matches(infos[..j], g), [play]);
          TallyStep(done, play);
          var t := PlayTime(play);
          if t.Failure? {
            ListingSplit(games, infos, i, j);
            TallyFailureSticks(done + [play], Matches(infos[j + 1..], g) + Listing(games[i + 1..], infos));
            return Failure(t.error);
          }
          s := Count(s, t.value);
        }
        j := j + 1;
      }
      CutJoin(infos, j);
      assert games[..i + 1][..i] == games[..i] && games[..i + 1][i] == g;
      i := i + 1;
    }
    assert games[..i] == games;
    return Success(s);
  }

  /** One more record of the game being listed. */
  lemma MatchesStep(infos: seq<GameInfo>, j: nat, g: string)
    requires j < |infos|
    ensures infos[j].game == Some(g) ==> Matches(infos[..j + 1], g) == Matches(infos[..j], g) + [infos[j]]
    ensures infos[j].game != Some(g) ==> Matches(infos[..j + 1], g) == Matches(infos[..j], g)
  {
    assert infos[..j + 1][..j] == infos[..j];
  }

  /** One more play counted. */
  lemma TallyStep(plays: seq<GameInfo>, p: GameInfo)
    ensures TallyOf(plays + [p]) ==
      if TallyOf(plays).Failure? then TallyOf(plays)
      else if PlayTime(p).Failure? then Failure(PlayTime(p).error)
      else Success(Count(TallyOf(plays).value, PlayTime(p).value))
  {
    assert (plays + [p])[..|plays|] == plays;
  }

  lemma AppendAssoc<T>(a: seq<T>, b: seq<T>, c: seq<T>)
    ensures a + (b + c) == (a + b) + c
  {
  }

  // ---------------------------------------------------------------------------
  // The whole report

  /** What the report line states: the games reported and the counters. */
  datatype Report = Report(games: seq<string>, summary: Summary)

  /** The report over the extracted records: the sorted names, the filter and
      the tally. */
  function ReportFrom(infos: seq<GameInfo>, filter: Option<string>): Result<Report, Error> {
    var names :- GameNames(infos);
    var games :- SelectGames(SortedNames(names), filter);
    var s :- TallyOf(Listing(games, infos));
    Success(Report(games, s))
  }

  /** `main(file_path, game_filter)` after the page and the creation time are read. */
  function ReportOf(data: seq<Node>, creation: DateTime, known: Known, filter: Option<string>): Result<Report, Error>
    requires ValidDateTime(creation)
  {
    var history :- ExtractGamesHistory(data);
    var infos :- GameInfosOf(history, creation, known);
    ReportFrom(infos, filter)
  }

  /** The list comprehension of `main`: `extract_game_info` on every located
      game, in order, stopping at the first failure. */
  method ExtractAll(history: seq<Gameplay>, creation: DateTime, known: Known) returns (r: Result<seq<GameInfo>, Error>)
    requires ValidDateTime(creation)
    ensures r == GameInfosOf(history, creation, known)
  {
    var infos: seq<GameInfo> := [];
    var i := 0;
    while i < |history|
      invariant 0 <= i <= |history|
      invariant GameInfosOf(history[..i], creation, known) == Success(infos)
    {
      assert history[..i + 1][..i] == history[..i] && history[..i + 1][i] == history[i];
      var info := ExtractGameInfo(history[i], creation, known);
      if info.Failure? {
        GameInfosFailureSticks(history, i + 1, creation, known);
        return Failure(info.error);
      }
      infos := infos + [info.value];
      i := i + 1;
    }
    CutJoin(history, i);
    return Success(infos);
  }

  /** `main` step by step: locate the games, extract each record, sort the
      names, apply the filter and run the tally loop. */
  method Summarize(data: seq<Node>, creation: DateTime, known: Known, filter: Option<string>) returns (r: Result<Report, Error>)
    requires ValidDateTime(creation)
    ensures r == ReportOf(data, creation, known, filter)
  {
    var history :- ExtractGamesHistory(data);
    var infos :- ExtractAll(history, creation, known);
    var names :- GameNames(infos);
    var games :- SelectGames(SortedNames(names), filter);
    var s :- Tally(games, infos);
    return Success(Report(games, s));
  }

  /** Without a filter the report names every game of the records once, in the
      order of the lower-cased names, and counts every record. */
  lemma UnfilteredReport(infos: seq<GameInfo>, filter: Option<string>)
    requires filter.None? || filter == Some("")
    requires ReportFrom(infos, filter).Success?
    ensures var rep := ReportFrom(infos, filter).value;
      && (forall g :: g in rep.games <==> exists i :: 0 <= i < |infos| && infos[i].game == Some(g))
      && (forall i, j :: 0 <= i < j < |rep.games| ==> rep.games[i] != rep.games[j])
      && (forall i, j :: 0 <= i < j < |rep.games| ==> StrLe(Lower(rep.games[i]), Lower(rep.games[j])))
      && rep.summary.count == |infos|
  {
    var names := GameNames(infos).value;
    var games := SortedNames(names);
    SortedNamesByKey(names);
    forall g
      ensures g in games <==> exists i :: 0 <= i < |infos| && infos[i].game == Some(g)
    {
      if g in games {
        var i :| 0 <= i < |names| && names[i] == g;
        assert infos[i].game == Some(g);
      }
    }
    ListingCount(games, infos);
    CountNamedAll(infos, games);
  }

  /** With a filter naming one of the games only that game is reported and its
      records are counted; a filter naming no record's game is an error that
      names the filter and the sorted games. */
  lemma FilteredReport(infos: seq<GameInfo>, f: string)
    requires f != ""
    ensures var r := ReportFrom(infos, Some(f));
      && (GameNames(infos).Success? && (forall i :: 0 <= i < |infos| ==> infos[i].game != Some(f)) ==>
            r == Failure(UnknownGame(f, SortedNames(GameNames(infos).value))))
      && (r.Success? ==> r.value.games == [f] && r.value.summary.count == |Matches(infos, f)|)
  {
    if GameNames(infos).Success? {
      var names := GameNames(infos).value;
      if f in SortedNames(names) {
        var i :| 0 <= i < |names| && names[i] == f;
        assert infos[i].game == Some(f);
      }
    }
    assert Listing([f], infos) == Matches(infos, f) by {
      assert [f][..0] == [];
    }
  }
}
