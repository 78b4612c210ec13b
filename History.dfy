/** The document locator (`extract_games_history`): find the "Games history"
    section among the top-level items, descend a fixed path to the list of game
    nodes, and cut every game into its four fields. */
module History {
  import opened Wrappers
  import opened Dom

  /** One entry of a game's `dict`: a key and the list stored under it. */
  datatype Field = Field(key: string, value: seq<Node>)

  /** A game's `dict`, its entries in insertion order. */
  type Gameplay = seq<Field>

  const SectionTitle := "Games history"

  /** `'children' in item and item['children'][0]['text'] == 'Games history'`,
      including its IndexError and KeyError. */
  function IsSection(item: Node): Result<bool, Error> {
    match item.children
    case None => Success(false)
    case Some(kids) =>
      var first :- At(kids, 0);
      var title :- TextOf(first);
      Success(title == SectionTitle)
  }

  /** The `for item in data` scan: the index of the first section item, None
      when the scan ends without one, or the error raised on the way. */
  function FindSection(data: seq<Node>): (r: Result<Option<nat>, Error>)
    ensures r == Success(None) <==> forall i :: 0 <= i < |data| ==> IsSection(data[i]) == Success(false)
    ensures r.Success? && r.value.Some? ==>
      && r.value.value < |data|
      && IsSection(data[r.value.value]) == Success(true)
      && forall j :: 0 <= j < r.value.value ==> IsSection(data[j]) == Success(false)
    ensures r.Failure? ==>
      exists i :: 0 <= i < |data| && IsSection(data[i]) == Failure(r.error)
        && forall j :: 0 <= j < i ==> IsSection(data[j]) == Success(false)
    decreases |data|
  {
    if data == [] then Success(None)
    else
      var hit :- IsSection(data[0]);
      if hit then Success(Some(0))
      else
        var rest := FindSection(data[1..]);
        assert forall i :: 1 <= i < |data| ==> data[i] == data[1..][i - 1];
        match rest
        case Failure(e) => Failure(e)
        case Success(None) => Success(None)
        case Success(Some(k)) => Success(Some(k + 1))
  }

  /** The game nodes, `item['children'][1]['children'][0]['children'][0]['children'][0]['children']`. */
  function GameNodes(section: Node): Result<seq<Node>, Error> {
    var kids :- Children(section);
    var level1 :- ChildrenAt(kids, 1);
    var level2 :- ChildrenAt(level1, 0);
    var level3 :- ChildrenAt(level2, 0);
    ChildrenAt(level3, 0)
  }

  /** `[game['children'] for game in games]`. */
  function PartsOf(games: seq<Node>): (r: Result<seq<seq<Node>>, Error>)
    ensures r.Success? <==> forall i :: 0 <= i < |games| ==> games[i].children.Some?
    ensures r.Success? ==>
      && |r.value| == |games|
      && forall i :: 0 <= i < |games| ==> r.value[i] == games[i].children.value
    decreases |games|
  {
    if games == [] then Success([])
    else
      var first :- Children(games[0]);
      var rest :- PartsOf(games[1..]);
      assert forall i :: 1 <= i < |games| ==> games[i] == games[1..][i - 1];
      Success([first] + rest)
  }

  /** The four entries built from one game's parts. */
  function FieldsOf(parts: seq<Node>): Result<Gameplay, Error> {
    var info :- ChildrenAt(parts, 0);
    var time :- ChildrenAt(parts, 1);
    var players :- ChildrenAt(parts, 2);
    var rank :- ChildrenAt(parts, 3);
    Success([Field("info", info), Field("time", time), Field("players", players), Field("game_rank", rank)])
  }

  /** The shape every located game has: its four entries are the children of
      its parts 0, 1, 2 and 3, under the keys the extractor dispatches on. */
  predicate LocatedFrom(g: Gameplay, parts: seq<Node>) {
    && |parts| >= 4
    && (forall k :: 0 <= k < 4 ==> parts[k].children.Some?)
    && g == [Field("info", parts[0].children.value), Field("time", parts[1].children.value),
             Field("players", parts[2].children.value), Field("game_rank", parts[3].children.value)]
  }

  /** The list comprehension over the games' parts. */
  function AllFields(all: seq<seq<Node>>): (r: Result<seq<Gameplay>, Error>)
    ensures r.Success? <==> forall i :: 0 <= i < |all| ==> FieldsOf(all[i]).Success?
    ensures r.Success? ==>
      && |r.value| == |all|
      && forall i :: 0 <= i < |all| ==> LocatedFrom(r.value[i], all[i])
    decreases |all|
  {
    if all == [] then Success([])
    else
      var first :- FieldsOf(all[0]);
      var rest :- AllFields(all[1..]);
      assert forall i :: 1 <= i < |all| ==> all[i] == all[1..][i - 1];
      Success([first] + rest)
  }

  /** `extract_games_history(data)`. */
  function ExtractGamesHistory(data: seq<Node>): Result<seq<Gameplay>, Error> {
    var found :- FindSection(data);
    match found
    case None => Success([])
    case Some(k) =>
      var games :- GameNodes(data[k]);
      var parts :- PartsOf(games);
      AllFields(parts)
  }

  /** Without a "Games history" item (and with every item that has children
      having a titled first child) the locator returns no games. */
  lemma NoSectionNoGames(data: seq<Node>)
    requires forall i :: 0 <= i < |data| ==> IsSection(data[i]) == Success(false)
    ensures ExtractGamesHistory(data) == Success([])
  {
  }

  /** A located game list has exactly one entry per game node of the first
      section, in order, and each entry's four fields are the children of that
      game's children 0, 1, 2 and 3. */
  lemma LocatedGames(data: seq<Node>, k: nat)
    requires FindSection(data) == Success(Some(k)) && ExtractGamesHistory(data).Success?
    ensures k < |data| && GameNodes(data[k]).Success?
    ensures var games := GameNodes(data[k]).value;
      var gs := ExtractGamesHistory(data).value;
      && |gs| == |games|
      && forall i :: 0 <= i < |games| ==> games[i].children.Some? && LocatedFrom(gs[i], games[i].children.value)
  {
  }

  /** A game's parts give the four entries exactly when there are at least four
      of them and each of the first four has children. */
  lemma FieldsOfSucceeds(parts: seq<Node>)
    ensures FieldsOf(parts).Success? <==>
      |parts| >= 4 && forall j :: 0 <= j < 4 ==> parts[j].children.Some?
  {
    if |parts| >= 4 && !(forall j :: 0 <= j < 4 ==> parts[j].children.Some?) {
      var j :| 0 <= j < 4 && parts[j].children.None?;
    }
  }

  /** The locator fails exactly when a located game lacks one of the keys or
      indices on its fixed path. */
  lemma LocatedGamesSucceed(data: seq<Node>, k: nat)
    requires FindSection(data) == Success(Some(k)) && k < |data| && GameNodes(data[k]).Success?
    ensures var games := GameNodes(data[k]).value;
      ExtractGamesHistory(data).Success? <==>
        forall i :: 0 <= i < |games| ==>
          && games[i].children.Some?
          && |games[i].children.value| >= 4
          && forall j :: 0 <= j < 4 ==> games[i].children.value[j].children.Some?
  {
    var games := GameNodes(data[k]).value;
    var parts := PartsOf(games);
    if parts.Success? {
      forall i | 0 <= i < |games|
        ensures FieldsOf(parts.value[i]).Success? <==>
          (|games[i].children.value| >= 4 && forall j :: 0 <= j < 4 ==> games[i].children.value[j].children.Some?)
      {
        FieldsOfSucceeds(parts.value[i]);
      }
    }
  }
}
