/** The serialised page: a tree of JSON objects with optional `text`, `href`,
    `class` (here `className`) and `children` keys, and the ways reading it can fail. */
module Dom {
  import opened Wrappers

  /** A node of the page. `children` is None when the key is absent, which the
      locator tells apart from an empty list. */
  datatype Node = Node(text: Option<string>, href: Option<string>, className: Option<string>, children: Option<seq<Node>>)

  /** The exceptions the source lets escape, one constructor per kind of failure. */
  datatype Error =
    | MissingKey(key: string)                        // KeyError on a node
    | MissingIndex(index: nat)                       // IndexError on a list
    | NotAnInteger(text: string)                     // ValueError from int()
    | BadTime(text: string)                          // ValueError from strptime, IndexError from split(" at ")[1]
    | OutOfRange                                     // OverflowError from datetime arithmetic
    | MarkerMismatch(found: string)                  // AssertionError on the rank-change marker
    | MissingGameName                                // None.lower() while sorting game names
    | MissingTime                                    // strptime(None, ...) while tallying plays
    | UnknownGame(name: string, valid: seq<string>)  // the game filter is not among the games

  /** `nodes[i]`. */
  function At(nodes: seq<Node>, i: nat): Result<Node, Error> {
    if i < |nodes| then Success(nodes[i]) else Failure(MissingIndex(i))
  }

  /** `node['children']`. */
  function Children(n: Node): Result<seq<Node>, Error> {
    match n.children
    case Some(kids) => Success(kids)
    case None => Failure(MissingKey("children"))
  }

  /** `node['text']`. */
  function TextOf(n: Node): Result<string, Error> {
    match n.text
    case Some(t) => Success(t)
    case None => Failure(MissingKey("text"))
  }

  /** `node['href']`. */
  function HrefOf(n: Node): Result<string, Error> {
    match n.href
    case Some(h) => Success(h)
    case None => Failure(MissingKey("href"))
  }

  /** `node['class']`. */
  function ClassOf(n: Node): Result<string, Error> {
    match n.className
    case Some(c) => Success(c)
    case None => Failure(MissingKey("class"))
  }

  /** `nodes[i]['children']`. */
  function ChildrenAt(nodes: seq<Node>, i: nat): Result<seq<Node>, Error> {
    var n :- At(nodes, i);
    Children(n)
  }
}
