/** String operations the extractor relies on: Python's `in`, `str.split(sep)`,
    `split(sep)[-1]`, slicing `[:-2]`, `str.replace(old, '')`, `str.lower()` and
    the lexicographic order `<` on strings. */
module Text {
  import opened Wrappers

  /** `pat` occurs in `s` starting at index `j`. */
  predicate Occurs(s: string, pat: string, j: int) {
    0 <= j && j + |pat| <= |s| && s[j..j + |pat|] == pat
  }

  /** The leftmost occurrence of `pat` in `s`. */
  function Find(s: string, pat: string): (r: Option<nat>)
    ensures r.Some? ==> Occurs(s, pat, r.value)
    ensures r.Some? ==> forall j :: 0 <= j < r.value ==> !Occurs(s, pat, j)
    ensures r.None? ==> forall j :: !Occurs(s, pat, j)
    decreases |s|
  {
    if |s| < |pat| then None
    else if s[..|pat|] == pat then Some(0)
    else
      ShiftOccurs(s, pat);
      assert s[0..|pat|] == s[..|pat|];
      match Find(s[1..], pat)
      case None => None
      case Some(i) => Some(i + 1)
  }

  /** An occurrence in `s[1..]` at `j` is an occurrence in `s` at `j + 1`, and back. */
  lemma ShiftOccurs(s: string, pat: string)
    requires |s| > 0
    ensures forall j {:trigger Occurs(s, pat, j)} :: 1 <= j ==> (Occurs(s[1..], pat, j - 1) <==> Occurs(s, pat, j))
  {
    forall j | 1 <= j
      ensures Occurs(s[1..], pat, j - 1) <==> Occurs(s, pat, j)
    {
      if j + |pat| <= |s| {
        assert s[1..][j - 1..j - 1 + |pat|] == s[j..j + |pat|];
      }
    }
  }

  /** Python's `pat in s`. */
  predicate Contains(s: string, pat: string)
    ensures Contains(s, pat) <==> exists j :: Occurs(s, pat, j)
  {
    Find(s, pat).Some?
  }

  /** When some character of `pat` does not appear in `s`, `pat` cannot occur in `s`. */
  lemma AbsentCharNotContained(s: string, pat: string, k: nat)
    requires k < |pat| && pat[k] !in s
    ensures !Contains(s, pat)
  {
  }

  /** An occurrence stays an occurrence when text is put in front or behind. */
  lemma ContainsWithin(a: string, b: string, c: string, pat: string)
    requires Contains(b, pat)
    ensures Contains(a + b + c, pat)
  {
    var j :| Occurs(b, pat, j);
    var s := a + b + c;
    assert s[|a| + j..|a| + j + |pat|] == b[j..j + |pat|];
    assert Occurs(s, pat, |a| + j);
  }

  /** Python's `s.split(sep)` for a non-empty separator: cut at the leftmost
      occurrence, then go on splitting what follows it. */
  function Split(s: string, sep: string): (parts: seq<string>)
    requires |sep| > 0
    ensures |parts| >= 1
    decreases |s|
  {
    match Find(s, sep)
    case None => [s]
    case Some(i) => [s[..i]] + Split(s[i + |sep|..], sep)
  }

  /** Python's `sep.join(parts)`. */
  function Join(parts: seq<string>, sep: string): string
    requires |parts| >= 1
  {
    if |parts| == 1 then parts[0] else parts[0] + sep + Join(parts[1..], sep)
  }

  /** Splitting and joining again gives back the original string. */
  lemma {:induction false} SplitJoin(s: string, sep: string)
    requires |sep| > 0
    ensures Join(Split(s, sep), sep) == s
    decreases |s|
  {
    match Find(s, sep)
    case None =>
    case Some(i) =>
      var tail := s[i + |sep|..];
      SplitJoin(tail, sep);
      JoinCons(s[..i], Split(tail, sep), sep);
      Reassemble(s, i, |sep|);
  }

  lemma JoinCons(head: string, rest: seq<string>, sep: string)
    requires |rest| >= 1
    ensures Join([head] + rest, sep) == head + sep + Join(rest, sep)
  {
    assert ([head] + rest)[1..] == rest;
  }

  lemma Reassemble<T>(s: seq<T>, i: nat, n: nat)
    requires i + n <= |s|
    ensures s == s[..i] + s[i..i + n] + s[i + n..]
  {
  }

  /** No piece of a split contains the separator. */
  lemma {:induction false} SplitPiecesFree(s: string, sep: string)
    requires |sep| > 0
    ensures forall k :: 0 <= k < |Split(s, sep)| ==> !Contains(Split(s, sep)[k], sep)
    decreases |s|
  {
    match Find(s, sep)
    case None =>
    case Some(i) =>
      var tail := s[i + |sep|..];
      SplitPiecesFree(tail, sep);
      var head := s[..i];
      if Contains(head, sep) {
        var j :| Occurs(head, sep, j);
        assert s[j..j + |sep|] == head[j..j + |sep|];
        assert Occurs(s, sep, j);
      }
      assert Split(s, sep) == [head] + Split(tail, sep);
  }

  /** When the separator's first character is absent from `a`, the leftmost
      occurrence of the separator in `a + sep + b` is the one right after `a`. */
  lemma FindAfterFree(a: string, sep: string, b: string)
    requires |sep| > 0 && sep[0] !in a
    ensures Find(a + sep + b, sep) == Some(|a|)
  {
    var s := a + sep + b;
    assert s[|a|..|a| + |sep|] == sep;
    assert Occurs(s, sep, |a|);
    forall j | 0 <= j < |a|
      ensures !Occurs(s, sep, j)
    {
      assert s[j] == a[j];
    }
  }

  /** Splitting `a + sep + b` where `a` cannot hold the separator's first character. */
  lemma SplitAfterFree(a: string, sep: string, b: string)
    requires |sep| > 0 && sep[0] !in a
    ensures Split(a + sep + b, sep) == [a] + Split(b, sep)
  {
    var s := a + sep + b;
    FindAfterFree(a, sep, b);
    assert s[..|a|] == a;
    assert s[|a| + |sep|..] == b;
  }

  /** A string that cannot hold the separator's first character is a single piece. */
  lemma SplitFree(s: string, sep: string)
    requires |sep| > 0 && sep[0] !in s
    ensures Split(s, sep) == [s]
  {
    AbsentCharNotContained(s, sep, 0);
  }

  /** Python's `s.split(sep)[0]`. */
  function FirstPiece(s: string, sep: string): string
    requires |sep| > 0
  {
    Split(s, sep)[0]
  }

  /** Python's `s.split(sep)[-1]`. */
  function LastPiece(s: string, sep: string): string
    requires |sep| > 0
  {
    var parts := Split(s, sep);
    parts[|parts| - 1]
  }

  /** `s.split(c)[0]` is the longest prefix of `s` free of `c`. */
  lemma FirstPieceIsPrefix(s: string, c: char)
    ensures var r := FirstPiece(s, [c]);
      && r == s[..|r|]
      && c !in r
      && (|r| < |s| ==> s[|r|] == c)
  {
    var r := FirstPiece(s, [c]);
    SplitPiecesFree(s, [c]);
    assert !Contains(r, [c]);
    if c in r {
      var k :| 0 <= k < |r| && r[k] == c;
      assert r[k..k + 1] == [c];
      assert Occurs(r, [c], k);
    }
    match Find(s, [c])
    case None =>
    case Some(i) =>
      assert s[i..i + 1] == [c];
  }

  /** `s.split(c)[-1]` is the longest suffix of `s` free of `c`: either all of
      `s`, or what follows the last `c`. */
  lemma {:induction false} LastPieceIsSuffix(s: string, c: char)
    ensures var r := LastPiece(s, [c]);
      && |r| <= |s|
      && r == s[|s| - |r|..]
      && c !in r
      && (|r| < |s| ==> s[|s| - |r| - 1] == c)
    decreases |s|
  {
    match Find(s, [c])
    case None =>
      if c in s {
        var k :| 0 <= k < |s| && s[k] == c;
        CharOccurs(s, c, k);
      }
    case Some(i) =>
      var tail := s[i + 1..];
      LastPieceIsSuffix(tail, c);
      LastOfCons(s[..i], Split(tail, [c]));
      assert s[i..i + 1] == [c];
      SuffixOfTail(s, i + 1, |LastPiece(tail, [c])|);
  }

  lemma CharOccurs(s: string, c: char, k: nat)
    requires k < |s| && s[k] == c
    ensures Occurs(s, [c], k)
  {
    assert s[k..k + 1] == [c];
  }

  lemma LastOfCons<T>(head: T, rest: seq<T>)
    requires |rest| >= 1
    ensures ([head] + rest)[|rest|] == rest[|rest| - 1]
  {
  }

  lemma SuffixOfTail<T>(s: seq<T>, i: nat, n: nat)
    requires i <= |s| && n <= |s| - i
    ensures s[|s| - n..] == s[i..][|s| - i - n..]
  {
  }

  /** Python's `s[:-k]`: everything but the last `k` characters, or "" when `s` is shorter. */
  function DropLast(s: string, k: nat): string
  {
    if |s| >= k then s[..|s| - k] else ""
  }

  /** Dropping the length of a suffix gives back what preceded it. */
  lemma DropLastAppend(a: string, b: string)
    ensures DropLast(a + b, |b|) == a
  {
    assert (a + b)[..|a|] == a;
  }

  /** Python's `s.replace(pat, repl)` for a non-empty `pat`, which is `repl.join(s.split(pat))`. */
  function Replace(s: string, pat: string, repl: string): string
    requires |pat| > 0
  {
    Join(Split(s, pat), repl)
  }

  /** Removing every `p` from `p + t`, where `t` holds no `p`, strips the prefix. */
  lemma ReplacePrefix(p: string, t: string)
    requires |p| > 0 && !Contains(t, p)
    ensures Replace(p + t, p, "") == t
  {
    var s := p + t;
    assert s[0..|p|] == p;
    assert Occurs(s, p, 0);
    assert Find(s, p) == Some(0);
    assert s[..0] == "" && s[|p|..] == t;
    assert Find(t, p).None?;
    assert Split(t, p) == [t];
    assert Split(s, p) == [""] + [t];
    assert Join([""] + [t], "") == "" + "" + Join([t], "");
  }

  /** Python's `c.lower()` restricted to ASCII letters. */
  function LowerChar(c: char): char {
    if 'A' <= c <= 'Z' then (c as int + 32) as char else c
  }

  /** Python's `s.lower()` restricted to ASCII letters. */
  function Lower(s: string): string
  {
    seq(|s|, i requires 0 <= i < |s| => LowerChar(s[i]))
  }

  /** A lower-cased string holds no ASCII capital. */
  lemma LowerHasNoCapital(s: string)
    ensures forall i :: 0 <= i < |Lower(s)| ==> !('A' <= Lower(s)[i] <= 'Z')
  {
  }

  /** Lower-casing twice is lower-casing once. */
  lemma LowerIdempotent(s: string)
    ensures Lower(Lower(s)) == Lower(s)
  {
    LowerHasNoCapital(s);
  }

  /** Lower-casing works character by character, so it distributes over concatenation. */
  lemma LowerAppend(a: string, b: string)
    ensures Lower(a + b) == Lower(a) + Lower(b)
  {
    assert forall i :: 0 <= i < |b| ==> (a + b)[|a| + i] == b[i];
  }

  /** Python's `a <= b` on strings: lexicographic by code point, a prefix first. */
  predicate StrLe(a: string, b: string) {
    |a| == 0 || (|b| > 0 && (a[0] < b[0] || (a[0] == b[0] && StrLe(a[1..], b[1..]))))
  }

  lemma {:induction false} StrLeTotal(a: string, b: string)
    ensures StrLe(a, b) || StrLe(b, a)
  {
    if |a| > 0 && |b| > 0 && a[0] == b[0] {
      StrLeTotal(a[1..], b[1..]);
    }
  }

  lemma {:induction false} StrLeAntisymmetric(a: string, b: string)
    requires StrLe(a, b) && StrLe(b, a)
    ensures a == b
  {
    if |a| > 0 && |b| > 0 {
      StrLeAntisymmetric(a[1..], b[1..]);
      assert a == [a[0]] + a[1..];
      assert b == [b[0]] + b[1..];
    }
  }

  lemma {:induction false} StrLeTransitive(a: string, b: string, c: string)
    requires StrLe(a, b) && StrLe(b, c)
    ensures StrLe(a, c)
  {
    if |a| > 0 && |b| > 0 && |c| > 0 && a[0] == b[0] == c[0] {
      StrLeTransitive(a[1..], b[1..], c[1..]);
    }
  }
}
