/** Scanning helpers shared by the parser, the printer and the router.

    A byte of the wire is a Dafny `char`; no result depends on how many characters exist. */
module Text {

  const CRLF: string := "\r\n"

  predicate CrlfAt(s: string, i: int) {
    0 <= i && i + 1 < |s| && s[i] == '\r' && s[i + 1] == '\n'
  }

  /** Position of the first CRLF at or after `from`, or -1. */
  function CrlfIndex(s: string, from: nat := 0): (r: int)
    requires from <= |s|
    ensures -1 <= r
    ensures r == -1 ==> forall k :: from <= k ==> !CrlfAt(s, k)
    ensures r != -1 ==> from <= r && CrlfAt(s, r) && forall k :: from <= k < r ==> !CrlfAt(s, k)
    decreases |s| - from
  {
    if from + 1 >= |s| then -1
    else if CrlfAt(s, from) then from
    else CrlfIndex(s, from + 1)
  }

  /** Position of the first `c` at or after `from`, or -1. */
  function IndexOf(s: string, c: char, from: nat := 0): (r: int)
    requires from <= |s|
    ensures -1 <= r < |s|
    ensures r == -1 ==> forall k :: from <= k < |s| ==> s[k] != c
    ensures r != -1 ==> from <= r && s[r] == c && forall k :: from <= k < r ==> s[k] != c
    decreases |s| - from
  {
    if from == |s| then -1
    else if s[from] == c then from
    else IndexOf(s, c, from + 1)
  }

  predicate OccursAt(s: string, sub: string, i: int) {
    0 <= i <= |s| - |sub| && s[i..i + |sub|] == sub
  }

  predicate Contains(s: string, sub: string) {
    exists i: nat | i <= |s| :: OccursAt(s, sub, i)
  }

  /** First position at or after `from` that does not hold a space. */
  function SkipSpaces(s: string, from: nat): (r: nat)
    requires from <= |s|
    ensures from <= r <= |s|
    ensures forall k :: from <= k < r ==> s[k] == ' '
    ensures r < |s| ==> s[r] != ' '
    decreases |s| - from
  {
    if from < |s| && s[from] == ' ' then SkipSpaces(s, from + 1) else from
  }

  function Spaces(n: nat): (s: string)
    ensures |s| == n && forall i :: 0 <= i < n ==> s[i] == ' '
  {
    seq(n, _ => ' ')
  }

  predicate Suffix(t: string, s: string) {
    |t| <= |s| && t == s[|s| - |t|..]
  }

  lemma SuffixSelf(s: string)
    ensures Suffix(s, s)
  {
  }

  lemma SuffixDrop(s: string, n: nat)
    requires n <= |s|
    ensures Suffix(s[n..], s)
  {
  }

  lemma SuffixOf(u: string, t: string, s: string)
    requires Suffix(u, t) && Suffix(t, s)
    ensures Suffix(u, s)
  {
  }

  lemma SuffixIs(t: string, s: string)
    requires Suffix(t, s)
    ensures |t| <= |s| && t == s[|s| - |t|..]
  {
  }

  /** The first `n` characters, or all of them if there are fewer. */
  function Upto(s: string, n: nat): (t: string)
    ensures t <= s && |t| <= n
    ensures |s| <= n ==> t == s
  {
    if |s| <= n then s else s[..n]
  }

  /** No CRLF inside; a carriage return alone, or a line feed alone, may be. */
  predicate OneLine(s: string) {
    forall k :: 0 <= k < |s| ==> !CrlfAt(s, k)
  }

  /** Lines put side by side are one line unless a CRLF comes about where they meet. */
  lemma OneLineJoin(a: string, b: string)
    requires OneLine(a) && OneLine(b) && (a == "" || b == "" || a[|a| - 1] != '\r' || b[0] != '\n')
    ensures OneLine(a + b)
  {
    forall k ensures !CrlfAt(a + b, k) {
      assert !CrlfAt(a, k) && !CrlfAt(b, k - |a|);
    }
  }

  /** A line ends at its own CRLF, whatever follows. */
  lemma CrlfIndexOfLine(line: string, rest: string)
    requires OneLine(line)
    ensures CrlfIndex(line + CRLF + rest) == |line|
  {
    var s := line + CRLF + rest;
    assert CrlfAt(s, |line|);
    forall k | 0 <= k < |line| ensures !CrlfAt(s, k) {
      assert s[k] == line[k] && !CrlfAt(line, k);
    }
  }

  /** Once a CRLF is in view, bytes that arrive later do not move it, and
      it stays in view in every prefix that reaches past it. */
  lemma CrlfIndexPrefix(a: string, b: string)
    ensures CrlfIndex(a) != -1 ==> CrlfIndex(a + b) == CrlfIndex(a)
    ensures CrlfIndex(a + b) != -1 && CrlfIndex(a + b) + 2 <= |a| ==> CrlfIndex(a) == CrlfIndex(a + b)
  {
    assert forall k :: CrlfAt(a, k) ==> CrlfAt(a + b, k);
    assert forall k :: k + 1 < |a| && CrlfAt(a + b, k) ==> CrlfAt(a, k);
  }

  function Flatten(parts: seq<string>): (s: string) {
    if parts == [] then "" else parts[0] + Flatten(parts[1..])
  }

  lemma {:induction false} FlattenAppend(parts: seq<string>, last: string)
    ensures Flatten(parts + [last]) == Flatten(parts) + last
  {
    if parts == [] {
      assert [last][1..] == [];
    } else {
      assert (parts + [last])[1..] == parts[1..] + [last];
      FlattenAppend(parts[1..], last);
    }
  }
}
