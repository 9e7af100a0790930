/** The trie router: registrations in, one handler out. */
module Routing {
  import opened Text

  type Handler = nat
  type Path = seq<string>

  // ---- segments ----

  /** The non-empty pieces between slashes. */
  function Segments(s: string): (segs: Path)
    ensures forall i :: 0 <= i < |segs| ==> segs[i] != "" && '/' !in segs[i]
    decreases |s|
  {
    var i := IndexOf(s, '/');
    if i == -1 then (if s == "" then [] else [s])
    else (if i == 0 then [] else [s[..i]]) + Segments(s[i + 1..])
  }

  function Join(segs: Path): (s: string) {
    if segs == [] then "" else "/" + segs[0] + Join(segs[1..])
  }

  lemma SegmentsAt(s: string, i: nat)
    requires i < |s| && s[i] == '/' && '/' !in s[..i]
    ensures Segments(s) == (if i == 0 then [] else [s[..i]]) + Segments(s[i + 1..])
  {
    hide IndexOf;
    FirstSlash(s, i);
  }

  lemma FirstSlash(s: string, i: nat)
    requires i < |s| && s[i] == '/' && '/' !in s[..i]
    ensures IndexOf(s, '/') == i
  {
    hide IndexOf;
    assert forall k :: 0 <= k < i ==> s[k] == s[..i][k];
  }

  lemma SegmentsNone(s: string)
    requires '/' !in s
    ensures Segments(s) == if s == "" then [] else [s]
  {
    assert IndexOf(s, '/') == -1;
  }

  /** A slash anywhere separates, however many there are in a row. */
  lemma {:induction false} SegmentsAround(a: string, b: string)
    ensures Segments(a + "/" + b) == Segments(a) + Segments(b)
    decreases |a|
  {
    hide Segments, IndexOf;
    var s := a + "/" + b;
    if '/' !in a {
      assert s[..|a|] == a && s[|a|] == '/' && s[|a| + 1..] == b;
      SegmentsAt(s, |a|);
      SegmentsNone(a);
    } else {
      var i := SlashIn(a);
      assert s[..i] == a[..i] && s[i] == '/' && s[i + 1..] == a[i + 1..] + "/" + b;
      SegmentsAt(s, i);
      SegmentsAt(a, i);
      SegmentsAround(a[i + 1..], b);
    }
  }

  lemma SlashIn(s: string) returns (i: nat)
    requires '/' in s
    ensures i < |s| && s[i] == '/' && '/' !in s[..i]
  {
    i := IndexOf(s, '/');
  }

  predicate Proper(segs: Path) {
    forall i :: 0 <= i < |segs| ==> segs[i] != "" && '/' !in segs[i]
  }

  /** Any list of proper segments is the split of the path spelled from it. */
  lemma SegmentsOfJoin(segs: Path)
    requires Proper(segs)
    ensures Segments(Join(segs)) == segs
  {
    hide Segments, Proper;
    if segs == [] {
      SegmentsNone("");
    } else {
      var s := Join(segs);
      assert s[0] == '/' && s[1..] == segs[0] + Join(segs[1..]) && s[..0] == "";
      SegmentsAt(s, 0);
      ProperParts(segs);
      SegmentsAfter(segs[0], segs[1..]);
      assert [] + Segments(s[1..]) == Segments(s[1..]);
      assert [segs[0]] + segs[1..] == segs;
    }
  }

  lemma ProperParts(segs: Path)
    requires Proper(segs) && segs != []
    ensures segs[0] != "" && '/' !in segs[0] && Proper(segs[1..])
  {
  }

  lemma {:induction false} SegmentsAfter(seg: string, rest: Path)
    requires seg != "" && '/' !in seg && Proper(rest)
    ensures Segments(seg + Join(rest)) == [seg] + rest
    decreases |rest|
  {
    hide Segments, Proper;
    var s := seg + Join(rest);
    if rest == [] {
      assert s == seg;
      SegmentsNone(s);
    } else {
      assert Join(rest) == "/" + (rest[0] + Join(rest[1..]));
      assert s[|seg|] == '/' && s[..|seg|] == seg && s[|seg| + 1..] == rest[0] + Join(rest[1..]);
      SegmentsAt(s, |seg|);
      ProperParts(rest);
      SegmentsAfter(rest[0], rest[1..]);
      assert [rest[0]] + rest[1..] == rest;
    }
  }

  /** The splitting loop. */
  method Split(s: string) returns (segs: Path)
    ensures segs == Segments(s)
  {
    hide Segments;
    segs := [];
    var from := 0;
    assert s[0..] == s && [] + Segments(s) == Segments(s);
    while from <= |s|
      invariant 0 <= from <= |s| + 1
      invariant from <= |s| ==> segs + Segments(s[from..]) == Segments(s)
      invariant from == |s| + 1 ==> segs == Segments(s)
    {
      var rest := s[from..];
      var i := IndexOf(rest, '/');
      var seg := if i == -1 then rest else rest[..i];
      ghost var before := segs;
      if seg != "" {
        segs := segs + [seg];
      }
      if i == -1 {
        SegmentsNone(rest);
        from := |s| + 1;
      } else {
        SegmentsAt(rest, i);
        assert rest[i + 1..] == s[from + i + 1..];
        assert segs + Segments(rest[i + 1..]) == before + Segments(rest);
        from := from + i + 1;
      }
    }
  }

  predicate IsParam(seg: string) {
    seg != "" && seg[0] == ':'
  }

  predicate IsWildcard(seg: string) {
    seg != "" && seg[0] == '*'
  }

  // ---- what a pattern matches ----

  /** A literal matches itself, a parameter any one segment, a final wildcard the rest. */
  predicate Matches(pattern: Path, segs: Path)
    decreases |pattern|
  {
    if pattern == [] then segs == []
    else if segs == [] then false
    else if |pattern| == 1 && IsWildcard(pattern[0]) then true
    else (pattern[0] == segs[0] || IsParam(pattern[0])) && Matches(pattern[1..], segs[1..])
  }

  /** The segment of a pattern stands for the segment of a path: it is the same, or begins
      with a colon. */
  predicate StandsFor(piece: string, seg: string) {
    piece == seg || ":" <= piece
  }

  /** Segment by segment; or, when the last piece of the pattern begins with a star, up to it
      and with anything that is left, but something. */
  lemma {:induction false} MatchesExactlyWhen(pattern: Path, segs: Path)
    ensures var n := |pattern|;
            Matches(pattern, segs) <==>
              || (|segs| == n && forall i :: 0 <= i < n ==> StandsFor(pattern[i], segs[i]))
              || (0 < n <= |segs| && "*" <= pattern[n - 1]
                  && forall i :: 0 <= i < n - 1 ==> StandsFor(pattern[i], segs[i]))
    decreases |pattern|
  {
    if pattern != [] && segs != [] && !(|pattern| == 1 && IsWildcard(pattern[0])) {
      var p, s := pattern[1..], segs[1..];
      MatchesExactlyWhen(p, s);
      assert forall i :: 1 <= i < |pattern| ==> pattern[i] == p[i - 1];
      assert forall i :: 1 <= i < |segs| ==> segs[i] == s[i - 1];
      assert forall i :: 0 <= i < |p| ==> p[i] == pattern[i + 1];
      assert forall i :: 0 <= i < |s| ==> s[i] == segs[i + 1];
    }
  }

  // ---- the walk, over the set of paths in the trie ----

  datatype End = At(node: Path) | Lost

  predicate ParamAt(keys: set<Path>, p: Path, c: string) {
    p + [c] in keys && IsParam(c)
  }

  predicate WildcardAt(keys: set<Path>, p: Path, c: string) {
    p + [c] in keys && IsWildcard(c)
  }

  /** Where the walk may end: the exact child if there is one, else a parameter child, else
      a wildcard child, which swallows the rest. */
  ghost predicate Walks(keys: set<Path>, p: Path, segs: Path, e: End)
    decreases |segs|
  {
    if segs == [] then e == At(p)
    else if p + [segs[0]] in keys then Walks(keys, p + [segs[0]], segs[1..], e)
    else if exists c :: ParamAt(keys, p, c) then exists c :: ParamAt(keys, p, c) && Walks(keys, p + [c], segs[1..], e)
    else if exists c :: WildcardAt(keys, p, c) then exists c :: WildcardAt(keys, p, c) && e == At(p + [c])
    else e == Lost
  }

  /** The walk ends only at patterns that match what was walked. */
  lemma {:induction false} WalkMatches(keys: set<Path>, p: Path, segs: Path, q: Path)
    requires Walks(keys, p, segs, At(q))
    ensures p <= q && Matches(q[|p|..], segs)
    decreases |segs|
  {
    if segs == [] {
    } else if p + [segs[0]] in keys {
      WalkMatches(keys, p + [segs[0]], segs[1..], q);
      MatchesStep(p, segs[0], segs, q);
    } else if exists c :: ParamAt(keys, p, c) {
      var c :| ParamAt(keys, p, c) && Walks(keys, p + [c], segs[1..], At(q));
      WalkMatches(keys, p + [c], segs[1..], q);
      MatchesStep(p, c, segs, q);
    } else {
      var c :| WildcardAt(keys, p, c) && At(q) == At(p + [c]);
      assert q[|p|..] == [c];
    }
  }

  lemma MatchesStep(p: Path, c: string, segs: Path, q: Path)
    requires segs != [] && (c == segs[0] || IsParam(c))
    requires p + [c] <= q && Matches(q[|p| + 1..], segs[1..])
    ensures p <= q && Matches(q[|p|..], segs)
  {
    var rest := q[|p|..];
    assert q[|p|] == (p + [c])[|p|] == c;
    assert rest[0] == c && rest[1..] == q[|p| + 1..];
  }

  /** A path that is itself in the trie is walked to its own node. */
  lemma {:induction false} OwnPath(keys: set<Path>, p: Path, segs: Path, e: End)
    requires forall k :: 0 <= k <= |segs| ==> p + segs[..k] in keys
    requires Walks(keys, p, segs, e)
    ensures e == At(p + segs)
    decreases |segs|
  {
    if segs == [] {
      assert p + segs == p;
    } else {
      assert p + segs[..1] == p + [segs[0]];
      forall k | 0 <= k <= |segs[1..]| ensures p + [segs[0]] + segs[1..][..k] in keys {
        assert p + [segs[0]] + segs[1..][..k] == p + segs[..k + 1];
      }
      OwnPath(keys, p + [segs[0]], segs[1..], e);
      assert p + [segs[0]] + segs[1..] == p + segs;
    }
  }

  /** No node has two parameter children, or two wildcard children and no parameter child. */
  ghost predicate Unambiguous(keys: set<Path>) {
    && (forall p, c, d :: ParamAt(keys, p, c) && ParamAt(keys, p, d) ==> c == d)
    && (forall p, c, d :: WildcardAt(keys, p, c) && WildcardAt(keys, p, d) ==>
          c == d || exists x :: ParamAt(keys, p, x))
  }

  lemma {:induction false} WalkUnique(keys: set<Path>, p: Path, segs: Path, e: End, e': End)
    requires Unambiguous(keys) && Walks(keys, p, segs, e) && Walks(keys, p, segs, e')
    ensures e == e'
    decreases |segs|
  {
    if segs == [] {
    } else if p + [segs[0]] in keys {
      WalkUnique(keys, p + [segs[0]], segs[1..], e, e');
    } else if exists c :: ParamAt(keys, p, c) {
      var c :| ParamAt(keys, p, c) && Walks(keys, p + [c], segs[1..], e);
      var d :| ParamAt(keys, p, d) && Walks(keys, p + [d], segs[1..], e');
      WalkUnique(keys, p + [c], segs[1..], e, e');
    }
  }

  /** Every path has one walk, whatever the order of the children. */
  ghost predicate Determined(keys: set<Path>) {
    forall segs, e, e' :: Walks(keys, [], segs, e) && Walks(keys, [], segs, e') ==> e == e'
  }

  ghost predicate PrefixClosed(keys: set<Path>) {
    forall p, k :: p in keys && 0 <= k <= |p| ==> p[..k] in keys
  }

  /** The order in which children were added never matters exactly when no node is ambiguous. */
  lemma DeterminedExactlyWhen(keys: set<Path>)
    requires PrefixClosed(keys)
    ensures Determined(keys) <==> Unambiguous(keys)
  {
    if Unambiguous(keys) {
      forall segs, e, e' | Walks(keys, [], segs, e) && Walks(keys, [], segs, e') ensures e == e' {
        WalkUnique(keys, [], segs, e, e');
      }
    } else {
      var p, c, d :| p + [c] in keys && p + [d] in keys && c != d &&
        ((ParamAt(keys, p, c) && ParamAt(keys, p, d)) ||
         (WildcardAt(keys, p, c) && WildcardAt(keys, p, d) && !exists x :: ParamAt(keys, p, x)));
      var seg := UnusedSegment(keys, p);
      TwoEnds(keys, p, seg, c, d);
    }
  }

  lemma TwoEnds(keys: set<Path>, p: Path, seg: string, c: string, d: string)
    requires PrefixClosed(keys) && p + [seg] !in keys && p + [c] in keys && p + [d] in keys && c != d
    requires (ParamAt(keys, p, c) && ParamAt(keys, p, d)) ||
             (WildcardAt(keys, p, c) && WildcardAt(keys, p, d) && !exists x :: ParamAt(keys, p, x))
    ensures !Determined(keys)
  {
    assert [seg][1..] == [];
    assert Walks(keys, p + [c], [], At(p + [c])) && Walks(keys, p + [d], [], At(p + [d]));
    assert Walks(keys, p, [seg], At(p + [c])) && Walks(keys, p, [seg], At(p + [d]));
    forall k | 0 <= k <= |p| ensures [] + p[..k] in keys {
      assert [] + p[..k] == (p + [c])[..k];
    }
    assert [] + p == p;
    WalkDownTo(keys, [], p, seg, At(p + [c]));
    WalkDownTo(keys, [], p, seg, At(p + [d]));
    assert (p + [c])[|p|] != (p + [d])[|p|];
  }

  lemma {:induction false} WalkDownTo(keys: set<Path>, p: Path, rest: Path, seg: string, e: End)
    requires forall k :: 0 <= k <= |rest| ==> p + rest[..k] in keys
    requires Walks(keys, p + rest, [seg], e)
    ensures Walks(keys, p, rest + [seg], e)
    decreases |rest|
  {
    if rest == [] {
      assert p + rest == p && rest + [seg] == [seg];
    } else {
      var p' := p + [rest[0]];
      assert p + rest[..1] == p';
      forall k | 0 <= k <= |rest[1..]| ensures p' + rest[1..][..k] in keys {
        assert p' + rest[1..][..k] == p + rest[..k + 1];
      }
      assert p' + rest[1..] == p + rest;
      WalkDownTo(keys, p', rest[1..], seg, e);
      assert (rest + [seg])[1..] == rest[1..] + [seg];
    }
  }

  lemma UnusedSegment(keys: set<Path>, p: Path) returns (seg: string)
    ensures p + [seg] !in keys
  {
    var n := LongerThanAll(keys);
    seg := seq(n, _ => 'x');
    assert (p + [seg])[|p + [seg]| - 1] == seg;
  }

  lemma LongerThanAll(keys: set<Path>) returns (n: nat)
    ensures forall q :: q in keys && q != [] ==> |q[|q| - 1]| < n
    decreases |keys|
  {
    if keys == {} {
      n := 0;
    } else {
      var q :| q in keys;
      var m := LongerThanAll(keys - {q});
      n := if q != [] && m <= |q[|q| - 1]| then |q[|q| - 1]| + 1 else m;
      forall q' | q' in keys && q' != [] ensures |q'[|q'| - 1]| < n {
        if q' != q {
          assert q' in keys - {q};
        }
      }
    }
  }

  // ---- the answer ----

  type Table = map<(Path, string), Handler>

  /** A handler; 404; 405; or nothing said because nothing was ever registered. */
  datatype Outcome = Found(handler: Handler) | NotFound | NotAllowed | Unset

  /** What the node at the end of the walk has to offer. */
  ghost predicate Answers(table: Table, verb: string, e: End, r: Outcome) {
    match e
    case Lost => r == NotFound
    case At(q) =>
      if (q, verb) in table then r == Found(table[(q, verb)])
      else if exists m :: (q, m) in table then r == NotAllowed
      else r == NotFound
  }

  ghost predicate RouteResult(keys: set<Path>, table: Table, verb: string, segs: Path, r: Outcome) {
    if [] !in keys then r == Unset
    else exists e :: Walks(keys, [], segs, e) && Answers(table, verb, e, r)
  }

  /** The trie has a node for each prefix of a registered pattern and no other. */
  ghost predicate Spans(keys: set<Path>, table: Table) {
    forall p :: p in keys <==> exists k :: k in table && p <= k.0
  }

  /** Soundness: a handler that comes out is the one registered for a pattern that matches. */
  lemma RouteSound(keys: set<Path>, table: Table, verb: string, segs: Path, r: Outcome)
    requires RouteResult(keys, table, verb, segs, r) && r.Found?
    ensures exists q :: (q, verb) in table && table[(q, verb)] == r.handler && Matches(q, segs)
  {
    var e :| Walks(keys, [], segs, e) && Answers(table, verb, e, r);
    WalkMatches(keys, [], segs, e.node);
    assert e.node[0..] == e.node;
  }

  /** Completeness: whatever else is registered, a pattern is found on its own path. */
  lemma RouteComplete(keys: set<Path>, table: Table, verb: string, segs: Path, r: Outcome)
    requires Spans(keys, table) && RouteResult(keys, table, verb, segs, r) && (segs, verb) in table
    ensures r == Found(table[(segs, verb)])
  {
    assert segs <= (segs, verb).0;
    forall k | 0 <= k <= |segs| ensures [] + segs[..k] in keys {
      assert [] + segs[..k] <= (segs, verb).0;
    }
    assert [] + segs[..0] == [];
    var e :| Walks(keys, [], segs, e) && Answers(table, verb, e, r);
    OwnPath(keys, [], segs, e);
    assert [] + segs == segs;
  }

  /** A pattern on its own path is refused with 405 exactly for the verbs it does not have. */
  lemma RefusedOnOwnPath(keys: set<Path>, table: Table, verb: string, segs: Path, r: Outcome, other: string)
    requires Spans(keys, table) && RouteResult(keys, table, verb, segs, r) && (segs, other) in table
    ensures r == NotAllowed <==> (segs, verb) !in table
  {
    if (segs, verb) in table {
      RouteComplete(keys, table, verb, segs, r);
    } else {
      forall k | 0 <= k <= |segs| ensures [] + segs[..k] in keys {
        assert [] + segs[..k] <= (segs, other).0;
      }
      assert [] + segs[..0] == [];
      var e :| Walks(keys, [], segs, e) && Answers(table, verb, e, r);
      OwnPath(keys, [], segs, e);
      assert [] + segs == segs;
    }
  }

  /** 405 only where a pattern matches that has other verbs and not this one; 404 whenever no
      pattern matches; and nothing at all exactly when nothing was registered. */
  lemma RouteRefuses(keys: set<Path>, table: Table, verb: string, segs: Path, r: Outcome)
    requires Spans(keys, table) && RouteResult(keys, table, verb, segs, r)
    ensures r == NotAllowed ==>
              exists q, m :: (q, m) in table && m != verb && (q, verb) !in table && Matches(q, segs)
    ensures table != map[] && (forall k :: k in table ==> !Matches(k.0, segs)) ==> r == NotFound
    ensures r == Unset <==> table == map[]
  {
    if k :| k in table {
      assert [] <= k.0;
    }
    if [] in keys {
      var e :| Walks(keys, [], segs, e) && Answers(table, verb, e, r);
      if e.At? {
        WalkMatches(keys, [], segs, e.node);
        assert e.node[0..] == e.node;
      }
    }
  }

  /** With the same registrations in effect and no ambiguous node there is one answer,
      however the tries were built. */
  lemma RouteUnique(keys: set<Path>, keys': set<Path>, table: Table, verb: string, segs: Path, r: Outcome, r': Outcome)
    requires Spans(keys, table) && Spans(keys', table) && Unambiguous(keys)
    requires RouteResult(keys, table, verb, segs, r) && RouteResult(keys', table, verb, segs, r')
    ensures r == r'
  {
    assert keys == keys' by {
      forall p ensures p in keys <==> p in keys' {
      }
    }
    if [] in keys {
      var e :| Walks(keys, [], segs, e) && Answers(table, verb, e, r);
      var e' :| Walks(keys, [], segs, e') && Answers(table, verb, e', r');
      WalkUnique(keys, [], segs, e, e');
    }
  }

  // ---- registrations in any order ----

  datatype Registration = Registration(verb: string, pattern: string, handler: Handler)

  function Key(g: Registration): (k: (Path, string)) {
    (Segments(g.pattern), g.verb)
  }

  /** The last registration under a key counts. */
  function TableOf(regs: seq<Registration>): (t: Table) {
    if regs == [] then map[] else TableOf(regs[..|regs| - 1])[Key(regs[|regs| - 1]) := regs[|regs| - 1].handler]
  }

  predicate DistinctKeys(regs: seq<Registration>) {
    forall i, j :: 0 <= i < j < |regs| ==> Key(regs[i]) != Key(regs[j])
  }

  lemma {:induction false} TableHolds(regs: seq<Registration>, k: (Path, string), h: Handler)
    requires DistinctKeys(regs)
    ensures k in TableOf(regs) && TableOf(regs)[k] == h <==> exists g :: g in regs && Key(g) == k && g.handler == h
    decreases |regs|
  {
    if regs != [] {
      var last, rest := regs[|regs| - 1], regs[..|regs| - 1];
      TableHolds(rest, k, h);
      assert forall g :: g in regs <==> g in rest || g == last;
      assert forall g :: g in rest ==> Key(g) != Key(last);
    }
  }

  lemma SubTable(regs: seq<Registration>, regs': seq<Registration>)
    requires DistinctKeys(regs) && DistinctKeys(regs') && forall g :: g in regs ==> g in regs'
    ensures forall k :: k in TableOf(regs) ==> k in TableOf(regs') && TableOf(regs')[k] == TableOf(regs)[k]
  {
    hide TableOf, DistinctKeys;
    forall k | k in TableOf(regs) ensures k in TableOf(regs') && TableOf(regs')[k] == TableOf(regs)[k] {
      TableHolds(regs, k, TableOf(regs)[k]);
      TableHolds(regs', k, TableOf(regs)[k]);
    }
  }

  /** Registrations of distinct method and pattern may come in any order. */
  lemma OrderIndependent(regs: seq<Registration>, regs': seq<Registration>)
    requires DistinctKeys(regs) && DistinctKeys(regs') && multiset(regs) == multiset(regs')
    ensures TableOf(regs) == TableOf(regs')
  {
    hide TableOf, DistinctKeys;
    assert forall g :: g in regs <==> g in multiset(regs);
    assert forall g :: g in regs' <==> g in multiset(regs');
    SubTable(regs, regs');
    SubTable(regs', regs);
  }

  // ---- which of several children ----

  /** The children of each node, in the order they were added. */
  type Layout = map<Path, seq<string>>

  /** The first parameter among them, or nothing. */
  function FirstParam(kids: seq<string>): (c: string)
    ensures c != "" ==> IsParam(c) && c in kids
    ensures c == "" <==> forall d :: d in kids ==> !IsParam(d)
  {
    if kids == [] then "" else if IsParam(kids[0]) then kids[0] else FirstParam(kids[1..])
  }

  /** The first wildcard among them, or nothing. */
  function FirstWildcard(kids: seq<string>): (c: string)
    ensures c != "" ==> IsWildcard(c) && c in kids
    ensures c == "" <==> forall d :: d in kids ==> !IsWildcard(d)
  {
    if kids == [] then "" else if IsWildcard(kids[0]) then kids[0] else FirstWildcard(kids[1..])
  }

  /** Where the walk ends: of several parameters, or of several wildcards, the one added first
      is taken. */
  function WalkIn(kids: Layout, p: Path, segs: Path): (e: End)
    decreases |segs|
  {
    if segs == [] then At(p)
    else if p !in kids then Lost
    else if segs[0] in kids[p] then WalkIn(kids, p + [segs[0]], segs[1..])
    else if FirstParam(kids[p]) != "" then WalkIn(kids, p + [FirstParam(kids[p])], segs[1..])
    else if FirstWildcard(kids[p]) != "" then At(p + [FirstWildcard(kids[p])])
    else Lost
  }

  ghost predicate LaidOut(kids: Layout, keys: set<Path>) {
    kids.Keys == keys && forall p, c :: p in kids ==> (c in kids[p] <==> p + [c] in keys)
  }

  lemma AmongKids(kids: Layout, keys: set<Path>, p: Path)
    requires LaidOut(kids, keys) && p in kids
    ensures FirstParam(kids[p]) == "" ==> !exists c :: ParamAt(keys, p, c)
    ensures FirstWildcard(kids[p]) == "" ==> !exists c :: WildcardAt(keys, p, c)
  {
    hide FirstParam, FirstWildcard;
  }

  /** The walk that is taken is one of those the set of paths allows. */
  lemma {:induction false} WalkInWalks(kids: Layout, keys: set<Path>, p: Path, segs: Path)
    requires LaidOut(kids, keys) && p in keys
    ensures Walks(keys, p, segs, WalkIn(kids, p, segs))
    decreases |segs|
  {
    if segs != [] {
      if segs[0] in kids[p] {
        WalkInWalks(kids, keys, p + [segs[0]], segs[1..]);
      } else if FirstParam(kids[p]) != "" {
        assert ParamAt(keys, p, FirstParam(kids[p]));
        WalkInWalks(kids, keys, p + [FirstParam(kids[p])], segs[1..]);
      } else {
        AmongKids(kids, keys, p);
        if FirstWildcard(kids[p]) != "" {
          assert WildcardAt(keys, p, FirstWildcard(kids[p]));
        }
      }
    }
  }

  /** One child more, behind its siblings, unless it is there. */
  function Sprout(kids: Layout, p: Path, seg: string): (r: Layout)
    requires p in kids
    ensures p + [seg] in r
  {
    if p + [seg] in kids then kids else kids[p := kids[p] + [seg]][p + [seg] := []]
  }

  /** The layout with nodes for the first `i` segments of a pattern. */
  function GrowTo(kids: Layout, segs: Path, i: nat): (r: Layout)
    requires i <= |segs|
    ensures segs[..i] in r
    decreases i
  {
    if i == 0 then (if [] in kids then kids else kids[[] := []])
    else
      assert segs[..i - 1] + [segs[i - 1]] == segs[..i];
      Sprout(GrowTo(kids, segs, i - 1), segs[..i - 1], segs[i - 1])
  }

  function Grow(kids: Layout, segs: Path): (r: Layout) {
    GrowTo(kids, segs, |segs|)
  }

  // ---- no way back ----

  /** Each step of the pattern `q` is the one taken there: the literal if there is a node for
      it, else the first parameter, else, as the last step, the first wildcard. */
  predicate Follows(kids: Layout, p: Path, q: Path, segs: Path)
    decreases |q|
  {
    if q == [] then segs == []
    else
      && segs != [] && p in kids
      && if q[0] == segs[0] && q[0] in kids[p] then Follows(kids, p + [q[0]], q[1..], segs[1..])
         else
           && segs[0] !in kids[p]
           && if IsParam(q[0]) then q[0] == FirstParam(kids[p]) && Follows(kids, p + [q[0]], q[1..], segs[1..])
              else FirstParam(kids[p]) == "" && q[0] != "" && q == [FirstWildcard(kids[p])]
  }

  /** A pattern is the one found if and only if the walk follows it: a literal, or a parameter,
      once taken is never given back. */
  lemma {:induction false} FoundExactlyWhen(kids: Layout, p: Path, q: Path, segs: Path)
    ensures WalkIn(kids, p, segs) == At(p + q) <==> Follows(kids, p, q, segs)
    decreases |segs|
  {
    if segs == [] {
      assert p + q == p <==> q == [];
    } else if p in kids {
      var c := if segs[0] in kids[p] then segs[0] else FirstParam(kids[p]);
      if segs[0] in kids[p] || c != "" {
        StepsOn(kids, p, c, q, segs[1..]);
        if q != [] {
          FoundExactlyWhen(kids, p + [c], q[1..], segs[1..]);
        }
      } else {
        assert p + q == p + [FirstWildcard(kids[p])] <==> q == [FirstWildcard(kids[p])] by {
          if p + q == p + [FirstWildcard(kids[p])] {
            assert q == (p + q)[|p|..] == (p + [FirstWildcard(kids[p])])[|p|..];
          }
        }
      }
    }
  }

  /** The walk never leaves the subtree it has entered. */
  lemma {:induction false} WalksDown(kids: Layout, p: Path, segs: Path)
    ensures WalkIn(kids, p, segs).At? ==> p <= WalkIn(kids, p, segs).node
    decreases |segs|
  {
    if segs != [] && p in kids {
      if segs[0] in kids[p] {
        WalksDown(kids, p + [segs[0]], segs[1..]);
      } else if FirstParam(kids[p]) != "" {
        WalksDown(kids, p + [FirstParam(kids[p])], segs[1..]);
      }
    }
  }

  lemma StepsOn(kids: Layout, p: Path, c: string, q: Path, segs: Path)
    ensures WalkIn(kids, p + [c], segs) == At(p + q) ==> q != [] && q[0] == c
    ensures q != [] && q[0] == c ==> p + q == p + [c] + q[1..]
  {
    WalksDown(kids, p + [c], segs);
    if WalkIn(kids, p + [c], segs) == At(p + q) {
      assert (p + q)[|p|] == (p + [c])[|p|] == c;
    }
  }

  /** With `/a/b` and `/:x/c` registered, `/a/c` is lost, although the second pattern matches
      it: the walk has gone to `a` and does not come back. */
  lemma NoWayBack(keys: set<Path>, e: End)
    requires keys == {[], ["a"], ["a", "b"], [":x"], [":x", "c"]}
    requires Walks(keys, [], ["a", "c"], e)
    ensures e == Lost && Matches([":x", "c"], ["a", "c"])
  {
    assert ["a", "c"][1..] == ["c"] && [] + ["a"] == ["a"] && ["c"][1..] == [];
    assert Walks(keys, ["a"], ["c"], e);
    forall c ensures !ParamAt(keys, ["a"], c) && !WildcardAt(keys, ["a"], c) {
      assert ["a"] + [c] == ["a", c];
      assert ["a", c] in keys ==> ["a", c][1] == "b";
    }
    assert ["a"] + ["c"] == ["a", "c"] && ["a", "c"][1] != "b" && ["a", "c"][0] != ":x";
    assert [":x", "c"][1..] == ["c"];
    assert Matches(["c"], ["c"]);
  }
}
