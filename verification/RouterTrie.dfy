/** The router as it is built and walked: nodes linked to their children. */
module Trie {
  import opened Routing

  class Node {
    const segment: string
    const isParam: bool
    const isWildcard: bool
    var handlers: map<string, Handler>
    var children: seq<Node>
    ghost const path: Path  // from the root

    constructor (segment: string, ghost path: Path)
      ensures this.segment == segment && this.path == path
      ensures isParam == IsParam(segment) && isWildcard == IsWildcard(segment)
      ensures handlers == map[] && children == []
    {
      this.segment, this.path := segment, path;
      isParam := segment != "" && segment[0] == ':';
      isWildcard := segment != "" && segment[0] == '*';
      handlers, children := map[], [];
    }

    ghost predicate Ok(p: Path) {
      path == p && isParam == IsParam(segment) && isWildcard == IsWildcard(segment)
      && (p != [] ==> segment == p[|p| - 1])
    }
  }

  /** The segments of the children, in order. */
  function Names(children: seq<Node>): (names: seq<string>)
    ensures |names| == |children|
    ensures forall i :: 0 <= i < |names| ==> names[i] == children[i].segment
  {
    if children == [] then [] else [children[0].segment] + Names(children[1..])
  }

  lemma NamesAppend(children: seq<Node>, child: Node)
    ensures Names(children + [child]) == Names(children) + [child.segment]
  {
  }

  function Front(p: Path): (q: Path)
    requires p != []
  {
    p[..|p| - 1]
  }

  lemma FrontOf(p: Path, seg: string)
    ensures Front(p + [seg]) == p
  {
  }

  class Router {
    var root: Node?

    ghost var at: map<Path, Node>  // the node of each path
    ghost var kids: Layout         // the segments of each node's children
    ghost var table: Table         // the registrations in effect
    ghost var Repr: set<object>

    ghost predicate Rooted()
      reads this
    {
      && this in Repr
      && (root == null <==> at == map[])
      && (root != null ==> [] in at && at[[]] == root)
      && (forall p :: p in at ==> at[p] in Repr && at[p] as object != this && at[p].Ok(p))
    }

    /** Every child listed is the node one segment further, and is listed once. */
    ghost predicate Down()
      reads this, at.Values
    {
      && (forall p, i :: p in at && 0 <= i < |at[p].children| ==> Leads(p, at[p].children[i]))
      && (forall p, i, j :: p in at && 0 <= i < j < |at[p].children| ==>
            at[p].children[i].segment != at[p].children[j].segment)
    }

    ghost predicate Leads(p: Path, child: Node)
      reads this
    {
      p + [child.segment] in at && at[p + [child.segment]] == child
    }

    /** Every node but the root is listed by its parent. */
    ghost predicate Up()
      reads this, at.Values
    {
      forall q :: q in at && q != [] ==> Front(q) in at && at[q] in at[Front(q)].children
    }

    /** `kids` has the children of each node, in the order they were added. */
    ghost predicate Named()
      reads this, at.Values
    {
      kids.Keys == at.Keys && forall p :: p in at ==> kids[p] == Names(at[p].children)
    }

    ghost predicate Linked()
      reads this, at.Values
    {
      Rooted() && Down() && Up() && Named()
    }

    /** The handlers stored at the nodes are the registrations. */
    ghost predicate Tabled()
      reads this, at.Values
    {
      && (forall p, m :: p in at ==> (m in at[p].handlers <==> (p, m) in table))
      && (forall p, m :: p in at && m in at[p].handlers ==> at[p].handlers[m] == table[(p, m)])
      && (forall k :: k in table ==> k.0 in at)
    }

    ghost predicate Valid()
      reads this, at.Values
      ensures Valid() ==> this in Repr
    {
      Linked() && Tabled() && Spans(at.Keys, table)
    }

    constructor ()
      ensures Valid() && fresh(Repr) && table == map[]
    {
      hide *;
      root, at, kids, table := null, map[], map[], map[];
      Repr := {this};
      new;
      NothingRegistered();
    }

    lemma NothingRegistered()
      requires root == null && at == map[] && kids == map[] && table == map[] && this in Repr
      ensures Valid()
    {
    }

    /** The child for exactly this segment, if there is one. */
    method FindExact(node: Node, seg: string, ghost p: Path) returns (child: Node?)
      requires Linked() && p in at && node == at[p]
      ensures child == null <==> p + [seg] !in at
      ensures child != null ==> child == at[p + [seg]]
    {
      hide *;
      var i := 0;
      while i < |node.children|
        invariant 0 <= i <= |node.children|
        invariant forall k :: 0 <= k < i ==> node.children[k].segment != seg
      {
        if node.children[i].segment == seg {
          ChildLeads(p, node.children[i]);
          return node.children[i];
        }
        i := i + 1;
      }
      NotListed(p, seg);
      child := null;
    }

    lemma NotListed(p: Path, seg: string)
      requires Linked() && p in at && forall k :: 0 <= k < |at[p].children| ==> at[p].children[k].segment != seg
      ensures p + [seg] !in at
    {
      hide Linked;
      if p + [seg] in at {
        IsListed(p, seg);
      }
    }

    lemma IsListed(p: Path, seg: string)
      requires Linked() && p in at && p + [seg] in at
      ensures exists i :: 0 <= i < |at[p].children| && at[p].children[i] == at[p + [seg]]
      ensures at[p + [seg]].segment == seg
    {
      FrontOf(p, seg);
      assert at[p + [seg]].Ok(p + [seg]);
    }

    /** Hang a new child under a node that has none for this segment. */
    method AddChild(node: Node, seg: string, ghost p: Path) returns (child: Node)
      requires Linked() && Tabled() && p in at && node == at[p] && p + [seg] !in at
      modifies Repr
      ensures Linked() && Tabled() && fresh(Repr - old(Repr)) && root == old(root) && table == old(table)
      ensures at == old(at)[p + [seg] := child] && fresh(child)
      ensures p in old(kids) && kids == old(kids)[p := old(kids)[p] + [seg]][p + [seg] := []]
    {
      hide Linked, Rooted, Down, Up, Tabled, Named, Names;
      KidsOf(p);
      NodeIn(p);
      OwnNode(p);
      child := new Node(seg, p + [seg]);
      node.children := node.children + [child];
      at := at[p + [seg] := child];
      kids := kids[p := kids[p] + [seg]][p + [seg] := []];
      Repr := Repr + {child};
      GrownKeeps(p, seg, child);
    }

    twostate lemma GrownKids(new p: Path, new seg: string, new child: Node)
      requires old(Rooted()) && old(Named()) && Grown(p, seg, child)
      ensures Named()
    {
      hide Names;
      NamesAppend(old(at[p].children), child);
      NamesNone();
      forall q | q in at ensures kids[q] == Names(at[q].children) {
        if q != p + [seg] {
          assert q in old(at) && old(kids)[q] == Names(old(at[q].children));
        }
      }
    }

    twostate lemma GrownKeeps(new p: Path, new seg: string, new child: Node)
      requires old(Linked()) && old(Tabled()) && Grown(p, seg, child)
      ensures Linked() && Tabled()
    {
      hide Down, Up, Tabled, Named;
      GrownKids(p, seg, child);
      GrownDown(p, seg, child);
      GrownUp(p, seg, child);
      GrownTabled(p, seg, child);
    }

    /** One node more, listed last by its parent; nothing else is different. */
    twostate predicate Grown(new p: Path, new seg: string, new child: Node)
      reads this, at.Values, child
    {
      && p in old(at) && p + [seg] !in old(at)
      && root == old(root) && Repr == old(Repr) + {child} && child as object != this
      && child.path == p + [seg] && child.isParam == IsParam(seg) && child.isWildcard == IsWildcard(seg)
      && at == old(at)[p + [seg] := child] && table == old(table)
      && p in old(kids) && kids == old(kids)[p := old(kids)[p] + [seg]][p + [seg] := []]
      && at[p].children == old(at[p].children) + [child] && at[p].handlers == old(at[p].handlers)
      && (forall q :: q in old(at) && q != p ==> unchanged(at[q]))
      && child.segment == seg && child.children == [] && child.handlers == map[]
    }

    twostate lemma GrownDown(new p: Path, new seg: string, new child: Node)
      requires old(Rooted()) && old(Down()) && Grown(p, seg, child)
      ensures Rooted() && Down()
    {
      forall q, i | q in at && 0 <= i < |at[q].children| ensures Leads(q, at[q].children[i]) {
        if q != p + [seg] {
          assert q in old(at);
          if q != p || i < |old(at[p].children)| {
            assert old(Leads(q, at[q].children[i]));
          }
        }
      }
      forall i | 0 <= i < |old(at[p].children)| ensures old(at[p].children)[i].segment != seg {
        assert old(Leads(p, at[p].children[i]));
      }
    }

    twostate lemma GrownUp(new p: Path, new seg: string, new child: Node)
      requires old(Rooted()) && old(Up()) && Grown(p, seg, child)
      ensures Rooted() && Up()
    {
      FrontOf(p, seg);
      forall q | q in at && q != [] ensures Front(q) in at && at[q] in at[Front(q)].children {
        if q != p + [seg] {
          assert q in old(at) && Front(q) in old(at);
          assert old(at[q]) in old(at[Front(q)].children);
        }
      }
    }

    twostate lemma GrownTabled(new p: Path, new seg: string, new child: Node)
      requires old(Rooted()) && old(Tabled()) && Grown(p, seg, child)
      ensures Rooted() && Tabled()
    {
      assert forall k :: k in table ==> k.0 in old(at);
      forall q, m | q in at ensures m in at[q].handlers <==> (q, m) in table {
        if q != p + [seg] {
          assert q in old(at);
          assert m in old(at[q].handlers) <==> (q, m) in old(table);
        }
      }
    }

    method EnsureRoot()
      requires Valid()
      modifies this
      ensures Linked() && Tabled() && fresh(Repr - old(Repr)) && root != null && table == old(table)
      ensures at.Keys == old(at.Keys) + {[]}
      ensures kids == GrowTo(old(kids), [], 0)
    {
      hide *;
      OpenValid();
      KidsKeys();
      GrowsRoot(kids);
      if root == null {
        Bare();
        root := new Node("", []);
        at, kids := map[[] := root], map[[] := []];
        Repr := Repr + {root};
        OnlyRoot();
      } else {
        RootAt();
      }
    }

    lemma Bare()
      requires Valid() && root == null
      ensures at == map[] && kids == map[] && table == map[]
    {
      hide Names, Down, Up, Spans;
    }

    lemma OnlyRoot()
      requires root != null && at == map[[] := root] && kids == map[[] := []] && table == map[]
      requires root.path == [] && root.isParam == IsParam(root.segment) && root.isWildcard == IsWildcard(root.segment)
      requires root.children == [] && root.handlers == map[]
      requires this in Repr && root in Repr && root as object != this
      ensures Linked() && Tabled()
    {
      hide Names;
      NamesNone();
      assert [] in at && root.Ok([]);
      assert Rooted() && Down() && Up() && Named();
    }

    method SetHandler(node: Node, verb: string, handler: Handler, ghost p: Path)
      requires Linked() && Tabled() && p in at && node == at[p]
      modifies node`handlers, this`table
      ensures Linked() && Tabled() && table == old(table)[(p, verb) := handler] && kids == old(kids)
    {
      hide *;
      OwnNode(p);
      node.handlers := node.handlers[verb := handler];
      table := table[(p, verb) := handler];
      HandlerLinks();
      HandlerTable(verb, handler, p);
    }

    /** No two paths share a node. */
    lemma OwnNode(p: Path)
      requires Linked() && p in at
      ensures Rooted() && this in Repr && forall q :: q in at && q != p ==> at[q] != at[p]
    {
      hide Down, Up, Named;
    }

    twostate lemma HandlerLinks()
      requires old(Linked()) && at == old(at) && Repr == old(Repr) && root == old(root) && kids == old(kids)
      requires forall q :: q in at ==> at[q].children == old(at[q].children)
      ensures Linked()
    {
      forall q, i | q in at && 0 <= i < |at[q].children| ensures Leads(q, at[q].children[i]) {
        assert old(Leads(q, at[q].children[i]));
      }
    }

    twostate lemma HandlerTable(new verb: string, new handler: Handler, new p: Path)
      requires old(Rooted()) && old(Tabled()) && at == old(at) && p in at && table == old(table)[(p, verb) := handler]
      requires at[p].handlers == old(at[p].handlers)[verb := handler]
      requires forall q :: q in at && q != p ==> at[q].handlers == old(at[q].handlers)
      ensures Tabled()
    {
    }

    /** Register a handler: the table gains, or replaces, exactly this entry, and the nodes that
        were missing go behind their siblings. */
    method Add(verb: string, pattern: string, handler: Handler)
      requires Valid()
      modifies Repr
      ensures Valid() && fresh(Repr - old(Repr))
      ensures table == old(table)[(Segments(pattern), verb) := handler]
      ensures kids == Grow(old(kids), Segments(pattern))
    {
      hide *;
      OpenValid();
      KidsKeys();
      EnsureRoot();
      var segs := Split(pattern);
      var node := root;
      var i := 0;
      ghost var p: Path := [];
      GrowStart(old(kids), segs);
      RootAt();
      assert segs[..0] == [];
      while i < |segs|
        invariant 0 <= i <= |segs| && p == segs[..i]
        invariant Linked() && Tabled() && fresh(Repr - old(Repr)) && table == old(table)
        invariant p in at && node == at[p] && kids == GrowTo(old(kids), segs, i)
      {
        assert segs[..i + 1] == p + [segs[i]];
        GrowMore(old(kids), segs, i);
        node := FindOrAdd(node, segs[i], p);
        p := p + [segs[i]];
        i := i + 1;
      }
      assert p == segs;
      NodeIn(segs);
      KidsKeys();
      GrowKeys(old(kids), segs, |segs|);
      SpansMore(old(at.Keys), old(table), segs, verb, handler);
      GrowIs(old(kids), segs);
      SetHandler(node, verb, handler, segs);
      CloseValid();
    }

    /** The child for a segment, hung behind its siblings if it is missing. */
    method FindOrAdd(node: Node, seg: string, ghost p: Path) returns (child: Node)
      requires Linked() && Tabled() && p in at && node == at[p]
      modifies Repr
      ensures Linked() && Tabled() && fresh(Repr - old(Repr)) && root == old(root) && table == old(table)
      ensures p + [seg] in at && child == at[p + [seg]]
      ensures kids == Sprout(old(kids), p, seg)
    {
      hide *;
      KidsKeys();
      SproutIs(kids, p, seg);
      var found := FindExact(node, seg, p);
      if found != null {
        return found;
      }
      child := AddChild(node, seg, p);
    }

    lemma KidsKeys()
      requires Linked()
      ensures kids.Keys == at.Keys && this in Repr
    {
    }

    lemma CloseValid()
      requires Linked() && Tabled() && Spans(at.Keys, table)
      ensures Valid()
    {
    }

    lemma RootAt()
      requires Linked() && root != null
      ensures [] in at && at[[]] == root
    {
    }

    lemma Rootless()
      requires Linked() && root == null
      ensures [] !in at
    {
    }

    lemma NodeIn(p: Path)
      requires Linked() && p in at
      ensures at[p] in Repr && at[p] as object != this
    {
    }

    lemma KidsFlagged(p: Path)
      requires Linked() && p in at
      ensures forall k :: 0 <= k < |at[p].children| ==> Flagged(at[p].children[k])
    {
      forall k | 0 <= k < |at[p].children| ensures Flagged(at[p].children[k]) {
        assert Leads(p, at[p].children[k]);
        assert at[p].children[k].Ok(p + [at[p].children[k].segment]);
      }
    }

    lemma ChildLeads(p: Path, child: Node)
      requires Linked() && p in at && child in at[p].children
      ensures p + [child.segment] in at && at[p + [child.segment]] == child
    {
      var i :| 0 <= i < |at[p].children| && at[p].children[i] == child;
      assert Leads(p, at[p].children[i]);
    }

    /** Walk the trie along the path and ask the node at the end; of several parameters or
        wildcards the one added first is taken. */
    method Route(verb: string, path: string) returns (r: Outcome)
      requires Valid()
      ensures RouteResult(at.Keys, table, verb, Segments(path), r)
      ensures if [] !in at then r == Unset else Answers(table, verb, WalkIn(kids, [], Segments(path)), r)
    {
      hide *;
      OpenValid();
      if root == null {
        Rootless();
        NothingYet(at.Keys, table, verb, Segments(path));
        return Unset;
      }
      RootAt();
      var segs := Split(path);
      OneOfTheWalks(verb, segs);
      var node, p := Descend(segs);
      if node == null {
        AnswerLost(table, verb);
        return NotFound;
      }
      r := Ask(node, verb, p);
    }

    /** The walk, from the root down. */
    method Descend(segs: Path) returns (node: Node?, ghost p: Path)
      requires Linked() && root != null
      ensures node != null ==> p in at && node == at[p]
      ensures WalkIn(kids, [], segs) == if node == null then Lost else At(p)
    {
      hide *;
      RootAt();
      node, p := root, [];
      var i := 0;
      ghost var rest := segs;
      assert segs[0..] == segs;
      while i < |segs|
        invariant 0 <= i <= |segs| && Linked() && node != null && p in at && node == at[p]
        invariant rest == segs[i..] && WalkIn(kids, p, rest) == WalkIn(kids, [], segs)
      {
        var stop;
        node, stop, p := StepDown(node, segs[i], p, rest);
        if node == null || stop {
          return;
        }
        rest := rest[1..];
        i := i + 1;
      }
      WalkOver(kids, p);
    }

    /** One step of the walk: to the exact child, else to the first parameter, else, and for
        good, to the first wildcard. */
    method StepDown(node: Node, seg: string, ghost p: Path, ghost rest: Path)
        returns (next: Node?, stop: bool, ghost q: Path)
      requires Linked() && p in at && node == at[p] && rest != [] && rest[0] == seg
      ensures next != null ==> q in at && next == at[q]
      ensures WalkIn(kids, p, rest) ==
              if next == null then Lost else if stop then At(q) else WalkIn(kids, q, rest[1..])
    {
      hide *;
      KidsOf(p);
      KidsFlagged(p);
      WalkOn(kids, p, rest);
      var exact, param, wildcard := Scan(node.children, seg);
      if exact != null {
        ChildLeads(p, exact);
        return exact, false, p + [seg];
      } else if param != null {
        ChildLeads(p, param);
        return param, false, p + [param.segment];
      } else if wildcard != null {
        ChildLeads(p, wildcard);
        return wildcard, true, p + [wildcard.segment];
      }
      return null, true, p;
    }

    lemma OneOfTheWalks(verb: string, segs: Path)
      requires Linked() && [] in at
      ensures forall r :: Answers(table, verb, WalkIn(kids, [], segs), r) ==> RouteResult(at.Keys, table, verb, segs, r)
    {
      hide *;
      KidsLaidOut();
      WalkInWalks(kids, at.Keys, [], segs);
      ItsAnswer(at.Keys, table, verb, segs, WalkIn(kids, [], segs));
    }

    lemma OpenValid()
      requires Valid()
      ensures Linked() && Tabled() && Spans(at.Keys, table)
    {
    }

    lemma KidsOf(p: Path)
      requires Linked() && p in at
      ensures p in kids && kids[p] == Names(at[p].children)
    {
    }

    lemma KidsLaidOut()
      requires Linked()
      ensures LaidOut(kids, at.Keys)
    {
      hide Names;
      forall p, c | p in at ensures c in kids[p] <==> p + [c] in at {
        if p + [c] in at {
          IsListed(p, c);
          var i :| 0 <= i < |at[p].children| && at[p].children[i] == at[p + [c]];
          assert kids[p][i] == c;
        }
        if c in kids[p] {
          var i :| 0 <= i < |kids[p]| && kids[p][i] == c;
          assert Leads(p, at[p].children[i]);
        }
      }
    }

    /** What the node at the end of the walk answers. */
    method Ask(node: Node, verb: string, ghost p: Path) returns (r: Outcome)
      requires Linked() && Tabled() && p in at && node == at[p]
      ensures Answers(table, verb, At(p), r)
    {
      hide Linked;
      if verb in node.handlers {
        return Found(node.handlers[verb]);
      }
      if node.handlers != map[] {
        ghost var m :| m in node.handlers;
        assert (p, m) in table;
        return NotAllowed;
      }
      return NotFound;
    }
  }

  // ---- one step of the walk ----

  /** The exact child, the first parameter child and the first wildcard child. */
  method Scan(children: seq<Node>, seg: string) returns (exact: Node?, param: Node?, wildcard: Node?)
    requires forall k :: 0 <= k < |children| ==> Flagged(children[k])
    ensures exact == null <==> seg !in Names(children)
    ensures exact != null ==> exact in children && exact.segment == seg
    ensures exact == null ==> FirstParam(Names(children)) == if param == null then "" else param.segment
    ensures exact == null ==> FirstWildcard(Names(children)) == if wildcard == null then "" else wildcard.segment
    ensures param != null ==> param in children && param.segment != ""
    ensures wildcard != null ==> wildcard in children && wildcard.segment != ""
  {
    hide Names;
    exact, param, wildcard := null, null, null;
    var i := 0;
    assert children[0..] == children;
    while i < |children|
      invariant 0 <= i <= |children|
      invariant forall k :: 0 <= k < i ==> children[k].segment != seg
      invariant param != null ==> param in children && param.segment != ""
      invariant wildcard != null ==> wildcard in children && wildcard.segment != ""
      invariant FirstParam(Names(children)) == if param == null then FirstParam(Names(children[i..])) else param.segment
      invariant FirstWildcard(Names(children))
             == if wildcard == null then FirstWildcard(Names(children[i..])) else wildcard.segment
    {
      var child := children[i];
      if child.segment == seg {
        assert Names(children)[i] == seg;
        return child, param, wildcard;
      }
      FirstNext(children, i);
      if child.isParam && param == null {
        param := child;
      }
      if child.isWildcard && wildcard == null {
        wildcard := child;
      }
      i := i + 1;
    }
    assert children[i..] == [];
    NamesNone();
  }

  /** The flags of a node are those of its segment. */
  predicate Flagged(child: Node) {
    child.isParam == IsParam(child.segment) && child.isWildcard == IsWildcard(child.segment)
  }

  lemma NamesNone()
    ensures Names([]) == [] && FirstParam([]) == "" && FirstWildcard([]) == ""
  {
  }

  lemma FirstNext(children: seq<Node>, i: nat)
    requires i < |children|
    ensures var names, seg := Names(children[i..]), children[i].segment;
            && FirstParam(names) == (if IsParam(seg) then seg else FirstParam(Names(children[i + 1..])))
            && FirstWildcard(names) == (if IsWildcard(seg) then seg else FirstWildcard(Names(children[i + 1..])))
  {
    assert children[i..][1..] == children[i + 1..];
    assert Names(children[i..])[1..] == Names(children[i + 1..]);
  }

  lemma NothingYet(keys: set<Path>, table: Table, verb: string, segs: Path)
    requires [] !in keys
    ensures RouteResult(keys, table, verb, segs, Unset)
  {
  }

  lemma ItsAnswer(keys: set<Path>, table: Table, verb: string, segs: Path, e: End)
    requires [] in keys && Walks(keys, [], segs, e)
    ensures forall r :: Answers(table, verb, e, r) ==> RouteResult(keys, table, verb, segs, r)
  {
    hide Walks, Answers;
  }

  lemma WalkOn(kids: Layout, p: Path, segs: Path)
    requires p in kids
    ensures WalkIn(kids, p, segs) ==
            if segs == [] then At(p)
            else if segs[0] in kids[p] then WalkIn(kids, p + [segs[0]], segs[1..])
            else if FirstParam(kids[p]) != "" then WalkIn(kids, p + [FirstParam(kids[p])], segs[1..])
            else if FirstWildcard(kids[p]) != "" then At(p + [FirstWildcard(kids[p])])
            else Lost
  {
  }

  lemma WalkOver(kids: Layout, p: Path)
    ensures WalkIn(kids, p, []) == At(p)
  {
  }

  lemma GrowStart(kids: Layout, segs: Path)
    ensures GrowTo(kids, segs, 0) == GrowTo(kids, [], 0)
  {
  }

  lemma GrowsRoot(kids: Layout)
    ensures GrowTo(kids, [], 0) == if [] in kids then kids else kids[[] := []]
  {
  }

  lemma GrowIs(kids: Layout, segs: Path)
    ensures Grow(kids, segs) == GrowTo(kids, segs, |segs|)
  {
  }

  lemma SproutIs(kids: Layout, p: Path, seg: string)
    requires p in kids
    ensures Sprout(kids, p, seg) ==
            if p + [seg] in kids then kids else kids[p := kids[p] + [seg]][p + [seg] := []]
  {
  }

  lemma GrowMore(kids: Layout, segs: Path, i: nat)
    requires i < |segs|
    ensures segs[..i] in GrowTo(kids, segs, i)
    ensures GrowTo(kids, segs, i + 1) == Sprout(GrowTo(kids, segs, i), segs[..i], segs[i])
  {
  }

  /** Growing adds a node for each prefix. */
  lemma {:induction false} GrowKeys(kids: Layout, segs: Path, i: nat)
    requires i <= |segs|
    ensures GrowTo(kids, segs, i).Keys == kids.Keys + {[]} + Prefixes(segs, i)
    decreases i
  {
    if i > 0 {
      GrowKeys(kids, segs, i - 1);
      MorePrefixes(segs, i - 1);
      assert segs[..i - 1] + [segs[i - 1]] == segs[..i];
    } else {
      assert segs[..0] == [];
      assert Prefixes(segs, 0) == {[]};
    }
  }

  lemma AnswerLost(table: Table, verb: string)
    ensures Answers(table, verb, Lost, NotFound)
  {
  }

  // ---- the paths a registration adds ----

  function Prefixes(segs: Path, i: nat): (s: set<Path>)
    requires i <= |segs|
  {
    set k | 0 <= k <= i :: segs[..k]
  }

  lemma MorePrefixes(segs: Path, i: nat)
    requires i < |segs|
    ensures Prefixes(segs, i + 1) == Prefixes(segs, i) + {segs[..i + 1]}
  {
  }

  lemma SpansMore(keys: set<Path>, table: Table, segs: Path, verb: string, handler: Handler)
    requires Spans(keys, table)
    ensures Spans(keys + {[]} + Prefixes(segs, |segs|), table[(segs, verb) := handler])
  {
    var keys', table' := keys + {[]} + Prefixes(segs, |segs|), table[(segs, verb) := handler];
    forall p ensures p in keys' <==> exists k :: k in table' && p <= k.0 {
      if p in keys' {
        if p in keys {
          var k :| k in table && p <= k.0;
          assert k in table' && p <= k.0;
        } else {
          assert p <= (segs, verb).0;
          assert (segs, verb) in table' && p <= (segs, verb).0;
        }
      }
      if k :| k in table' && p <= k.0 {
        if k == (segs, verb) {
          assert p == segs[..|p|];
        } else {
          assert k in table;
        }
      }
    }
  }
}
