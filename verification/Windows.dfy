/** What `parse` makes of bytes it sees only one block at a time: the rounds of its loop over
    the first readable block, and when they get as far as the bytes allow. */
module Windows {
  import opened Text
  import opened ParserSpec
  import opened ChainBuffer

  // ---- one call on the bytes in view ----

  /** Steps as far as one call goes: to the end of the phase, or until more is needed. */
  function PhaseRun(p: Parser, w: string, mem: Memory): (c: Config)
    ensures |c.unread| <= |w|
    decreases |w|
  {
    match Step(p, w, mem(|w|))
    case Wait => Config(p, w)
    case Go(q, n) => if q.phase == p.phase then PhaseRun(q, w[n..], mem) else Config(q, w[n..])
  }

  lemma {:induction false} PhaseSuffix(p: Parser, w: string, mem: Memory)
    ensures Suffix(PhaseRun(p, w, mem).unread, w)
    decreases |w|
  {
    hide Step, Suffix;
    var m := Step(p, w, mem(|w|));
    SuffixSelf(w);
    if m.Go? {
      SuffixDrop(w, m.consumed);
      if m.parser.phase == p.phase {
        PhaseSuffix(m.parser, w[m.consumed..], mem);
        SuffixOf(PhaseRun(p, w, mem).unread, w[m.consumed..], w);
      }
    }
  }

  /** What a call leaves of the window, and of everything. */
  lemma CallLeaves(p: Parser, w: string, rest: string, mem: Memory)
    ensures var c := PhaseRun(p, w, mem);
            var n := |w| - |c.unread|;
            && c.unread == w[n..] && c.unread + rest == (w + rest)[n..]
            && (n == 0 ==> c.unread == w) && (n == |w| ==> c.unread == "")
  {
    hide PhaseRun, Suffix;
    PhaseSuffix(p, w, mem);
    SuffixIs(PhaseRun(p, w, mem).unread, w);
  }

  lemma WaitAnyMemory(p: Parser, w: string, behind: string)
    ensures Step(p, w, behind).Wait? <==> Step(p, w).Wait?
  {
  }

  lemma WaitsOnNothing(p: Parser, w: string, behind: string)
    requires Step(p, w, behind).Go? && Step(p, w, behind).parser.phase == p.phase
    ensures var q := Step(p, w, behind).parser; Step(q, "").Wait? && w != ""
  {
  }

  /** A call that uses nothing has found nothing to do, or has come to an end. */
  lemma PhaseStops(p: Parser, w: string, mem: Memory)
    ensures var c := PhaseRun(p, w, mem);
            && (c.unread == w ==> Terminal(c.parser) || (c.parser == p && Step(p, w).Wait?))
            && (Step(p, w).Wait? ==> c == Config(p, w))
            && (p.phase == Start && c.unread == w ==> c.parser.phase != Done)
  {
    hide Step;
    WaitAnyMemory(p, w, mem(|w|));
    var m := Step(p, w, mem(|w|));
    if m.Go? {
      if p.phase == Start {
        StartStep(p, w, mem(|w|));
      }
      if m.consumed > 0 {
        UsesSome(p, w, mem);
      }
    }
  }

  lemma {:induction false} UsesSome(p: Parser, w: string, mem: Memory)
    requires Step(p, w, mem(|w|)).Go? && Step(p, w, mem(|w|)).consumed > 0
    ensures |PhaseRun(p, w, mem).unread| < |w|
  {
    hide Step, PhaseRun;
    CallStep(p, w, mem);
  }

  /** A call, one step at a time. */
  lemma CallStep(p: Parser, w: string, mem: Memory)
    ensures var m := Step(p, w, mem(|w|));
            PhaseRun(p, w, mem) ==
              if m.Wait? then Config(p, w)
              else if m.parser.phase == p.phase then PhaseRun(m.parser, w[m.consumed..], mem)
              else Config(m.parser, w[m.consumed..])
  {
    hide Step;
  }

  /** On one flat view a call is part of the run. */
  lemma {:induction false} PhaseRunOne(p: Parser, w: string, mem: Memory)
    requires w != ""
    ensures var c := PhaseRun(p, w, mem); Run(p, w, mem) == Run(c.parser, c.unread, mem)
    decreases |w|
  {
    var m := Step(p, w, mem(|w|));
    if m.Go? && m.parser.phase == p.phase {
      if w[m.consumed..] == "" {
        WaitsOnNothing(p, w, mem(|w|));
        WaitAnyMemory(m.parser, "", mem(0));
      } else {
        PhaseRunOne(m.parser, w[m.consumed..], mem);
      }
    }
  }

  /** The end of the run is still the same. */
  predicate Kept(p: Parser, all: string, q: Parser, c: string) {
    Clean(p, all) ==> Run(q, c) == Run(p, all) && Clean(q, c)
  }

  /** On a clean stream a call is part of the run over everything, wherever the view ends. */
  lemma {:induction false} PhaseRunKept(p: Parser, data: string, rest: string, mem: Memory)
    requires data + rest != ""
    ensures var c := PhaseRun(p, data, mem); Kept(p, data + rest, c.parser, c.unread + rest)
    decreases |data|
  {
    hide Run;
    var m := Step(p, data, mem(|data|));
    if Clean(p, data + rest) && m.Go? {
      PrefixSolid(p, data, rest);
      StepAnyMemory(p, data, mem(|data|));
      StepExtends(p, data, rest);
      RunStep(p, data + rest);
      var n := m.consumed;
      assert (data + rest)[n..] == data[n..] + rest;
      if m.parser.phase == p.phase {
        if data[n..] + rest == "" {
          WaitsOnNothing(p, data, mem(|data|));
          WaitAnyMemory(m.parser, "", mem(0));
        } else {
          PhaseRunKept(m.parser, data[n..], rest, mem);
        }
      }
    }
  }

  lemma PrefixSolid(p: Parser, a: string, b: string)
    requires Solid(p, a + b)
    ensures Solid(p, a)
  {
    CrlfIndexPrefix(a, b);
    assert CrlfIndex(a) != -1 ==> (a + b)[..CrlfIndex(a)] == a[..CrlfIndex(a)];
  }

  // ---- the loop ----

  /** What the reader of a buffer sees, what there is, and whether it reads the head block. */
  datatype Sight = Sight(window: string, contents: string, atHead: bool)

  predicate Sound(v: Sight) {
    v.window <= v.contents && |v.window| <= BLOCK_SIZE
  }

  /** The same after `n` bytes of the window have been retrieved. */
  function Retrieved(v: Sight, n: nat): (v': Sight)
    requires Sound(v) && 0 < n <= |v.window|
    ensures Sound(v')
  {
    Sight(Shown(v.window, v.contents, v.atHead, n), v.contents[n..], true)
  }

  datatype Stop = Stop(parser: Parser, sight: Sight)

  /** Where the loop ends: look, work on the window, retrieve, until nothing is used. */
  function Rounds(p: Parser, v: Sight, mem: Memory): (e: Stop)
    requires Sound(v)
    ensures Sound(e.sight)
    decreases |v.contents|
  {
    if v.contents == "" || Terminal(p) then Stop(p, v)
    else
      var c := PhaseRun(p, v.window, mem);
      var n := |v.window| - |c.unread|;
      if n == 0 then Stop(c.parser, v) else Rounds(c.parser, Retrieved(v, n), mem)
  }

  lemma RoundsOnce(p: Parser, v: Sight, mem: Memory)
    requires Sound(v) && v.contents != "" && !Terminal(p)
    ensures var c := PhaseRun(p, v.window, mem);
            var n := |v.window| - |c.unread|;
            Rounds(p, v, mem) == if n == 0 then Stop(c.parser, v) else Rounds(c.parser, Retrieved(v, n), mem)
  {
    hide Step, PhaseRun, Shown, Retrieved;
  }

  /** The loop removes a prefix, and ends with nothing left or nothing to do in view. */
  lemma {:induction false} RoundsStop(p: Parser, v: Sight, mem: Memory)
    requires Sound(v)
    ensures var e := Rounds(p, v, mem);
            && |e.sight.contents| <= |v.contents| && Suffix(e.sight.contents, v.contents)
            && (e.sight.contents == "" || Step(e.parser, e.sight.window).Wait?)
            && (p.phase == Start && e.sight.contents == v.contents ==> e.parser.phase != Done)
            && (Step(p, v.window).Wait? ==> e == Stop(p, v))
    decreases |v.contents|
  {
    hide Run, PhaseRun, Step, Shown, Upto, Suffix, Rounds;
    SuffixSelf(v.contents);
    if Terminal(p) {
      TerminalWaits(p, v.window);
      RoundsTerminal(p, v, mem);
    } else if v.contents == "" {
      RoundsOfNothing(p, v, mem);
    } else {
      RoundsOnce(p, v, mem);
      PhaseStops(p, v.window, mem);
      CallLeaves(p, v.window, "", mem);
      var c := PhaseRun(p, v.window, mem);
      var n := |v.window| - |c.unread|;
      if n > 0 {
        RoundsStop(c.parser, Retrieved(v, n), mem);
        SuffixDrop(v.contents, n);
        SuffixOf(Rounds(p, v, mem).sight.contents, v.contents[n..], v.contents);
      } else {
        if Terminal(c.parser) {
          TerminalWaits(c.parser, v.window);
        }
      }
    }
  }

  /** Whatever comes later: what the loop leaves leads where everything would have led. */
  lemma {:induction false} RoundsKept(p: Parser, v: Sight, mem: Memory, future: string)
    requires Sound(v)
    ensures var e := Rounds(p, v, mem); Kept(p, v.contents + future, e.parser, e.sight.contents + future)
    decreases |v.contents|
  {
    hide Run, Clean, PhaseRun, Step, Rounds, Shown, Terminal;
    if v.contents != "" && !Terminal(p) {
      var c := PhaseRun(p, v.window, mem);
      var n := |v.window| - |c.unread|;
      var rest := v.contents[|v.window|..] + future;
      assert v.contents + future == v.window + rest;
      PhaseRunKept(p, v.window, rest, mem);
      CallLeaves(p, v.window, rest, mem);
      RoundsOnce(p, v, mem);
      if n > 0 {
        assert c.unread + rest == v.contents[n..] + future;
        RoundsKept(c.parser, Retrieved(v, n), mem, future);
      }
    } else if v.contents == "" {
      RoundsOfNothing(p, v, mem);
    } else {
      RoundsTerminal(p, v, mem);
    }
  }

  lemma RetrievedInView(v: Sight, n: nat)
    requires Sound(v) && v.window == v.contents && 0 < n <= |v.window|
    ensures Retrieved(v, n).window == Retrieved(v, n).contents == v.contents[n..]
  {
  }

  /** With everything in one view the loop ends where the run ends. */
  lemma {:induction false} RoundsOneView(p: Parser, v: Sight, mem: Memory)
    requires Sound(v) && v.window == v.contents
    ensures var e := Rounds(p, v, mem);
            e.sight.window == e.sight.contents && Config(e.parser, e.sight.contents) == Run(p, v.contents, mem)
    decreases |v.contents|
  {
    hide PhaseRun, Step, Run, Retrieved, Rounds;
    if v.contents != "" && !Terminal(p) {
      var c := PhaseRun(p, v.window, mem);
      var n := |v.window| - |c.unread|;
      RoundsOnce(p, v, mem);
      PhaseRunOne(p, v.window, mem);
      PhaseStops(p, v.window, mem);
      CallLeaves(p, v.window, "", mem);
      if n > 0 {
        RetrievedInView(v, n);
        RoundsOneView(c.parser, Retrieved(v, n), mem);
      } else {
        if Terminal(c.parser) {
          TerminalWaits(c.parser, v.window);
        }
        StandsStill(c.parser, v.window, mem);
      }
    } else {
      if Terminal(p) {
        TerminalWaits(p, v.contents);
        RoundsTerminal(p, v, mem);
      } else {
        RoundsOfNothing(p, v, mem);
      }
      StandsStill(p, v.contents, mem);
    }
  }

  lemma StandsStill(p: Parser, w: string, mem: Memory)
    requires w == "" || Step(p, w).Wait?
    ensures Run(p, w, mem) == Config(p, w)
  {
    WaitAnyMemory(p, w, mem(|w|));
  }

  /** A run stays where it is exactly when no step is left. */
  lemma StaysExactlyWhen(p: Parser, w: string)
    ensures Run(p, w) == Config(p, w) <==> w == "" || Step(p, w).Wait?
  {
    if w != "" && Step(p, w).Go? {
      var m := Step(p, w);
      RunStep(p, w);
      RunConsumes(m.parser, w[m.consumed..]);
      if m.consumed == 0 {
        RunTerminal(m.parser, w[0..]);
      }
    }
  }

  // ---- window by window ----

  lemma RetrievedAtHead(v: Sight, n: nat)
    requires Sound(v) && v.atHead && 0 < n <= |v.window|
    ensures Retrieved(v, n) == if n < |v.window| then Sight(v.window[n..], v.contents[n..], true)
                               else Sight(Upto(v.contents[n..], BLOCK_SIZE), v.contents[n..], true)
  {
  }

  lemma RoundsTerminal(p: Parser, v: Sight, mem: Memory)
    requires Sound(v) && Terminal(p)
    ensures Rounds(p, v, mem) == Stop(p, v)
  {
  }

  /** From the head block: the window is run to a standstill; if that uses it up, the next
      block's worth of bytes comes into view and the loop goes on, otherwise it stops. */
  lemma {:induction false} RoundsByWindow(p: Parser, v: Sight, mem: Memory)
    requires Sound(v) && v.atHead && v.window != ""
    ensures var c, rest := Run(p, v.window, mem), v.contents[|v.window|..];
            Rounds(p, v, mem) ==
              if c.unread == "" then Rounds(c.parser, Sight(Upto(rest, BLOCK_SIZE), rest, true), mem)
              else Stop(c.parser, Sight(c.unread, c.unread + rest, true))
    decreases |v.window|
  {
    hide PhaseRun, Step, Upto, Run, Retrieved, Rounds;
    var rest := v.contents[|v.window|..];
    assert v.contents == v.window + rest;
    if Terminal(p) {
      RunTerminal(p, v.window, mem);
      RoundsTerminal(p, v, mem);
    } else {
      var c := PhaseRun(p, v.window, mem);
      var n := |v.window| - |c.unread|;
      PhaseRunOne(p, v.window, mem);
      PhaseStops(p, v.window, mem);
      RoundsOnce(p, v, mem);
      CallLeaves(p, v.window, rest, mem);
      if n == 0 {
        if Terminal(c.parser) {
          TerminalWaits(c.parser, v.window);
        }
        StandsStill(c.parser, v.window, mem);
      } else {
        RetrievedAtHead(v, n);
        if n < |v.window| {
          RoundsByWindow(c.parser, Sight(v.window[n..], v.contents[n..], true), mem);
          assert v.contents[n..][|v.window[n..]|..] == rest;
        } else {
          StandsStill(c.parser, "", mem);
        }
      }
    }
  }

  /** No line, and no end of a chunk, lies across position `b`: the run over the bytes before
      it uses them all, or is stuck even with those behind it. */
  predicate Unbroken(p: Parser, all: string, b: nat)
    requires b <= |all|
  {
    var c := Run(p, all[..b]);
    c.unread == "" || Step(c.parser, c.unread + all[b..]).Wait?
  }

  /** Nothing lies across the end of the window or of any block that will come into view. */
  ghost predicate NothingSplit(p: Parser, window: nat, all: string) {
    forall j: nat :: window + j * BLOCK_SIZE < |all| ==> Unbroken(p, all, window + j * BLOCK_SIZE)
  }

  /** What has to hold before the call for `parse` to get as far as the bytes allow.  An empty
      window shows nothing, and away from the head block the first call decides how much
      comes into view. */
  ghost predicate Reaches(p: Parser, v: Sight)
    requires Sound(v)
  {
    v.contents == "" || Terminal(p) ||
    if v.atHead && v.window != "" then NothingSplit(p, |v.window|, v.contents)
    else
      var c := PhaseRun(p, v.window, NOTHING);
      var n := |v.window| - |c.unread|;
      if n == 0 then Step(c.parser, v.contents).Wait?
      else NothingSplit(c.parser, |Retrieved(v, n).window|, v.contents[n..])
  }

  /** Over a clean stream `parse` gets to the end of the run if and only if nothing that has to
      be seen whole is split by the blocks. */
  lemma ReachesExactlyWhen(p: Parser, v: Sight, mem: Memory)
    requires Sound(v) && Clean(p, v.contents)
    ensures var e := Rounds(p, v, mem);
            Config(e.parser, e.sight.contents) == Run(p, v.contents) <==> Reaches(p, v)
  {
    hide Run, Clean, Step, PhaseRun, NothingSplit, Rounds, Retrieved;
    if v.contents == "" || Terminal(p) {
      StaysExactlyWhen(p, v.contents);
      if Terminal(p) {
        TerminalWaits(p, v.contents);
        RoundsTerminal(p, v, mem);
      } else {
        RoundsOfNothing(p, v, mem);
      }
    } else if v.atHead && v.window != "" {
      ReachesFromHead(p, v, mem);
    } else {
      assert v.contents == v.window + v.contents[|v.window|..];
      CallAnyMemory(p, v.window, v.contents[|v.window|..], mem);
      ReachesByCall(p, v, mem);
    }
  }

  lemma ReachesByCall(p: Parser, v: Sight, mem: Memory)
    requires Sound(v) && Clean(p, v.contents) && v.contents != "" && !Terminal(p)
    ensures var e := Rounds(p, v, mem);
            var c := PhaseRun(p, v.window, mem);
            var n := |v.window| - |c.unread|;
            Config(e.parser, e.sight.contents) == Run(p, v.contents) <==>
              if n == 0 then Step(c.parser, v.contents).Wait?
              else NothingSplit(c.parser, |Retrieved(v, n).window|, v.contents[n..])
  {
    hide Run, Clean, Step, PhaseRun, NothingSplit, Shown, Upto, Rounds;
    var rest := v.contents[|v.window|..];
    assert v.contents == v.window + rest;
    var c := PhaseRun(p, v.window, mem);
    var n := |v.window| - |c.unread|;
    PhaseRunKept(p, v.window, rest, mem);
    RoundsOnce(p, v, mem);
    CallLeaves(p, v.window, rest, mem);
    if n == 0 {
      StaysExactlyWhen(c.parser, v.contents);
    } else if v.contents[n..] == "" {
      StaysExactlyWhen(c.parser, "");
      NothingToSplit(c.parser, |Retrieved(v, n).window|);
      RoundsOfNothing(c.parser, Retrieved(v, n), mem);
    } else {
      ComesIntoView(v, n);
      ReachesFromHead(c.parser, Retrieved(v, n), mem);
    }
  }

  lemma ComesIntoView(v: Sight, n: nat)
    requires Sound(v) && 0 < n <= |v.window| && v.contents[n..] != ""
    ensures Retrieved(v, n).window != ""
  {
  }

  lemma NothingToSplit(p: Parser, window: nat)
    ensures NothingSplit(p, window, "")
  {
  }

  lemma TerminalWaits(p: Parser, w: string)
    requires Terminal(p)
    ensures Step(p, w).Wait?
  {
  }

  /** On a clean stream a call does not depend on the memory behind the view. */
  lemma {:induction false} CallAnyMemory(p: Parser, data: string, rest: string, mem: Memory)
    requires Clean(p, data + rest)
    ensures PhaseRun(p, data, mem) == PhaseRun(p, data, NOTHING)
    decreases |data|
  {
    hide Run;
    if data + rest != "" {
      PrefixSolid(p, data, rest);
      StepAnyMemory(p, data, mem(|data|));
      if Step(p, data).Go? {
        StepExtends(p, data, rest);
        var n := Step(p, data).consumed;
        assert (data + rest)[n..] == data[n..] + rest;
        if Step(p, data).parser.phase == p.phase {
          CallAnyMemory(Step(p, data).parser, data[n..], rest, mem);
        }
      }
    } else {
      StepAnyMemory(p, data, mem(|data|));
    }
  }

  lemma {:induction false} ReachesFromHead(p: Parser, v: Sight, mem: Memory)
    requires Sound(v) && v.atHead && v.window != "" && Clean(p, v.contents)
    ensures var e := Rounds(p, v, mem);
            Config(e.parser, e.sight.contents) == Run(p, v.contents) <==> NothingSplit(p, |v.window|, v.contents)
    decreases |v.contents|
  {
    hide Run, Clean, Step, Rounds, NothingSplit;
    var c, rest := Run(p, v.window), v.contents[|v.window|..];
    assert v.contents == v.window + rest;
    RunSplits(p, v.window, rest);
    RunAnyMemory(p, v.window, mem);
    RoundsByWindow(p, v, mem);
    if c.unread != "" {
      StaysExactlyWhen(c.parser, c.unread + rest);
      if rest == "" {
        RunIdempotent(p, v.window);
        assert c.unread + rest == c.unread;
        AllInView(p, v.contents);
      } else {
        StuckOrSplit(p, v.window, rest);
      }
    } else {
      assert c.unread + rest == rest;
      var v' := Sight(Upto(rest, BLOCK_SIZE), rest, true);
      if rest == "" {
        RoundsOfNothing(c.parser, v', mem);
        AllInView(p, v.contents);
        StaysExactlyWhen(c.parser, rest);
      } else {
        ReachesFromHead(c.parser, v', mem);
        NextBoundaries(p, v.window, rest);
      }
    }
  }

  lemma RoundsOfNothing(p: Parser, v: Sight, mem: Memory)
    requires Sound(v) && v.contents == ""
    ensures Rounds(p, v, mem) == Stop(p, v)
  {
  }

  lemma AllInView(p: Parser, all: string)
    ensures NothingSplit(p, |all|, all)
  {
  }

  /** The run over the first window leaves something: it is split exactly if the bytes behind
      it would have completed it. */
  lemma StuckOrSplit(p: Parser, a: string, rest: string)
    requires Clean(p, a + rest) && Run(p, a).unread != "" && rest != ""
    ensures var c := Run(p, a); NothingSplit(p, |a|, a + rest) <==> Step(c.parser, c.unread + rest).Wait?
  {
    hide Run, Clean, Step;
    var c, all := Run(p, a), a + rest;
    assert all[..|a|] == a && all[|a|..] == rest;
    if NothingSplit(p, |a|, all) {
      assert |a| + 0 * BLOCK_SIZE == |a|;
      assert Unbroken(p, all, |a| + 0 * BLOCK_SIZE);
    }
    if Step(c.parser, c.unread + rest).Wait? {
      forall j: nat | |a| + j * BLOCK_SIZE < |all| ensures Unbroken(p, all, |a| + j * BLOCK_SIZE) {
        StillStuck(p, a, rest, |a| + j * BLOCK_SIZE);
      }
    }
  }

  lemma StillStuck(p: Parser, a: string, rest: string, b: nat)
    requires Clean(p, a + rest) && Run(p, a).unread != "" && |a| <= b <= |a + rest|
    requires Step(Run(p, a).parser, Run(p, a).unread + rest).Wait?
    ensures Unbroken(p, a + rest, b)
  {
    hide Run, Clean, Step;
    var c, more, last := Run(p, a), rest[..b - |a|], rest[b - |a|..];
    assert (a + rest)[..b] == a + more && (a + rest)[b..] == last && a + rest == (a + more) + last;
    RunSplits(p, a + more, last);
    RunSplits(p, a, more);
    RunSplits(p, a, rest);
    assert rest == more + last;
    StuckFurther(c, more, last);
  }

  lemma StuckFurther(c: Config, more: string, last: string)
    requires c.unread != "" && Clean(c.parser, c.unread + (more + last))
    requires Step(c.parser, c.unread + (more + last)).Wait?
    ensures Run(c.parser, c.unread + more) == Config(c.parser, c.unread + more)
    ensures Step(c.parser, (c.unread + more) + last).Wait?
  {
    hide Run, Clean, Step;
    assert c.unread + (more + last) == (c.unread + more) + last;
    WaitsOnLess(c.parser, c.unread + more, last);
    StandsStill(c.parser, c.unread + more, NOTHING);
  }

  lemma WaitsOnLess(p: Parser, a: string, b: string)
    requires Step(p, a + b).Wait? && a != "" && Clean(p, a + b)
    ensures Step(p, a).Wait?
  {
    if Step(p, a).Go? {
      StepExtends(p, a, b);
    }
  }

  /** The first window is used up: what is split later is what is split in the rest. */
  lemma NextBoundaries(p: Parser, a: string, rest: string)
    requires Clean(p, a + rest) && Run(p, a).unread == "" && rest != ""
    ensures NothingSplit(p, |a|, a + rest) <==>
              NothingSplit(Run(p, a).parser, |Upto(rest, BLOCK_SIZE)|, rest)
  {
    hide Run, Clean, Step, Unbroken;
    var q, all := Run(p, a).parser, a + rest;
    forall b: nat | b <= |rest| ensures Unbroken(p, all, |a| + b) <==> Unbroken(q, rest, b) {
      SameBoundary(p, a, rest, b);
    }
    if |rest| > BLOCK_SIZE {
      if NothingSplit(p, |a|, all) {
        forall j: nat | BLOCK_SIZE + j * BLOCK_SIZE < |rest| ensures Unbroken(q, rest, BLOCK_SIZE + j * BLOCK_SIZE) {
          assert Unbroken(p, all, |a| + (j + 1) * BLOCK_SIZE);
        }
      }
      if NothingSplit(q, BLOCK_SIZE, rest) {
        forall j: nat | |a| + j * BLOCK_SIZE < |all| ensures Unbroken(p, all, |a| + j * BLOCK_SIZE) {
          if j == 0 {
            StartsUnbroken(q, rest);
          } else {
            assert Unbroken(q, rest, BLOCK_SIZE + (j - 1) * BLOCK_SIZE);
          }
        }
      }
    } else {
      StartsUnbroken(q, rest);
      assert forall j: nat :: |a| + j * BLOCK_SIZE < |all| ==> j == 0;
    }
  }

  lemma StartsUnbroken(q: Parser, rest: string)
    ensures Unbroken(q, rest, 0)
  {
    assert rest[..0] == "";
  }

  lemma SameBoundary(p: Parser, a: string, rest: string, b: nat)
    requires Clean(p, a + rest) && Run(p, a).unread == "" && b <= |rest|
    ensures Unbroken(p, a + rest, |a| + b) <==> Unbroken(Run(p, a).parser, rest, b)
  {
    hide Run, Clean, Step;
    var more, last := rest[..b], rest[b..];
    assert (a + rest)[..|a| + b] == a + more && (a + rest)[|a| + b..] == last && a + rest == (a + more) + last;
    RunSplits(p, a + more, last);
    RunSplits(p, a, more);
    assert "" + more == more;
  }
}
