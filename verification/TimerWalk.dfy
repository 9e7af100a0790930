/** The walk over one bucket, as the code does it with a list iterator; when it ends, what it
    fires, and what it makes of the steps left. */
module TimerWalk {
  import opened Timers

  // ---- the walk ----

  /** Where a walk stands: the bucket, the iterator (the end iterator is the position past the
      last timer), the next fresh id, and the timers fired so far, each with whether it was
      the last of the bucket when it fired. */
  datatype Cursor = Cursor(bucket: seq<Timer>, at: nat, nextId: nat, fired: seq<Timer>, last: seq<bool>)

  /** One iteration.  A repeating timer whose period is a whole number of turns comes back to
      the end of the same bucket; when the timer erased was the last one the iterator is at
      the end by then, and stays there. */
  function WalkStep(c: Cursor, tick: nat, n: nat): (c': Cursor)
    requires tick > 0 && n > 0 && c.at < |c.bucket|
    ensures c'.at <= |c'.bucket|
  {
    var t := c.bucket[c.at];
    if t.rounds > 0 then c.(bucket := c.bucket[c.at := t.(rounds := t.rounds - 1)], at := c.at + 1)
    else
      var rest := RemoveAt(c.bucket, c.at);
      var c1 := c.(bucket := rest, fired := c.fired + [t], last := c.last + [c.at == |rest|]);
      if t.interval == 0 then c1
      else if WholeTurns(t.interval, tick, n) then
        var again := rest + [Timer(c.nextId, t.callback, t.interval, t.interval / tick / n)];
        c1.(bucket := again, at := if c.at == |rest| then |again| else c.at, nextId := c.nextId + 1)
      else c1.(nextId := c.nextId + 1)
  }

  function Walk(c: Cursor, tick: nat, n: nat, count: nat): (c': Cursor)
    requires tick > 0 && n > 0
    decreases count
  {
    if count == 0 || c.at >= |c.bucket| then c else Walk(WalkStep(c, tick, n), tick, n, count - 1)
  }

  lemma {:induction false} WalkOneMore(c: Cursor, tick: nat, n: nat, count: nat)
    requires tick > 0 && n > 0
    requires var c' := Walk(c, tick, n, count); c'.at < |c'.bucket|
    ensures Walk(c, tick, n, count + 1) == WalkStep(Walk(c, tick, n, count), tick, n)
    decreases count
  {
    if count > 0 {
      WalkOneMore(WalkStep(c, tick, n), tick, n, count - 1);
    } else {
      assert Walk(WalkStep(c, tick, n), tick, n, 0) == WalkStep(c, tick, n);
    }
  }

  // ---- when it ends ----

  /** Due now, and again within less than a step. */
  predicate ShortDue(t: Timer, tick: nat) {
    t.rounds == 0 && 0 < t.interval < tick
  }

  /** What is still to be walked. */
  function Tail(c: Cursor): (b: seq<Timer>)
    requires c.at <= |c.bucket|
  {
    c.bucket[c.at..]
  }

  predicate OneShortDue(b: seq<Timer>, tick: nat) {
    forall i, j :: 0 <= i < j < |b| ==> !(ShortDue(b[i], tick) && ShortDue(b[j], tick))
  }

  /** How the rest of a bucket changes in one iteration. */
  lemma TailAfter(c: Cursor, tick: nat, n: nat)
    requires tick > 0 && n > 0 && c.at < |c.bucket|
    ensures var t, b := c.bucket[c.at], Tail(c);
            Tail(WalkStep(c, tick, n)) ==
              if t.rounds == 0 && t.interval > 0 && WholeTurns(t.interval, tick, n) && |b| > 1
              then b[1..] + [Timer(c.nextId, t.callback, t.interval, t.interval / tick / n)]
              else b[1..]
  {
    hide WholeTurns;
    var rest := RemoveAt(c.bucket, c.at);
    assert c.at < |rest| ==> rest[c.at..] == c.bucket[c.at + 1..];
  }

  /** Iterations a timer still accounts for, the short ones aside. */
  function Weight(t: Timer, tick: nat, n: nat): (w: nat)
    requires tick > 0 && n > 0
  {
    if ShortDue(t, tick) then 0
    else if t.rounds == 0 && t.interval > 0 && WholeTurns(t.interval, tick, n) then 2
    else 1
  }

  function Weights(b: seq<Timer>, tick: nat, n: nat): (w: nat)
    requires tick > 0 && n > 0
  {
    if b == [] then 0 else Weight(b[0], tick, n) + Weights(b[1..], tick, n)
  }

  lemma {:induction false} WeightsAppend(b: seq<Timer>, t: Timer, tick: nat, n: nat)
    requires tick > 0 && n > 0
    ensures Weights(b + [t], tick, n) == Weights(b, tick, n) + Weight(t, tick, n)
  {
    hide Weight;
    if b == [] {
      assert [t][1..] == [];
    } else {
      assert (b + [t])[1..] == b[1..] + [t];
      WeightsAppend(b[1..], t, tick, n);
    }
  }

  /** A period of at least one step and whole turns is at least one turn. */
  lemma AtLeastATurn(interval: nat, tick: nat, n: nat)
    requires tick > 0 && n > 0 && WholeTurns(interval, tick, n)
    ensures interval / tick / n * n == interval / tick
    ensures interval >= tick ==> interval / tick > 0 && interval / tick / n > 0
    ensures interval < tick ==> interval / tick == 0 && interval / tick / n == 0
  {
    var k := interval / tick;
    DivMod(k, n);
    DivMod(interval, tick);
    assert interval < tick ==> k == 0;
    assert interval >= tick ==> k != 0;
    assert k == n * (k / n);
  }

  lemma ShortIsWhole(interval: nat, tick: nat, n: nat)
    requires tick > 0 && n > 0 && interval < tick
    ensures WholeTurns(interval, tick, n) && interval / tick == 0
  {
  }

  /** The measure by which a walk comes to its end. */
  function ToGo(b: seq<Timer>, tick: nat): (k: nat) {
    if b != [] && ShortDue(b[0], tick) then 1 else 0
  }

  /** An iteration on a rest with at most one short timer due leaves such a rest, and less of
      it: a short timer that comes back is met again only after the others. */
  lemma WalkShrinks(c: Cursor, tick: nat, n: nat)
    requires tick > 0 && n > 0 && c.at < |c.bucket| && OneShortDue(Tail(c), tick)
    ensures var b, b' := Tail(c), Tail(WalkStep(c, tick, n));
            && OneShortDue(b', tick)
            && (Weights(b', tick, n) < Weights(b, tick, n)
                || (Weights(b', tick, n) == Weights(b, tick, n) && ToGo(b', tick) < ToGo(b, tick)))
  {
    hide WholeTurns;
    var b, t := Tail(c), c.bucket[c.at];
    TailAfter(c, tick, n);
    assert b[0] == t;
    if t.rounds == 0 && t.interval > 0 && WholeTurns(t.interval, tick, n) && |b| > 1 {
      var t' := Timer(c.nextId, t.callback, t.interval, t.interval / tick / n);
      WeightsAppend(b[1..], t', tick, n);
      AtLeastATurn(t.interval, tick, n);
      assert !ShortDue(t, tick) ==> !ShortDue(t', tick);
      assert ShortDue(t, tick) ==> !ShortDue(b[1], tick);
    } else if ShortDue(t, tick) {
      ShortIsWhole(t.interval, tick, n);
      assert b[1..] == [];
    }
  }

  ghost predicate Ends(c: Cursor, tick: nat, n: nat)
    requires tick > 0 && n > 0
  {
    exists count: nat :: var c' := Walk(c, tick, n, count); c'.at >= |c'.bucket|
  }

  lemma {:induction false} WalkEnds(c: Cursor, tick: nat, n: nat) returns (count: nat)
    requires tick > 0 && n > 0 && c.at <= |c.bucket| && OneShortDue(Tail(c), tick)
    ensures var c' := Walk(c, tick, n, count); c'.at >= |c'.bucket|
    decreases Weights(Tail(c), tick, n), ToGo(Tail(c), tick)
  {
    hide OneShortDue, Weights, ToGo, WalkStep;
    if c.at == |c.bucket| {
      count := 0;
    } else {
      WalkShrinks(c, tick, n);
      var more := WalkEnds(WalkStep(c, tick, n), tick, n);
      count := more + 1;
    }
  }

  /** Two short timers due keep each other from ever being the last. */
  lemma TwoShortRemain(c: Cursor, tick: nat, n: nat)
    requires tick > 0 && n > 0 && c.at < |c.bucket| && !OneShortDue(Tail(c), tick)
    ensures !OneShortDue(Tail(WalkStep(c, tick, n)), tick)
  {
    hide WholeTurns;
    var b, t := Tail(c), c.bucket[c.at];
    TailAfter(c, tick, n);
    assert b[0] == t;
    var i, j :| 0 <= i < j < |b| && ShortDue(b[i], tick) && ShortDue(b[j], tick);
    var b' := Tail(WalkStep(c, tick, n));
    assert ShortDue(b'[j - 1], tick);
    if i == 0 {
      ShortIsWhole(t.interval, tick, n);
      AtLeastATurn(t.interval, tick, n);
      assert ShortDue(b'[|b'| - 1], tick) && j - 1 < |b'| - 1;
    } else {
      assert ShortDue(b'[i - 1], tick);
    }
  }

  lemma {:induction false} NeverEnds(c: Cursor, tick: nat, n: nat, count: nat)
    requires tick > 0 && n > 0 && c.at <= |c.bucket| && !OneShortDue(Tail(c), tick)
    ensures var c' := Walk(c, tick, n, count); c'.at < |c'.bucket|
    decreases count
  {
    hide WalkStep;
    if count > 0 {
      TwoShortRemain(c, tick, n);
      NeverEnds(WalkStep(c, tick, n), tick, n, count - 1);
    }
  }

  /** A walk ends if and only if at most one of the timers still to be walked is due and has a
      period below one step. */
  lemma WalkEndsExactlyWhen(c: Cursor, tick: nat, n: nat)
    requires tick > 0 && n > 0 && c.at <= |c.bucket|
    ensures Ends(c, tick, n) <==> OneShortDue(Tail(c), tick)
  {
    hide Walk, OneShortDue;
    if OneShortDue(Tail(c), tick) {
      var count := WalkEnds(c, tick, n);
    } else {
      forall count: nat ensures var c' := Walk(c, tick, n, count); c'.at < |c'.bucket| {
        NeverEnds(c, tick, n, count);
      }
    }
  }

  // ---- which timer is last when it fires ----

  /** Due, and back in the same bucket after its period. */
  predicate DueWhole(t: Timer, tick: nat, n: nat)
    requires tick > 0 && n > 0
  {
    t.rounds == 0 && t.interval > 0 && WholeTurns(t.interval, tick, n)
  }

  /** The last timer of the bucket is the only one of that kind. */
  predicate AloneAtEnd(b: seq<Timer>, tick: nat, n: nat)
    requires tick > 0 && n > 0
  {
    && b != [] && DueWhole(b[|b| - 1], tick, n)
    && forall i :: 0 <= i < |b| - 1 ==> !DueWhole(b[i], tick, n)
  }

  /** The rest of a walk over `b` that has come to its `j`-th timer: the others, and behind
      them those that have come back, with rounds to go or with a period below one step. */
  predicate Comes(b: seq<Timer>, j: nat, back: seq<Timer>, rest: seq<Timer>, tick: nat, n: nat)
    requires tick > 0 && n > 0
  {
    && j <= |b| && rest == b[j..] + back
    && (forall i :: 0 <= i < |back| ==> back[i].rounds > 0 || ShortDue(back[i], tick))
    && (j < |b| ==> (back != [] <==> exists i :: 0 <= i < j && DueWhole(b[i], tick, n)))
  }

  lemma {:induction false} WalkKeeps(c: Cursor, tick: nat, n: nat, count: nat)
    requires tick > 0 && n > 0
    ensures var c' := Walk(c, tick, n, count); c.fired <= c'.fired && c.last <= c'.last
    decreases count
  {
    if count > 0 && c.at < |c.bucket| {
      WalkKeeps(WalkStep(c, tick, n), tick, n, count - 1);
    }
  }

  lemma StepFires(c: Cursor, tick: nat, n: nat)
    requires tick > 0 && n > 0 && c.at < |c.bucket|
    ensures var t, c1 := c.bucket[c.at], WalkStep(c, tick, n);
            && Tail(c) != [] && Tail(c)[0] == t
            && c1.fired == (if t.rounds == 0 then c.fired + [t] else c.fired)
            && c1.last == (if t.rounds == 0 then c.last + [|Tail(c)| == 1] else c.last)
  {
    hide WholeTurns;
  }

  lemma ComesNext(b: seq<Timer>, j: nat, back: seq<Timer>, rest: seq<Timer>, tick: nat, n: nat)
    requires tick > 0 && n > 0 && Comes(b, j, back, rest, tick, n) && rest != []
    ensures j <= |b|
    ensures j == |b| ==>
              && back != [] && (rest[0].rounds > 0 || ShortDue(rest[0], tick))
              && Comes(b, j, back[1..], rest[1..], tick, n)
    ensures j < |b| ==> rest[0] == b[j]
    ensures j < |b| && !DueWhole(b[j], tick, n) ==> Comes(b, j + 1, back, rest[1..], tick, n)
  {
    hide DueWhole, ShortDue;
    if j < |b| {
      assert rest[1..] == b[j + 1..] + back;
    }
  }

  lemma ComesBackLater(b: seq<Timer>, j: nat, back: seq<Timer>, rest: seq<Timer>, t: Timer, tick: nat, n: nat)
    requires tick > 0 && n > 0 && Comes(b, j, back, rest, tick, n) && j < |b| && DueWhole(b[j], tick, n)
    requires t.rounds > 0 || ShortDue(t, tick)
    ensures |rest| > 1 ==> Comes(b, j + 1, back + [t], rest[1..] + [t], tick, n) && !AloneAtEnd(b, tick, n)
    ensures |rest| == 1 ==> rest[1..] == [] && AloneAtEnd(b, tick, n) && Comes(b, j + 1, [], [], tick, n)
  {
    hide DueWhole, ShortDue;
    assert rest[1..] + [t] == b[j + 1..] + (back + [t]);
  }

  lemma ComesRound(b: seq<Timer>, back: seq<Timer>, rest: seq<Timer>, t: Timer, tick: nat, n: nat)
    requires tick > 0 && n > 0 && Comes(b, |b|, back, rest, tick, n) && ShortDue(t, tick)
    ensures Comes(b, |b|, back + [t], rest + [t], tick, n) && Comes(b, |b|, [], [], tick, n)
  {
    hide DueWhole, ShortDue;
    assert rest + [t] == b[|b|..] + (back + [t]);
  }

  lemma {:induction false} LateFrom(b: seq<Timer>, j: nat, back: seq<Timer>, c: Cursor, tick: nat, n: nat, count: nat)
    requires tick > 0 && n > 0 && c.at <= |c.bucket| && |c.fired| == |c.last|
    requires Comes(b, j, back, Tail(c), tick, n)
    ensures var c' := Walk(c, tick, n, count);
            && |c'.fired| == |c'.last|
            && forall i :: |c.fired| <= i < |c'.fired| && DueWhole(c'.fired[i], tick, n) && c'.fired[i].interval >= tick
                 ==> (c'.last[i] <==> AloneAtEnd(b, tick, n))
    decreases count
  {
    hide WholeTurns, WalkStep, Comes, AloneAtEnd, Tail;
    if count > 0 && c.at < |c.bucket| {
      var c1, t := WalkStep(c, tick, n), c.bucket[c.at];
      var t' := Timer(c.nextId, t.callback, t.interval, t.interval / tick / n);
      TailAfter(c, tick, n);
      StepFires(c, tick, n);
      WalkKeeps(c1, tick, n, count - 1);
      ComesNext(b, j, back, Tail(c), tick, n);
      if DueWhole(t, tick, n) {
        AtLeastATurn(t.interval, tick, n);
      }
      if j == |b| {
        if t.rounds > 0 {
          LateFrom(b, j, back[1..], c1, tick, n, count - 1);
        } else {
          ShortIsWhole(t.interval, tick, n);
          ComesRound(b, back[1..], Tail(c)[1..], t', tick, n);
          LateFrom(b, j, if |Tail(c)| > 1 then back[1..] + [t'] else [], c1, tick, n, count - 1);
        }
      } else if !DueWhole(t, tick, n) {
        LateFrom(b, j + 1, back, c1, tick, n, count - 1);
      } else {
        ComesBackLater(b, j, back, Tail(c), t', tick, n);
        LateFrom(b, j + 1, if |Tail(c)| > 1 then back + [t'] else [], c1, tick, n, count - 1);
      }
    }
  }

  /** In every walk, a timer whose period is a whole number of turns is last when it fires, and
      so comes back a turn late, if and only if the bucket ended with the only such timer due. */
  lemma LateExactlyWhen(b: seq<Timer>, nextId: nat, tick: nat, n: nat, count: nat)
    requires tick > 0 && n > 0
    ensures var c := Walk(Cursor(b, 0, nextId, [], []), tick, n, count);
            && |c.fired| == |c.last|
            && forall i :: 0 <= i < |c.fired| && DueWhole(c.fired[i], tick, n) && c.fired[i].interval >= tick
                 ==> (c.last[i] <==> AloneAtEnd(b, tick, n))
  {
    hide DueWhole, Walk;
    var c := Cursor(b, 0, nextId, [], []);
    assert Tail(c) == b[0..] + [];
    LateFrom(b, 0, [], c, tick, n, count);
  }

  /** Whatever is last when it fires ends the walk. */
  lemma {:induction false} LastEnds(c: Cursor, tick: nat, n: nat, count: nat)
    requires tick > 0 && n > 0 && c.at <= |c.bucket| && |c.fired| == |c.last|
    ensures var c' := Walk(c, tick, n, count);
            && |c'.fired| == |c'.last|
            && forall i :: |c.fired| <= i < |c'.fired| && c'.last[i] ==> i == |c'.fired| - 1
    decreases count
  {
    hide WholeTurns, WalkStep, Tail;
    if count > 0 && c.at < |c.bucket| {
      var c1 := WalkStep(c, tick, n);
      TailAfter(c, tick, n);
      StepFires(c, tick, n);
      WalkKeeps(c1, tick, n, count - 1);
      LastEnds(c1, tick, n, count - 1);
      if |Tail(c)| == 1 {
        AtTheEnd(c1);
      }
    }
  }

  lemma AtTheEnd(c: Cursor)
    requires c.at <= |c.bucket| && Tail(c) == []
    ensures c.at >= |c.bucket|
  {
  }

  /** A short timer due in the rest fires before the walk ends. */
  lemma {:induction false} ShortWillFire(c: Cursor, tick: nat, n: nat, count: nat, k: nat)
    requires tick > 0 && n > 0 && c.at <= |c.bucket| && k < |Tail(c)| && ShortDue(Tail(c)[k], tick)
    requires var c' := Walk(c, tick, n, count); c'.at >= |c'.bucket|
    ensures var c' := Walk(c, tick, n, count);
            exists j :: |c.fired| <= j < |c'.fired| && ShortDue(c'.fired[j], tick)
    decreases count
  {
    hide WholeTurns, WalkStep;
    assert c.at < |c.bucket|;
    var c1, c' := WalkStep(c, tick, n), Walk(c, tick, n, count);
    TailAfter(c, tick, n);
    StepFires(c, tick, n);
    WalkKeeps(c1, tick, n, count - 1);
    if k == 0 {
      assert c'.fired[|c.fired|] == Tail(c)[0];
    } else {
      assert Tail(c1)[k - 1] == Tail(c)[k];
      ShortWillFire(c1, tick, n, count - 1, k - 1);
    }
  }

  lemma {:induction false} ShortFrom(c: Cursor, tick: nat, n: nat, count: nat, i: nat)
    requires tick > 0 && n > 0 && c.at <= |c.bucket| && |c.fired| == |c.last| <= i
    requires var c' := Walk(c, tick, n, count);
             && c'.at >= |c'.bucket| && i < |c'.fired| == |c'.last| && ShortDue(c'.fired[i], tick) && !c'.last[i]
    ensures var c' := Walk(c, tick, n, count); exists j :: i < j < |c'.fired| && ShortDue(c'.fired[j], tick)
    decreases count
  {
    hide WholeTurns, WalkStep, Tail;
    if count > 0 && c.at < |c.bucket| {
      var c1, t := WalkStep(c, tick, n), c.bucket[c.at];
      TailAfter(c, tick, n);
      StepFires(c, tick, n);
      WalkKeeps(c1, tick, n, count - 1);
      if i == |c.fired| && t.rounds == 0 {
        ShortIsWhole(t.interval, tick, n);
        AtLeastATurn(t.interval, tick, n);
        ShortWillFire(c1, tick, n, count - 1, |Tail(c1)| - 1);
      } else {
        ShortFrom(c1, tick, n, count - 1, i);
      }
    }
  }

  /** In a walk that has ended, a timer with a period below one step is last exactly at its
      final firing. */
  lemma ShortLastExactlyWhen(b: seq<Timer>, nextId: nat, tick: nat, n: nat, count: nat, i: nat)
    requires tick > 0 && n > 0
    requires var c := Walk(Cursor(b, 0, nextId, [], []), tick, n, count);
             c.at >= |c.bucket| && i < |c.fired| && ShortDue(c.fired[i], tick)
    ensures var c := Walk(Cursor(b, 0, nextId, [], []), tick, n, count);
            && |c.last| == |c.fired|
            && (c.last[i] <==> forall j :: i < j < |c.fired| ==> !ShortDue(c.fired[j], tick))
  {
    hide Walk;
    var start := Cursor(b, 0, nextId, [], []);
    LastEnds(start, tick, n, count);
    var c := Walk(start, tick, n, count);
    if !c.last[i] {
      ShortFrom(start, tick, n, count, i);
    }
  }

  // ---- wheels on which every walk ends ----

  predicate Short(t: Timer, tick: nat) {
    0 < t.interval < tick
  }

  predicate OneShort(b: seq<Timer>, tick: nat) {
    forall i, j :: 0 <= i < j < |b| ==> !(Short(b[i], tick) && Short(b[j], tick))
  }

  predicate NoShort(b: seq<Timer>, tick: nat) {
    forall i :: 0 <= i < |b| ==> !Short(b[i], tick)
  }

  /** No two timers with a period below one step share a slot. */
  predicate Calm(bs: seq<seq<Timer>>, tick: nat) {
    forall s :: 0 <= s < |bs| ==> OneShort(bs[s], tick)
  }

  lemma CalmErase(bs: seq<seq<Timer>>, s: nat, i: nat, tick: nat)
    requires Calm(bs, tick) && s < |bs| && i < |bs[s]|
    ensures Calm(bs[s := RemoveAt(bs[s], i)], tick)
    ensures Short(bs[s][i], tick) ==> NoShort(RemoveAt(bs[s], i), tick)
  {
    var b, r := bs[s], RemoveAt(bs[s], i);
    assert forall k :: 0 <= k < |r| ==> r[k] == b[if k < i then k else k + 1];
    assert OneShort(b, tick);
  }

  lemma CalmInsert(bs: seq<seq<Timer>>, s: nat, t: Timer, tick: nat)
    requires Calm(bs, tick) && s < |bs| && (Short(t, tick) ==> NoShort(bs[s], tick))
    ensures Calm(bs[s := bs[s] + [t]], tick)
  {
    assert OneShort(bs[s], tick);
  }

  lemma CalmVisit(bs: seq<seq<Timer>>, s: nat, i: nat, rounds: nat, tick: nat)
    requires Calm(bs, tick) && s < |bs| && i < |bs[s]|
    ensures Calm(bs[s := bs[s][i := bs[s][i].(rounds := rounds)]], tick)
  {
    assert OneShort(bs[s], tick);
  }

  lemma CalmEnds(bs: seq<seq<Timer>>, s: nat, tick: nat)
    requires Calm(bs, tick) && s < |bs|
    ensures OneShortDue(bs[s], tick)
  {
    assert OneShort(bs[s], tick);
  }

  // ---- wheels on which some walk does not end ----

  /** How many timers have a period below one step and at most `m` rounds to go. */
  function Few(b: seq<Timer>, m: nat, tick: nat): (k: nat) {
    if b == [] then 0
    else (if Short(b[0], tick) && b[0].rounds <= m then 1 else 0) + Few(b[1..], m, tick)
  }

  lemma {:induction false} FewConcat(a: seq<Timer>, b: seq<Timer>, m: nat, tick: nat)
    ensures Few(a + b, m, tick) == Few(a, m, tick) + Few(b, m, tick)
  {
    hide Short;
    if a == [] {
      assert a + b == b;
    } else {
      assert (a + b)[1..] == a[1..] + b;
      FewConcat(a[1..], b, m, tick);
    }
  }

  lemma FewOne(b: seq<Timer>, t: Timer, m: nat, tick: nat)
    ensures Few(b + [t], m, tick) == Few(b, m, tick) + if Short(t, tick) && t.rounds <= m then 1 else 0
  {
    FewConcat(b, [t], m, tick);
    assert [t][1..] == [];
  }

  lemma FewGains(b: seq<Timer>, b': seq<Timer>, m: nat, tick: nat)
    requires b <= b'
    ensures Few(b', m, tick) >= Few(b, m, tick)
  {
    assert b' == b + b'[|b|..];
    FewConcat(b, b'[|b|..], m, tick);
  }

  lemma {:induction false} FewFinds(b: seq<Timer>, m: nat, tick: nat) returns (i: nat)
    requires Few(b, m, tick) > 0
    ensures i < |b| && Short(b[i], tick) && b[i].rounds <= m
    ensures Few(b[i + 1..], m, tick) == Few(b, m, tick) - 1
  {
    if Short(b[0], tick) && b[0].rounds <= m {
      i := 0;
    } else {
      var j := FewFinds(b[1..], m, tick);
      i := j + 1;
      assert b[1..][j + 1..] == b[i + 1..];
    }
  }

  /** Two of them with no rounds to go are two short timers due. */
  lemma TwoDue(b: seq<Timer>, tick: nat)
    requires Few(b, 0, tick) >= 2
    ensures !OneShortDue(b, tick)
  {
    var i := FewFinds(b, 0, tick);
    var j := FewFinds(b[i + 1..], 0, tick);
    assert ShortDue(b[i], tick) && ShortDue(b[i + 1 + j], tick);
  }

  lemma {:induction false} FewCounts(b: seq<Timer>, m: nat, tick: nat, i: nat)
    requires i < |b| && Short(b[i], tick) && b[i].rounds <= m
    ensures Few(b, m, tick) == Few(b[..i], m, tick) + 1 + Few(b[i + 1..], m, tick)
  {
    assert b == b[..i] + ([b[i]] + b[i + 1..]);
    FewConcat(b[..i], [b[i]] + b[i + 1..], m, tick);
    assert ([b[i]] + b[i + 1..])[1..] == b[i + 1..];
  }

  lemma TwoShort(b: seq<Timer>, m: nat, tick: nat)
    requires !OneShort(b, tick) && forall i :: 0 <= i < |b| ==> b[i].rounds <= m
    ensures Few(b, m, tick) >= 2
  {
    var i, j :| 0 <= i < j < |b| && Short(b[i], tick) && Short(b[j], tick);
    FewCounts(b, m, tick, i);
    var rest := b[i + 1..];
    assert rest[j - i - 1] == b[j];
    FewCounts(rest, m, tick, j - i - 1);
  }

  /** What has been walked, in one iteration. */
  lemma FrontAfter(c: Cursor, tick: nat, n: nat)
    requires tick > 0 && n > 0 && c.at < |c.bucket|
    ensures var t, c1, front := c.bucket[c.at], WalkStep(c, tick, n), c.bucket[..c.at];
            c1.bucket[..c1.at] ==
              if t.rounds > 0 then front + [t.(rounds := t.rounds - 1)]
              else if t.interval > 0 && WholeTurns(t.interval, tick, n) && |Tail(c)| == 1
              then front + [Timer(c.nextId, t.callback, t.interval, t.interval / tick / n)]
              else front
  {
    hide WholeTurns;
  }

  /** Short timers with at most `m` rounds to go, a round less for those already walked. */
  function FewLeft(c: Cursor, m: nat, tick: nat): (k: nat)
    requires m > 0 && c.at <= |c.bucket|
  {
    Few(c.bucket[..c.at], m - 1, tick) + Few(Tail(c), m, tick)
  }

  lemma FewRemain(c: Cursor, m: nat, tick: nat, n: nat)
    requires tick > 0 && n > 0 && m > 0 && c.at < |c.bucket|
    ensures FewLeft(WalkStep(c, tick, n), m, tick) >= FewLeft(c, m, tick)
  {
    hide WholeTurns, WalkStep, Tail;
    var t, front, b := c.bucket[c.at], c.bucket[..c.at], Tail(c);
    var t' := Timer(c.nextId, t.callback, t.interval, t.interval / tick / n);
    TailAfter(c, tick, n);
    FrontAfter(c, tick, n);
    StepFires(c, tick, n);
    FewOne(front, t.(rounds := if t.rounds > 0 then t.rounds - 1 else 0), m - 1, tick);
    FewOne(front, t', m - 1, tick);
    FewOne(b[1..], t', m, tick);
    if t.rounds == 0 && Short(t, tick) {
      ShortIsWhole(t.interval, tick, n);
      AtLeastATurn(t.interval, tick, n);
    }
  }

  lemma {:induction false} FewWalked(c: Cursor, m: nat, tick: nat, n: nat, count: nat)
    requires tick > 0 && n > 0 && m > 0 && c.at <= |c.bucket|
    ensures var c' := Walk(c, tick, n, count); c'.at <= |c'.bucket| && FewLeft(c', m, tick) >= FewLeft(c, m, tick)
    decreases count
  {
    hide WalkStep, FewLeft;
    if count > 0 && c.at < |c.bucket| {
      FewRemain(c, m, tick, n);
      FewWalked(WalkStep(c, tick, n), m, tick, n, count - 1);
    }
  }

  /** A walk that ends brings the short timers of its bucket a round closer, and loses none. */
  lemma FewAfterWalk(b: seq<Timer>, nextId: nat, m: nat, tick: nat, n: nat, count: nat)
    requires tick > 0 && n > 0 && m > 0
    requires var c := Walk(Cursor(b, 0, nextId, [], []), tick, n, count); c.at == |c.bucket|
    ensures Few(Walk(Cursor(b, 0, nextId, [], []), tick, n, count).bucket, m - 1, tick) >= Few(b, m, tick)
  {
    hide Walk;
    var start := Cursor(b, 0, nextId, [], []);
    FewWalked(start, m, tick, n, count);
    var c := Walk(start, tick, n, count);
    assert start.bucket[..0] == [] && Tail(start) == b;
    assert c.bucket[..c.at] == c.bucket && Tail(c) == [];
  }

  /** The most rounds any timer has to go. */
  function MostIn(b: seq<Timer>): (m: nat)
    ensures forall i :: 0 <= i < |b| ==> b[i].rounds <= m
  {
    if b == [] then 0
    else
      var m := MostIn(b[1..]);
      assert forall i :: 1 <= i < |b| ==> b[i] == b[1..][i - 1];
      if b[0].rounds > m then b[0].rounds else m
  }

  function Most(bs: seq<seq<Timer>>): (m: nat)
    ensures forall s :: 0 <= s < |bs| ==> MostIn(bs[s]) <= m
  {
    if bs == [] then 0
    else
      var m := Most(bs[1..]);
      assert forall s :: 1 <= s < |bs| ==> bs[s] == bs[1..][s - 1];
      if MostIn(bs[0]) > m then MostIn(bs[0]) else m
  }

  /** Slot steps after which some walk has not ended, if any ever does not. */
  function Doom(bs: seq<seq<Timer>>): (d: nat) {
    |bs| * (1 + Most(bs))
  }

  /** Two short timers in slot `s`, both due in the walk `left` steps from now. */
  ghost predicate Doomed(bs: seq<seq<Timer>>, cur: nat, s: nat, m: nat, left: nat, tick: nat) {
    && cur < |bs| && s < |bs| && Few(bs[s], m, tick) >= 2
    && left == Base(cur, s, |bs|) + m * |bs|
  }

  lemma DoomStarts(bs: seq<seq<Timer>>, cur: nat, tick: nat) returns (s: nat, m: nat, left: nat)
    requires !Calm(bs, tick) && cur < |bs|
    ensures Doomed(bs, cur, s, m, left, tick) && left <= Doom(bs)
  {
    hide Few, Most, MostIn, OneShort, Base;
    s :| 0 <= s < |bs| && !OneShort(bs[s], tick);
    m := Most(bs);
    TwoShort(bs[s], m, tick);
    left := Base(cur, s, |bs|) + m * |bs|;
    OneTurnMore(|bs|, m);
  }

  lemma OneTurnMore(n: nat, m: nat)
    ensures n * (1 + m) == n + m * n
  {
  }

  /** Timers only go behind others in the buckets not walked. */
  ghost predicate Gains(bs: seq<seq<Timer>>, bs': seq<seq<Timer>>, cur: nat) {
    |bs| == |bs'| && forall s :: 0 <= s < |bs| && s != cur ==> bs[s] <= bs'[s]
  }

  lemma GainsMore(bs: seq<seq<Timer>>, bs': seq<seq<Timer>>, bs'': seq<seq<Timer>>, cur: nat)
    requires Gains(bs, bs', cur) && Gains(bs', bs'', cur)
    ensures Gains(bs, bs'', cur)
  {
  }

  /** A slot step whose walk ends brings the one that does not a step closer. */
  lemma DoomNears(bs: seq<seq<Timer>>, cur: nat, bs': seq<seq<Timer>>, s: nat, m: nat, left: nat,
                  nextId: nat, count: nat, tick: nat)
      returns (m': nat)
    requires tick > 0 && Doomed(bs, cur, s, m, left, tick)
    requires var cur' := NextSlot(cur, |bs|);
             var c := Walk(Cursor(bs[cur'], 0, nextId, [], []), tick, |bs|, count);
             && Gains(bs, bs', cur') && OneShortDue(bs[cur'], tick)
             && c.at == |c.bucket| && bs'[cur'] == c.bucket
    ensures left > 0 && Doomed(bs', NextSlot(cur, |bs|), s, m', left - 1, tick)
  {
    hide Walk, Few, OneShortDue;
    var n, cur' := |bs|, NextSlot(cur, |bs|);
    if s == cur' {
      if m == 0 {
        TwoDue(bs[s], tick);
        assert false;
      }
      FewAfterWalk(bs[s], nextId, m, tick, n, count);
      m' := m - 1;
      assert m * n == (m - 1) * n + n;
    } else {
      FewGains(bs[s], bs'[s], m, tick);
      m' := m;
    }
  }

  // ---- what a walk makes of the steps left ----

  function Repeats(fired: seq<Timer>): (n: nat) {
    if fired == [] then 0 else Repeats(fired[..|fired| - 1]) + if fired[|fired| - 1].interval > 0 then 1 else 0
  }

  /** Steps left for a timer that comes back: its period, and a full turn more when that is a
      whole number of turns and the timer was the last of its bucket. */
  function BackIn(interval: nat, last: bool, tick: nat, n: nat): (left: nat)
    requires tick > 0 && n > 0
  {
    if last then StepsFor(interval / tick, n) else interval / tick
  }

  /** The repeating timers among the fired ones, added again under fresh ids in firing order. */
  function Again(fired: seq<Timer>, last: seq<bool>, firstId: nat, tick: nat, n: nat): (d: Dues)
    requires tick > 0 && n > 0 && |last| == |fired|
  {
    if fired == [] then map[]
    else
      var k := |fired| - 1;
      var before := Again(fired[..k], last[..k], firstId, tick, n);
      if fired[k].interval > 0
      then before[firstId + Repeats(fired[..k]) :=
                    Entry(BackIn(fired[k].interval, last[k], tick, n), fired[k].interval, fired[k].callback)]
      else before
  }

  predicate AtOnceIfShort(e: Entry, tick: nat) {
    e.left == 0 ==> 0 < e.interval < tick
  }

  lemma {:induction false} AgainIds(fired: seq<Timer>, last: seq<bool>, firstId: nat, tick: nat, n: nat)
    requires tick > 0 && n > 0 && |last| == |fired|
    ensures forall id :: id in Again(fired, last, firstId, tick, n) ==> firstId <= id < firstId + Repeats(fired)
    ensures forall id :: id in Again(fired, last, firstId, tick, n) ==>
              AtOnceIfShort(Again(fired, last, firstId, tick, n)[id], tick)
    decreases |fired|
  {
    if fired != [] {
      hide BackIn;
      var k := |fired| - 1;
      AgainIds(fired[..k], last[..k], firstId, tick, n);
      BackSoon(fired[k].interval, last[k], tick, n);
      var d, before := Again(fired, last, firstId, tick, n), Again(fired[..k], last[..k], firstId, tick, n);
      forall id | id in d ensures AtOnceIfShort(d[id], tick) {
        if id != firstId + Repeats(fired[..k]) {
          assert id in before && d[id] == before[id];
        }
      }
    }
  }

  lemma BackSoon(interval: nat, last: bool, tick: nat, n: nat)
    requires tick > 0 && n > 0
    ensures BackIn(interval, last, tick, n) == 0 ==> interval < tick
    ensures BackIn(interval, last, tick, n) == interval / tick + n <==> last && WholeTurns(interval, tick, n)
    ensures BackIn(interval, last, tick, n) == interval / tick <==> !(last && WholeTurns(interval, tick, n))
  {
    DivMod(interval, tick);
    if interval / tick == 0 {
      assert tick * (interval / tick) == 0;
    }
  }

  /** The entry under which the `i`-th fired timer comes back. */
  lemma {:induction false} AgainEntry(fired: seq<Timer>, last: seq<bool>, firstId: nat, tick: nat, n: nat, i: nat)
    requires tick > 0 && n > 0 && |last| == |fired| && i < |fired| && fired[i].interval > 0
    ensures var d, id := Again(fired, last, firstId, tick, n), firstId + Repeats(fired[..i]);
            id in d && d[id] == Entry(BackIn(fired[i].interval, last[i], tick, n), fired[i].interval, fired[i].callback)
    decreases |fired|
  {
    hide BackIn;
    var k := |fired| - 1;
    if i < k {
      AgainEntry(fired[..k], last[..k], firstId, tick, n, i);
      assert fired[..k][..i] == fired[..i];
      RepeatsGrow(fired, i, k);
    }
  }

  lemma {:induction false} RepeatsGrow(fired: seq<Timer>, i: nat, k: nat)
    requires i < k <= |fired| && fired[i].interval > 0
    ensures Repeats(fired[..i]) < Repeats(fired[..k])
    decreases k
  {
    assert fired[..k][..k - 1] == fired[..k - 1];
    if i < k - 1 {
      RepeatsGrow(fired, i, k - 1);
    }
  }

  lemma AgainMore(fired: seq<Timer>, last: seq<bool>, firstId: nat, tick: nat, n: nat, t: Timer, l: bool)
    requires tick > 0 && n > 0 && |last| == |fired|
    ensures Repeats(fired + [t]) == Repeats(fired) + if t.interval > 0 then 1 else 0
    ensures Again(fired + [t], last + [l], firstId, tick, n)
         == Refire(Again(fired, last, firstId, tick, n), t, l, firstId + Repeats(fired), tick, n)
  {
    assert (fired + [t])[..|fired|] == fired && (last + [l])[..|last|] == last;
  }

  /** The entry a firing timer leaves behind: itself again under a fresh id if it repeats. */
  function Refire(due: Dues, t: Timer, last: bool, nextId: nat, tick: nat, n: nat): (d: Dues)
    requires tick > 0 && n > 0
  {
    if t.interval > 0 then due[nextId := Entry(BackIn(t.interval, last, tick, n), t.interval, t.callback)] else due
  }

  /** Midway through a walk: `due` is what was due and what came back, less the fired. */
  ghost predicate Midway(before: Dues, fired: seq<Timer>, last: seq<bool>, firstId: nat, tick: nat, n: nat,
                         due: Dues, nextId: nat)
    requires tick > 0 && n > 0
  {
    && |last| == |fired|
    && due == Without(before + Again(fired, last, firstId, tick, n), Ids(fired))
    && nextId == firstId + Repeats(fired)
    && Distinct(fired)
    && (forall i :: 0 <= i < |fired| ==> Fired(before, Again(fired, last, firstId, tick, n), fired[i]))
    && (forall id :: id in before ==> id < firstId)
  }

  /** A timer that fired was due when the walk began, or came back in it with no step left. */
  predicate Fired(before: Dues, again: Dues, t: Timer) {
    if t.id in before then before[t.id] == Entry(0, t.interval, t.callback)
    else t.id in again && again[t.id] == Entry(0, t.interval, t.callback)
  }

  lemma MidwayStart(before: Dues, firstId: nat, tick: nat, n: nat)
    requires tick > 0 && n > 0 && forall id :: id in before ==> id < firstId
    ensures Midway(before, [], [], firstId, tick, n, before, firstId)
  {
    assert Without(before + map[], {}) == before;
  }

  lemma MidwayFire(before: Dues, fired: seq<Timer>, last: seq<bool>, firstId: nat, tick: nat, n: nat, due: Dues,
                   nextId: nat,
                   t: Timer, l: bool)
    requires tick > 0 && n > 0 && Midway(before, fired, last, firstId, tick, n, due, nextId)
    requires t.id in due && due[t.id] == Entry(0, t.interval, t.callback)
    ensures Midway(before, fired + [t], last + [l], firstId, tick, n, Refire(due - {t.id}, t, l, nextId, tick, n),
                   nextId + if t.interval > 0 then 1 else 0)
  {
    hide Without, Ids, Again, Repeats, Refire;
    var again := Again(fired, last, firstId, tick, n);
    AgainIds(fired, last, firstId, tick, n);
    FiringIsDue(before, again, Ids(fired), t);
    AgainMore(fired, last, firstId, tick, n, t, l);
    IdsAppend(fired, t);
    IdsOf(fired);
    IdsBelow(before, fired, again, firstId, nextId);
    RefireMaps(before, Ids(fired), again, t, l, nextId, tick, n);
    RefireKeeps(before, again, fired, t, l, nextId, tick, n);
  }

  lemma FiringIsDue(before: Dues, again: Dues, ids: set<nat>, t: Timer)
    requires t.id in Without(before + again, ids)
    requires Without(before + again, ids)[t.id] == Entry(0, t.interval, t.callback)
    requires forall id :: id in again ==> id !in before
    ensures t.id !in ids && Fired(before, again, t)
  {
  }

  lemma IdsBelow(before: Dues, fired: seq<Timer>, again: Dues, firstId: nat, nextId: nat)
    requires forall i :: 0 <= i < |fired| ==> Fired(before, again, fired[i])
    requires firstId <= nextId
    requires (forall id :: id in before ==> id < firstId) && forall id :: id in again ==> id < nextId
    ensures forall id :: id in Ids(fired) ==> id < nextId
  {
  }

  lemma RefireKeeps(before: Dues, again: Dues, fired: seq<Timer>, t: Timer, l: bool, nextId: nat, tick: nat, n: nat)
    requires tick > 0 && n > 0 && (forall id :: id in again ==> id < nextId)
    requires Fired(before, again, t) && forall i :: 0 <= i < |fired| ==> Fired(before, again, fired[i])
    ensures var fired' := fired + [t];
            forall i :: 0 <= i < |fired'| ==> Fired(before, Refire(again, t, l, nextId, tick, n), fired'[i])
  {
  }

  lemma RefireMaps(before: Dues, ids: set<nat>, again: Dues, t: Timer, l: bool, nextId: nat, tick: nat, n: nat)
    requires tick > 0 && n > 0 && nextId !in ids && nextId != t.id
    ensures Refire(Without(before + again, ids) - {t.id}, t, l, nextId, tick, n)
         == Without(before + Refire(again, t, l, nextId, tick, n), ids + {t.id})
  {
  }

  lemma IdsOf(b: seq<Timer>)
    ensures forall i :: 0 <= i < |b| ==> b[i].id in Ids(b)
  {
  }

  lemma IdsAppend(b: seq<Timer>, t: Timer)
    ensures Ids(b + [t]) == Ids(b) + {t.id}
  {
    assert forall u :: u in b + [t] <==> u in b || u == t;
  }

  /** Back within the walk, with no step left. */
  predicate CameBack(again: Dues, t: Timer) {
    t.id in again && again[t.id] == Entry(0, t.interval, t.callback)
  }

  /** What one slot step does to what is due.  Exactly the timers with one step left fire;
      those that repeat are due again after their period, or a full turn later if they were
      last; a period below one step may bring a timer back within the walk. */
  ghost predicate Stepped(before: Dues, fired: seq<Timer>, last: seq<bool>, firstId: nat, tick: nat, n: nat,
                          after: Dues)
    requires tick > 0 && n > 0
  {
    && |last| == |fired| && Distinct(fired)
    && after == Without(Sooner(before) + Again(fired, last, firstId, tick, n), Ids(fired))
    && (forall id :: id in before ==> (id in Ids(fired) <==> before[id].left == 1))
    && (forall i :: 0 <= i < |fired| ==>
          if fired[i].id in before then before[fired[i].id] == Entry(1, fired[i].interval, fired[i].callback)
          else CameBack(Again(fired, last, firstId, tick, n), fired[i]))
    && (forall id :: id in before ==> id < firstId)
  }

  lemma MidwayEnd(before: Dues, fired: seq<Timer>, last: seq<bool>, firstId: nat, tick: nat, n: nat, due: Dues,
                  nextId: nat)
    requires tick > 0 && n > 0 && (forall id :: id in before ==> before[id].left > 0)
    requires Midway(Sooner(before), fired, last, firstId, tick, n, due, nextId)
    requires forall id :: id in due ==> due[id].left > 0
    ensures Stepped(before, fired, last, firstId, tick, n, due)
  {
    hide Again, Distinct, Repeats;
    var now, again := Sooner(before), Again(fired, last, firstId, tick, n);
    AgainIds(fired, last, firstId, tick, n);
    forall id | id in before ensures id in Ids(fired) <==> before[id].left == 1 {
      if id !in Ids(fired) {
        assert id in now && id in due && due[id] == now[id];
      }
      if id in Ids(fired) {
        var i :| 0 <= i < |fired| && fired[i].id == id;
        assert Fired(now, again, fired[i]);
      }
    }
    forall i | 0 <= i < |fired|
      ensures if fired[i].id in before then before[fired[i].id] == Entry(1, fired[i].interval, fired[i].callback)
              else CameBack(again, fired[i])
    {
      assert Fired(now, again, fired[i]);
    }
    assert forall id :: id in before ==> id in now;
  }

  lemma MidwayCount(before: Dues, fired: seq<Timer>, last: seq<bool>, firstId: nat, tick: nat, n: nat, due: Dues,
                    nextId: nat)
    requires tick > 0 && n > 0 && Midway(before, fired, last, firstId, tick, n, due, nextId)
    ensures nextId == firstId + Repeats(fired) && |last| == |fired|
  {
  }

  // ---- over many steps ----

  /** Each timer due before fires in exactly the step its count says, and in no other. */
  ghost predicate Timeline(before: Dues, steps: seq<seq<Timer>>, after: Dues) {
    forall id :: id in before ==>
      && (forall j :: 0 <= j < |steps| ==> (id in Ids(steps[j]) <==> before[id].left == j + 1))
      && (if before[id].left <= |steps| then id !in after
          else id in after && after[id] == before[id].(left := before[id].left - |steps|))
  }

  lemma TimelineStart(due: Dues)
    requires forall id :: id in due ==> due[id].left > 0
    ensures Timeline(due, [], due)
  {
  }

  lemma TimelineStep(before: Dues, steps: seq<seq<Timer>>, mid: Dues, fired: seq<Timer>, last: seq<bool>, firstId: nat,
                     tick: nat, n: nat, after: Dues)
    requires tick > 0 && n > 0 && Timeline(before, steps, mid) && Stepped(mid, fired, last, firstId, tick, n, after)
    requires forall id :: id in before ==> id < firstId
    ensures Timeline(before, steps + [fired], after)
  {
    hide Again, Ids, Distinct;
    AgainIds(fired, last, firstId, tick, n);
    var steps' := steps + [fired];
    forall id | id in before
      ensures forall j :: 0 <= j < |steps'| ==> (id in Ids(steps'[j]) <==> before[id].left == j + 1)
      ensures if before[id].left <= |steps'| then id !in after
              else id in after && after[id] == before[id].(left := before[id].left - |steps'|)
    {
      assert id !in Again(fired, last, firstId, tick, n);
      if id !in mid {
        NotFiredTwice(mid, fired, last, firstId, tick, n, after, id);
      }
      forall j | 0 <= j < |steps'| ensures id in Ids(steps'[j]) <==> before[id].left == j + 1 {
        if j < |steps| {
          assert steps'[j] == steps[j];
        } else {
          assert steps'[j] == fired;
        }
      }
    }
  }

  lemma NotFiredTwice(mid: Dues, fired: seq<Timer>, last: seq<bool>, firstId: nat, tick: nat, n: nat, after: Dues,
                      id: nat)
    requires tick > 0 && n > 0 && Stepped(mid, fired, last, firstId, tick, n, after) && id < firstId && id !in mid
    ensures id !in Ids(fired)
  {
    hide Again;
    AgainIds(fired, last, firstId, tick, n);
  }

  lemma WalkNone(c: Cursor, tick: nat, n: nat)
    requires tick > 0 && n > 0
    ensures Walk(c, tick, n, 0) == c
  {
  }

  lemma TailIs(c: Cursor)
    requires c.at == 0
    ensures Tail(c) == c.bucket
  {
  }

  // ---- repeating timers over many steps ----

  /** What was due before and after every step, which of the fired were last, and the first
      fresh id of each step. */
  datatype Trace = Trace(dues: seq<Dues>, lasts: seq<seq<bool>>, firsts: seq<nat>)

  ghost predicate Traces(tr: Trace, steps: seq<seq<Timer>>, tick: nat, n: nat)
    requires tick > 0 && n > 0
  {
    && |tr.dues| == |steps| + 1 && |tr.lasts| == |tr.firsts| == |steps|
    && (forall j :: 0 <= j < |steps| ==>
          Stepped(tr.dues[j], steps[j], tr.lasts[j], tr.firsts[j], tick, n, tr.dues[j + 1]))
    && (forall j, id :: 0 <= j < |tr.dues| && id in tr.dues[j] ==> tr.dues[j][id].left > 0)
  }

  lemma TraceStart(due: Dues, tick: nat, n: nat)
    requires tick > 0 && n > 0 && forall id :: id in due ==> due[id].left > 0
    ensures Traces(Trace([due], [], []), [], tick, n)
  {
  }

  lemma TraceStep(tr: Trace, steps: seq<seq<Timer>>, fired: seq<Timer>, last: seq<bool>, firstId: nat, after: Dues,
                  tick: nat, n: nat)
    requires tick > 0 && n > 0 && Traces(tr, steps, tick, n)
    requires Stepped(tr.dues[|steps|], fired, last, firstId, tick, n, after)
    requires forall id :: id in after ==> after[id].left > 0
    ensures Traces(Trace(tr.dues + [after], tr.lasts + [last], tr.firsts + [firstId]), steps + [fired], tick, n)
  {
    hide Stepped;
  }

  /** In one step a timer with more to go comes closer; one with a single step left fires and,
      if its period is at least a step, is due again after it. */
  lemma OneStepOn(before: Dues, fired: seq<Timer>, last: seq<bool>, firstId: nat, tick: nat, n: nat, after: Dues,
                  id: nat)
      returns (next: nat)
    requires tick > 0 && n > 0 && Stepped(before, fired, last, firstId, tick, n, after) && id in before
    requires before[id].left > 0
    ensures id in Ids(fired) <==> before[id].left == 1
    ensures before[id].left > 1 ==>
              next == id && next in after && after[next] == before[id].(left := before[id].left - 1)
    ensures before[id].left == 1 && before[id].interval >= tick ==>
              && next in after
              && exists i :: 0 <= i < |fired| && fired[i].id == id &&
                   after[next] == before[id].(left := BackIn(before[id].interval, last[i], tick, n))
  {
    hide Again, Distinct, BackIn;
    next := id;
    AgainIds(fired, last, firstId, tick, n);
    if before[id].left == 1 && before[id].interval >= tick {
      var i :| 0 <= i < |fired| && fired[i].id == id;
      next := firstId + Repeats(fired[..i]);
      AgainEntry(fired, last, firstId, tick, n, i);
      BackSoon(before[id].interval, last[i], tick, n);
      NotAtOnce(before, fired, last, firstId, tick, n, after, next);
    }
  }

  /** A timer that comes back with steps left does not fire in the same step. */
  lemma NotAtOnce(before: Dues, fired: seq<Timer>, last: seq<bool>, firstId: nat, tick: nat, n: nat, after: Dues,
                  id: nat)
    requires tick > 0 && n > 0 && Stepped(before, fired, last, firstId, tick, n, after)
    requires var d := Again(fired, last, firstId, tick, n); id in d && d[id].interval >= tick
    ensures id in after && after[id] == Again(fired, last, firstId, tick, n)[id]
  {
    hide Again, Distinct;
    AgainIds(fired, last, firstId, tick, n);
    var d := Again(fired, last, firstId, tick, n);
    assert AtOnceIfShort(d[id], tick);
  }

  /** `line[t]` is the id a repeating timer goes by after `t` steps: it fires exactly in the
      steps before which it has one step left, keeps its period and callback, and starts again
      from its period, or from a full turn more if that is whole turns. */
  ghost predicate Lineage(tr: Trace, steps: seq<seq<Timer>>, line: seq<nat>, tick: nat, n: nat)
    requires tick > 0 && n > 0 && |tr.dues| == |steps| + 1
  {
    && 0 < |line| <= |steps| + 1
    && (forall t :: 0 <= t < |line| ==> line[t] in tr.dues[t])
    && forall t :: 0 <= t < |line| - 1 ==>
         Succeeds(tr.dues[t][line[t]], line[t] in Ids(steps[t]), tr.dues[t + 1][line[t + 1]], tick, n)
  }

  predicate Succeeds(e: Entry, fires: bool, e': Entry, tick: nat, n: nat)
    requires tick > 0 && n > 0
  {
    && e'.interval == e.interval && e'.callback == e.callback
    && (fires <==> e.left == 1)
    && (if e.left > 1 then e'.left == e.left - 1
        else e'.left == e.interval / tick || (WholeTurns(e.interval, tick, n) && e'.left == e.interval / tick + n))
  }

  lemma {:induction false} HasLineage(tr: Trace, steps: seq<seq<Timer>>, tick: nat, n: nat, id: nat, count: nat)
      returns (line: seq<nat>)
    requires tick > 0 && n > 0 && Traces(tr, steps, tick, n) && count <= |steps|
    requires id in tr.dues[0] && tr.dues[0][id].interval >= tick
    ensures |line| == count + 1 && line[0] == id && Lineage(tr, steps, line, tick, n)
    ensures tr.dues[count][line[count]].interval == tr.dues[0][id].interval
    decreases count
  {
    hide Stepped, Ids, BackIn, WholeTurns;
    if count == 0 {
      line := [id];
    } else {
      var before := HasLineage(tr, steps, tick, n, id, count - 1);
      var t := count - 1;
      var next := OneStepOn(tr.dues[t], steps[t], tr.lasts[t], tr.firsts[t], tick, n, tr.dues[count], before[t]);
      EitherBack(tr.dues[t][before[t]].interval, tick, n);
      line := before + [next];
      assert forall i :: 0 <= i < count ==> line[i] == before[i];
    }
  }

  lemma EitherBack(interval: nat, tick: nat, n: nat)
    requires tick > 0 && n > 0
    ensures forall last :: BackIn(interval, last, tick, n) == interval / tick
              || (WholeTurns(interval, tick, n) && BackIn(interval, last, tick, n) == interval / tick + n)
  {
    BackSoon(interval, true, tick, n);
    BackSoon(interval, false, tick, n);
  }

  /** The steps in which a timer fires that is `left` steps away and comes back every `k`. */
  predicate OnBeat(step: nat, left: nat, k: nat)
    requires k > 0
  {
    step >= left && (step - left) % k == 0
  }

  /** A repeating timer whose period is k steps, not a whole number of turns, fires in the
      steps left, left + k, left + 2k and so on, and in no other. */
  lemma Rhythm(tr: Trace, steps: seq<seq<Timer>>, tick: nat, n: nat, id: nat) returns (line: seq<nat>)
    requires tick > 0 && n > 0 && Traces(tr, steps, tick, n) && id in tr.dues[0]
    requires var e := tr.dues[0][id]; e.interval > 0 && !WholeTurns(e.interval, tick, n)
    ensures |line| == |steps| + 1 && line[0] == id && Lineage(tr, steps, line, tick, n)
    ensures tr.dues[0][id].interval / tick > 0
    ensures forall t :: 0 <= t < |steps| ==>
              (line[t] in Ids(steps[t]) <==> OnBeat(t + 1, tr.dues[0][id].left, tr.dues[0][id].interval / tick))
  {
    hide Stepped, Ids, WholeTurns, OnBeat;
    var e := tr.dues[0][id];
    if e.interval < tick {
      ShortIsWhole(e.interval, tick, n);
      assert false;
    }
    DivMod(e.interval, tick);
    AtLeastAStep(e.interval, tick);
    line := HasLineage(tr, steps, tick, n, id, |steps|);
    forall t | 0 <= t < |steps|
      ensures line[t] in Ids(steps[t]) <==> OnBeat(t + 1, e.left, e.interval / tick)
    {
      InRhythm(tr, steps, line, tick, n, t);
    }
  }

  lemma AtLeastAStep(interval: nat, tick: nat)
    requires 0 < tick <= interval
    ensures interval / tick > 0
  {
  }

  /** Steps to the next beat after `t` steps. */
  function NextBeat(t: nat, left: nat, k: nat): (d: nat)
    requires k > 0
  {
    if t < left then left - t else k - (t - left) % k
  }

  lemma {:induction false} InRhythm(tr: Trace, steps: seq<seq<Timer>>, line: seq<nat>, tick: nat, n: nat, t: nat)
    requires tick > 0 && n > 0 && Traces(tr, steps, tick, n)
    requires |line| == |steps| + 1 && Lineage(tr, steps, line, tick, n)
    requires t < |steps|
    requires var e := tr.dues[0][line[0]]; e.interval / tick > 0 && !WholeTurns(e.interval, tick, n)
    ensures var e, e' := tr.dues[0][line[0]], tr.dues[t][line[t]];
            && e'.interval == e.interval && e'.left == NextBeat(t, e.left, e.interval / tick)
            && (line[t] in Ids(steps[t]) <==> OnBeat(t + 1, e.left, e.interval / tick))
    decreases t
  {
    hide Ids, WholeTurns, Stepped, NextBeat, OnBeat;
    var e := tr.dues[0][line[0]];
    var k := e.interval / tick;
    BeatAt(t, e.left, k);
    assert Succeeds(tr.dues[t][line[t]], line[t] in Ids(steps[t]), tr.dues[t + 1][line[t + 1]], tick, n);
    if t == 0 {
      FirstBeat(e.left, k);
    } else {
      InRhythm(tr, steps, line, tick, n, t - 1);
      var s := t - 1;
      assert Succeeds(tr.dues[s][line[s]], line[s] in Ids(steps[s]), tr.dues[s + 1][line[s + 1]], tick, n);
      BeatOn(s, e.left, k);
    }
  }

  lemma FirstBeat(left: nat, k: nat)
    requires left > 0 && k > 0
    ensures NextBeat(0, left, k) == left
  {
  }

  lemma BeatOn(t: nat, left: nat, k: nat)
    requires left > 0 && k > 0
    ensures NextBeat(t + 1, left, k) == if NextBeat(t, left, k) > 1 then NextBeat(t, left, k) - 1 else k
  {
    if t + 1 >= left && t >= left {
      NextRemainder(t - left, k);
    } else if t + 1 == left {
      Remainder(0, 0, 0, k);
    }
  }

  lemma BeatAt(t: nat, left: nat, k: nat)
    requires left > 0 && k > 0
    ensures NextBeat(t, left, k) == 1 <==> OnBeat(t + 1, left, k)
  {
    if t >= left {
      NextRemainder(t - left, k);
    } else if t + 1 == left {
      Remainder(0, 0, 0, k);
    }
  }

  lemma NextRemainder(x: nat, k: nat)
    requires k > 0
    ensures (x + 1) % k == if x % k == k - 1 then 0 else x % k + 1
  {
    DivMod(x, k);
    var q, r := x / k, x % k;
    if r == k - 1 {
      Factor(q, k);
      Remainder(x + 1, q + 1, 0, k);
    } else {
      Factor(q, k);
      Remainder(x + 1, q, r + 1, k);
    }
  }

  lemma Factor(q: nat, k: nat)
    ensures k * q == q * k && (q + 1) * k == q * k + k
  {
  }
}
