/** The timer wheel: an array of buckets and a hand that moves over them. */
module TimerWheel {
  import opened Timers
  import opened TimerWalk

  class Wheel {
    const tickMs: nat
    const slotCount: nat
    const buckets: array<seq<Timer>>
    var currentSlot: nat
    var lastTick: int
    var nextId: nat
    var timerCount: nat

    ghost var due: Dues              // the simple description
    ghost var slotOf: map<nat, nat>  // where each timer is kept

    ghost predicate Valid(mid: nat)
      reads this, buckets
      ensures Valid(mid) ==> tickMs > 0 && buckets.Length == slotCount && currentSlot < slotCount
    {
      && tickMs > 0 && buckets.Length == slotCount
      && Agree(buckets[..], currentSlot, mid, due, slotOf, nextId)
      && timerCount == Total(buckets[..])
    }

    /** Between walks every timer of the current bucket waits for the next turn. */
    ghost predicate Settled()
      reads this, buckets
    {
      buckets.Length == slotCount && currentSlot < slotCount && Valid(|buckets[currentSlot]|)
    }

    constructor (tickMs: nat, slotCount: nat, now: int)
      requires tickMs > 0 && slotCount > 0
      ensures Settled() && due == map[] && fresh(buckets) && lastTick == now && Calm(buckets[..], tickMs)
      ensures this.tickMs == tickMs && this.slotCount == slotCount
    {
      this.tickMs, this.slotCount := tickMs, slotCount;
      buckets := new seq<Timer>[slotCount](_ => []);
      currentSlot, lastTick, nextId, timerCount := 0, now, 1, 0;
      due, slotOf := map[], map[];
      new;
      TotalZero(buckets[..]);
    }

    /** Put a timer `k` steps ahead.  It fires after that many, a full turn later when they are
        a whole number of turns; in the middle of a walk the end of the current bucket is still
        to be visited. */
    method Insert(id: nat, k: nat, rounds: nat, interval: nat, callback: nat, ghost mid: nat)
      requires Valid(mid) && id !in due && id < nextId && rounds == k / slotCount
      modifies this`timerCount, this`due, this`slotOf, buckets
      ensures Valid(MidAfter(mid, old(|buckets[currentSlot]|), k, slotCount))
      ensures due == Later(old(due), id, k, slotCount, mid < old(|buckets[currentSlot]|), interval, callback)
      ensures SlotFor(currentSlot, k, slotCount) == currentSlot <==> k % slotCount == 0
      ensures buckets[..] == Put(old(buckets[..]), SlotFor(currentSlot, k, slotCount),
                                 Timer(id, callback, interval, rounds))
      ensures |buckets[currentSlot]| == |old(buckets[currentSlot])| + if k % slotCount == 0 then 1 else 0
    {
      hide Agree, StepsFor, Base;
      SlotAndRounds(currentSlot, k, slotCount);
      var slot := (currentSlot + k) % slotCount;
      var t := Timer(id, callback, interval, rounds);
      ghost var before := buckets[..];
      AgreeInsert(before, currentSlot, mid, due, slotOf, nextId, slot, t);
      StepsAhead(currentSlot, k, slotCount, mid < |buckets[currentSlot]|);
      TotalUpdate(before, slot, before[slot] + [t]);
      timerCount := timerCount + 1;
      buckets[slot] := buckets[slot] + [t];
      assert buckets[..] == before[slot := before[slot] + [t]];
      due := Later(due, id, k, slotCount, mid < |before[currentSlot]|, interval, callback);
      slotOf := slotOf[id := slot];
    }

    /** The common part of adding: fresh id, step count and rounds from the delay. */
    method Add(when: int, interval: nat, callback: nat, ghost mid: nat) returns (id: nat)
      requires Valid(mid)
      modifies this`nextId, this`timerCount, this`due, this`slotOf, buckets
      ensures var k := Quot(Delay(when), tickMs);
              && Valid(MidAfter(mid, old(|buckets[currentSlot]|), k, slotCount))
              && due == Later(old(due), id, k, slotCount, mid < old(|buckets[currentSlot]|), interval, callback)
              && (SlotFor(currentSlot, k, slotCount) == currentSlot <==> k % slotCount == 0)
              && buckets[..] == Put(old(buckets[..]), SlotFor(currentSlot, k, slotCount),
                                    Timer(id, callback, interval, Quot(k, slotCount)))
              && |buckets[currentSlot]| == old(|buckets[currentSlot]|) + if k % slotCount == 0 then 1 else 0
      ensures id == old(nextId) && nextId == id + 1 && id !in old(due)
    {
      hide Agree, StepsFor;
      AgreeFreshId(buckets[..], currentSlot, mid, due, slotOf, nextId);
      id := nextId;
      nextId := nextId + 1;
      var delta := when - lastTick;
      if delta < 0 {
        delta := 0;
      }
      RoundsAgree(delta, tickMs, slotCount);
      var rounds := delta / (tickMs * slotCount);
      Insert(id, delta / tickMs, rounds, interval, callback, mid);
    }

    /** Milliseconds from the last tick to `when`; a time already past counts as now. */
    ghost function Delay(when: int): (d: nat)
      reads this
    {
      if when < lastTick then 0 else when - lastTick
    }

    /** A one-shot timer fires after exactly its steps, a full turn later if those are a
        multiple of the slot count. */
    method AddTimer(when: int, callback: nat) returns (id: nat)
      requires Settled()
      modifies this`nextId, this`timerCount, this`due, this`slotOf, buckets
      ensures Settled() && id == old(nextId) && nextId == id + 1 && id !in old(due)
      ensures due == old(due)[id := Entry(StepsFor(Delay(when) / tickMs, slotCount), 0, callback)]
      ensures InTime(due[id].left, when - lastTick, tickMs, slotCount)
      ensures old(Calm(buckets[..], tickMs)) ==> Calm(buckets[..], tickMs)
    {
      hide Agree, StepsFor, Put, Total, Calm, InTime;
      if Calm(buckets[..], tickMs) {
        StaysCalm(buckets[..], SlotFor(currentSlot, Delay(when) / tickMs, slotCount),
                  Timer(nextId, callback, 0, Delay(when) / tickMs / slotCount), tickMs);
      }
      id := Add(when, 0, callback, |buckets[currentSlot]|);
      StepsInTime(Delay(when), when - lastTick, tickMs, slotCount);
    }

    method AddRepeating(when: int, interval: nat, callback: nat) returns (id: nat)
      requires Settled() && interval > 0
      modifies this`nextId, this`timerCount, this`due, this`slotOf, buckets
      ensures Settled() && id == old(nextId) && nextId == id + 1 && id !in old(due)
      ensures due == old(due)[id := Entry(StepsFor(Delay(when) / tickMs, slotCount), interval, callback)]
      ensures InTime(due[id].left, when - lastTick, tickMs, slotCount)
      ensures old(Calm(buckets[..], tickMs)) && interval >= tickMs ==> Calm(buckets[..], tickMs)
    {
      hide Agree, StepsFor, Put, Total, Calm, InTime;
      if Calm(buckets[..], tickMs) && interval >= tickMs {
        StaysCalm(buckets[..], SlotFor(currentSlot, Delay(when) / tickMs, slotCount),
                  Timer(nextId, callback, interval, Delay(when) / tickMs / slotCount), tickMs);
      }
      id := Add(when, interval, callback, |buckets[currentSlot]|);
      StepsInTime(Delay(when), when - lastTick, tickMs, slotCount);
    }

    /** Take timer `i` out of bucket `s`. */
    method Erase(s: nat, i: nat, ghost mid: nat)
      requires Valid(mid) && s < slotCount && i < |buckets[s]|
      modifies this`timerCount, this`due, this`slotOf, buckets
      ensures Valid(if s == currentSlot && i < mid then mid - 1 else mid)
      ensures due == old(due) - {old(buckets[s][i].id)} && old(buckets[s][i].id) in old(due)
      ensures buckets[..] == old(buckets[..])[s := RemoveAt(old(buckets[s]), i)]
    {
      hide Agree;
      ghost var before := buckets[..];
      AgreeRemove(before, currentSlot, mid, due, slotOf, nextId, s, i);
      TotalUpdate(before, s, RemoveAt(before[s], i));
      due, slotOf := due - {buckets[s][i].id}, slotOf - {buckets[s][i].id};
      buckets[s] := buckets[s][..i] + buckets[s][i + 1..];
      timerCount := timerCount - 1;
      assert buckets[..] == before[s := RemoveAt(before[s], i)];
    }

    /** Exactly the named timer goes, if it is there at all. */
    method Cancel(id: nat)
      requires Settled()
      modifies this`timerCount, this`due, this`slotOf, buckets
      ensures Settled() && due == old(due) - {id}
      ensures old(Calm(buckets[..], tickMs)) ==> Calm(buckets[..], tickMs)
    {
      hide Agree, Calm;
      var s := 0;
      while s < slotCount
        invariant 0 <= s <= slotCount && Settled() && due == old(due) && buckets[..] == old(buckets[..])
        invariant forall s' :: 0 <= s' < s ==> Absent(buckets[s'], id)
      {
        var i := 0;
        while i < |buckets[s]|
          invariant 0 <= i <= |buckets[s]|
          invariant forall k :: 0 <= k < i ==> buckets[s][k].id != id
        {
          if buckets[s][i].id == id {
            if Calm(buckets[..], tickMs) {
              CalmErase(buckets[..], s, i, tickMs);
            }
            Erase(s, i, |buckets[currentSlot]|);
            return;
          }
          i := i + 1;
        }
        s := s + 1;
      }
      NotThere(id);
    }

    lemma NotThere(id: nat)
      requires Settled() && forall s :: 0 <= s < slotCount ==> Absent(buckets[s], id)
      ensures id !in due && due - {id} == due
    {
      if id in due {
        var s, i := FindsTimer(buckets[..], currentSlot, |buckets[currentSlot]|, due, slotOf, nextId, id);
      }
    }

    /** One slot step: move the hand and walk the bucket under it.  The walk ends because no
        two timers due in it have a period below one step.  What it does to the bucket is
        `Walk`, and what that means for all timers is `Stepped`. */
    method AdvanceSlot() returns (fired: seq<Timer>, last: seq<bool>)
      requires Settled() && OneShortDue(buckets[NextSlot(currentSlot, slotCount)], tickMs)
      modifies this`currentSlot, this`nextId, this`timerCount, this`due, this`slotOf, buckets
      ensures Settled() && currentSlot == NextSlot(old(currentSlot), slotCount)
      ensures Stepped(old(due), fired, last, old(nextId), tickMs, slotCount, due)
      ensures nextId == old(nextId) + Repeats(fired)
      ensures exists count: nat ::
                Walk(Cursor(old(buckets[NextSlot(currentSlot, slotCount)]), 0, old(nextId), [], []),
                     tickMs, slotCount, count)
                == Cursor(buckets[currentSlot], |buckets[currentSlot]|, nextId, fired, last)
      ensures old(Calm(buckets[..], tickMs)) ==> Calm(buckets[..], tickMs)
      ensures Gains(old(buckets[..]), buckets[..], currentSlot)
    {
      hide Agree, Midway, Stepped, Total, Sooner, Walk, WalkStep, Tail, OneShortDue, Weights, ToGo, Calm, Gains;
      GainsNone(buckets[..], NextSlot(currentSlot, slotCount));
      ghost var before, firstId := due, nextId;
      MoveHand();
      fired, last := [], [];
      ghost var now := due;
      MidwayStart(now, firstId, tickMs, slotCount);
      var i: nat := 0;
      ghost var start := Cursor(buckets[currentSlot], 0, nextId, [], []);
      ghost var count := 0;
      WalkNone(start, tickMs, slotCount);
      TailIs(start);
      while i < |buckets[currentSlot]|
        invariant Valid(i) && i <= |buckets[currentSlot]| && currentSlot == NextSlot(old(currentSlot), slotCount)
        invariant Midway(now, fired, last, firstId, tickMs, slotCount, due, nextId)
        invariant Walk(start, tickMs, slotCount, count) == Cursor(buckets[currentSlot], i, nextId, fired, last)
        invariant OneShortDue(Tail(Cursor(buckets[currentSlot], i, nextId, fired, last)), tickMs)
        invariant old(Calm(buckets[..], tickMs)) ==> Calm(buckets[..], tickMs)
        invariant Gains(old(buckets[..]), buckets[..], currentSlot)
        decreases Weights(Tail(Cursor(buckets[currentSlot], i, nextId, fired, last)), tickMs, slotCount),
                  ToGo(Tail(Cursor(buckets[currentSlot], i, nextId, fired, last)), tickMs)
      {
        ghost var c := Cursor(buckets[currentSlot], i, nextId, fired, last);
        ghost var so := buckets[..];
        WalkOneMore(start, tickMs, slotCount, count);
        WalkShrinks(c, tickMs, slotCount);
        if buckets[currentSlot][i].rounds > 0 {
          Visit(i, c);
          i := i + 1;
        } else {
          FireAt(i);
          i, fired, last := Fire(i, fired, last, now, firstId);
        }
        GainsMore(old(buckets[..]), so, buckets[..], currentSlot);
        count := count + 1;
      }
      AllAhead(buckets[..], currentSlot, due, slotOf, nextId);
      MidwayEnd(before, fired, last, firstId, tickMs, slotCount, due, nextId);
      MidwayCount(now, fired, last, firstId, tickMs, slotCount, due, nextId);
    }

    /** The hand moves `count` slots, or stops short of the first walk that would not end.  Each
        timer fires exactly at its own step, once, and never early, and every step is one of
        `Stepped`.  All walks end, for every count, if and only if no two timers with a period
        below one step share a slot. */
    method AdvanceSlots(count: nat) returns (steps: seq<seq<Timer>>, hangs: bool, ghost trace: Trace)
      requires Settled()
      modifies this`currentSlot, this`nextId, this`timerCount, this`due, this`slotOf, buckets
      ensures Settled() && |steps| <= count && (hangs <==> |steps| < count)
      ensures hangs ==> !OneShortDue(buckets[NextSlot(currentSlot, slotCount)], tickMs)
      ensures old(Calm(buckets[..], tickMs)) ==> !hangs && Calm(buckets[..], tickMs)
      ensures !old(Calm(buckets[..], tickMs)) && count >= Doom(old(buckets[..])) ==> hangs
      ensures Timeline(old(due), steps, due)
      ensures Traces(trace, steps, tickMs, slotCount) && trace.dues[0] == old(due) && trace.dues[|steps|] == due
    {
      hide Agree, Stepped, Timeline, Total, Calm, Traces, OneShortDue, Walk, Gains, Doomed, Doom;
      AllAhead(buckets[..], currentSlot, due, slotOf, nextId);
      ghost var before, firstId := due, nextId;
      ghost var calm := Calm(buckets[..], tickMs);
      ghost var s, m, doom := 0, 0, 0;
      if !calm {
        s, m, doom := DoomStarts(buckets[..], currentSlot, tickMs);
      }
      ghost var left: int := doom;
      steps, hangs := [], false;
      trace := Trace([due], [], []);
      TimelineStart(due);
      TraceStart(due, tickMs, slotCount);
      while |steps| < count
        invariant |steps| <= count && Settled() && (calm ==> Calm(buckets[..], tickMs))
        invariant Timeline(before, steps, due) && firstId <= nextId
        invariant Traces(trace, steps, tickMs, slotCount) && |trace.dues| == |steps| + 1
        invariant trace.dues[0] == before && trace.dues[|steps|] == due
        invariant !calm ==> left >= 0 && |steps| + left == doom && Doomed(buckets[..], currentSlot, s, m, left, tickMs)
      {
        ghost var mid, id, bs, cur := due, nextId, buckets[..], currentSlot;
        AllAhead(buckets[..], currentSlot, due, slotOf, nextId);
        if calm {
          CalmEnds(buckets[..], NextSlot(currentSlot, slotCount), tickMs);
        }
        if !OneShortDue(buckets[NextSlot(currentSlot, slotCount)], tickMs) {
          hangs := true;
          return;
        }
        var fired, last := AdvanceSlot();
        if !calm {
          ghost var k: nat :| Walk(Cursor(bs[currentSlot], 0, id, [], []), tickMs, slotCount, k)
                           == Cursor(buckets[currentSlot], |buckets[currentSlot]|, nextId, fired, last);
          m := DoomNears(bs, cur, buckets[..], s, m, left, id, k, tickMs);
          left := left - 1;
        }
        TimelineStep(before, steps, mid, fired, last, id, tickMs, slotCount, due);
        AllAhead(buckets[..], currentSlot, due, slotOf, nextId);
        TraceStep(trace, steps, fired, last, id, due, tickMs, slotCount);
        trace := Trace(trace.dues + [due], trace.lasts + [last], trace.firsts + [id]);
        steps := steps + [fired];
      }
      if !calm {
        DoomAhead(buckets[..], currentSlot, s, m, left, tickMs);
      }
    }

    /** As the code stands the last tick is set before the difference to it is taken, so no
        time ever passes: nothing moves and nothing fires. */
    method Tick(now: int)
      requires Settled()
      modifies this`lastTick
      ensures Settled() && lastTick == now
    {
      hide Agree;
      lastTick := now;
      var elapsed := now - lastTick;
      assert elapsed <= 0;
    }

    /** How long the loop may sleep: forever exactly when nothing is due, and otherwise not
        past the moment any timer fires. */
    method NextTimeout() returns (ms: int)
      requires Settled()
      ensures ms == -1 <==> due == map[]
      ensures ms != -1 ==> exists id :: id in due && ms == tickMs * (due[id].left % slotCount)
      ensures forall id :: id in due ==> 0 <= ms <= tickMs * (due[id].left % slotCount) <= tickMs * due[id].left
    {
      hide Agree, SlotAt, Base, Total;
      NoTimers();
      if timerCount == 0 {
        return -1;
      }
      var offset := 0;
      while offset < slotCount
        invariant 0 <= offset <= slotCount
        invariant forall o :: 0 <= o < offset ==> buckets[SlotAt(currentSlot, o, slotCount)] == []
      {
        SlotAtModulo(currentSlot, offset, slotCount);
        var slot := (currentSlot + offset) % slotCount;
        if buckets[slot] != [] {
          FirstBusy(offset);
          return offset * tickMs;
        }
        offset := offset + 1;
      }
      NoneAhead();
      assert false;
    }

    /** The first slot with timers is as far ahead as the nearest timer, whole turns aside. */
    lemma FirstBusy(offset: nat)
      requires Settled() && offset < slotCount && buckets[SlotAt(currentSlot, offset, slotCount)] != []
      requires forall o :: 0 <= o < offset ==> buckets[SlotAt(currentSlot, o, slotCount)] == []
      ensures exists id :: id in due && offset * tickMs == tickMs * (due[id].left % slotCount)
      ensures forall id :: id in due ==>
                offset * tickMs <= tickMs * (due[id].left % slotCount) <= tickMs * due[id].left
    {
      hide Agree, SlotAt, Base, Total;
      var id := BusyTimer(offset);
      assert offset * tickMs == tickMs * (due[id].left % slotCount);
      forall id | id in due
        ensures offset * tickMs <= tickMs * (due[id].left % slotCount) <= tickMs * due[id].left
      {
        SleepsEnough(id, offset);
        ScaleUp(offset, due[id].left % slotCount, tickMs);
        ScaleUp(due[id].left % slotCount, due[id].left, tickMs);
      }
    }

    lemma BusyTimer(offset: nat) returns (id: nat)
      requires Settled() && offset < slotCount && buckets[SlotAt(currentSlot, offset, slotCount)] != []
      ensures id in due && due[id].left % slotCount == offset
    {
      var s := SlotAt(currentSlot, offset, slotCount);
      var t := buckets[..][s][0];
      id := t.id;
      assert Tells(buckets[..][s], Base(currentSlot, s, slotCount), slotCount, due) by {
        if s == currentSlot {
          assert buckets[..][s][..|buckets[s]|] == buckets[..][s];
        }
      }
      AheadIsRemainder(currentSlot, s, t.rounds, slotCount);
    }

    lemma NoTimers()
      requires Settled()
      ensures timerCount == 0 <==> due == map[]
    {
      hide Agree;
      TotalZero(buckets[..]);
      if timerCount == 0 {
        assert forall s :: 0 <= s < slotCount ==> buckets[s] == buckets[..][s];
        NothingDue();
      } else {
        var s :| 0 <= s < |buckets[..]| && buckets[..][s] != [];
        SomethingDue(s);
      }
    }

    /** All slots from the hand round to it again are all slots. */
    lemma NoneAhead()
      requires Settled() && forall o :: 0 <= o < slotCount ==> buckets[SlotAt(currentSlot, o, slotCount)] == []
      ensures timerCount == 0
    {
      hide Agree;
      forall s | 0 <= s < slotCount ensures buckets[..][s] == [] {
        var o := Ahead(currentSlot, s, slotCount);
        assert buckets[SlotAt(currentSlot, o, slotCount)] == [];
      }
      TotalZero(buckets[..]);
    }

    lemma NothingDue()
      requires Settled() && forall s :: 0 <= s < slotCount ==> buckets[s] == []
      ensures due == map[]
    {
      if id :| id in due {
        var s, i := FindsTimer(buckets[..], currentSlot, |buckets[currentSlot]|, due, slotOf, nextId, id);
      }
    }

    lemma SomethingDue(s: nat)
      requires Settled() && s < slotCount && buckets[s] != []
      ensures due != map[]
    {
      HoldsHere(buckets[..][s], s, slotOf, 0);
    }

    lemma SleepsEnough(id: nat, offset: nat)
      requires Settled() && id in due && offset < slotCount
      requires forall o :: 0 <= o < offset ==> buckets[SlotAt(currentSlot, o, slotCount)] == []
      ensures offset <= due[id].left % slotCount
    {
      var s, i := FindsTimer(buckets[..], currentSlot, |buckets[currentSlot]|, due, slotOf, nextId, id);
      var o := Ahead(currentSlot, s, slotCount);
      assert buckets[SlotAt(currentSlot, o, slotCount)] == buckets[s] != [];
      AheadIsRemainder(currentSlot, s, buckets[s][i].rounds, slotCount);
    }

    lemma FireAt(i: nat)
      requires Valid(i) && i < |buckets[currentSlot]| && buckets[currentSlot][i].rounds == 0
      ensures var t := buckets[currentSlot][i];
              t.id in due && due[t.id] == Entry(0, t.interval, t.callback)
    {
      assert buckets[..][currentSlot][i..][0] == buckets[currentSlot][i];
    }

    method MoveHand()
      requires Settled()
      modifies this`currentSlot, this`due
      ensures Valid(0) && due == Sooner(old(due)) && currentSlot == NextSlot(old(currentSlot), slotCount)
      ensures forall id :: id in old(due) ==> old(due)[id].left > 0
      ensures forall id :: id in due ==> id < nextId
    {
      hide Agree;
      AllAhead(buckets[..], currentSlot, due, slotOf, nextId);
      AgreeTurn(buckets[..], currentSlot, due, slotOf, nextId);
      NextIsModulo(currentSlot, slotCount);
      currentSlot := (currentSlot + 1) % slotCount;
      due := Sooner(due);
    }

    method Visit(i: nat, ghost c: Cursor)
      requires Valid(i) && i < |buckets[currentSlot]| && buckets[currentSlot][i].rounds > 0
      requires c.bucket == buckets[currentSlot] && c.at == i
      modifies buckets
      ensures Valid(i + 1) && |buckets[currentSlot]| == old(|buckets[currentSlot]|)
      ensures WalkStep(c, tickMs, slotCount) == c.(bucket := buckets[currentSlot], at := i + 1)
      ensures Gains(old(buckets[..]), buckets[..], currentSlot)
      ensures old(Calm(buckets[..], tickMs)) ==> Calm(buckets[..], tickMs)
    {
      hide Agree, Calm;
      ghost var before := buckets[..];
      var t := buckets[currentSlot][i];
      AgreeVisit(before, currentSlot, i, due, slotOf, nextId);
      TotalUpdate(before, currentSlot, before[currentSlot][i := t.(rounds := t.rounds - 1)]);
      if Calm(before, tickMs) {
        CalmVisit(before, currentSlot, i, t.rounds - 1, tickMs);
      }
      buckets[currentSlot] := buckets[currentSlot][i := t.(rounds := t.rounds - 1)];
      assert buckets[..] == before[currentSlot := before[currentSlot][i := t.(rounds := t.rounds - 1)]];
    }

    /** A timer's turn: out of the bucket, call it, and add it again if it repeats.  The
        iterator that erasing the last timer leaves at the end stays at the end. */
    method Fire(i: nat, fired: seq<Timer>, last: seq<bool>, ghost now: Dues, ghost firstId: nat)
        returns (at: nat, fired': seq<Timer>, last': seq<bool>)
      requires Valid(i) && i < |buckets[currentSlot]| && buckets[currentSlot][i].rounds == 0
      requires var t := buckets[currentSlot][i]; t.id in due && due[t.id] == Entry(0, t.interval, t.callback)
      requires Midway(now, fired, last, firstId, tickMs, slotCount, due, nextId)
      modifies this`nextId, this`timerCount, this`due, this`slotOf, buckets
      ensures Valid(at) && at <= |buckets[currentSlot]|
      ensures Midway(now, fired', last', firstId, tickMs, slotCount, due, nextId)
      ensures WalkStep(old(Cursor(buckets[currentSlot], i, nextId, fired, last)), tickMs, slotCount)
           == Cursor(buckets[currentSlot], at, nextId, fired', last')
      ensures Gains(old(buckets[..]), buckets[..], currentSlot)
      ensures old(Calm(buckets[..], tickMs)) ==> Calm(buckets[..], tickMs)
    {
      hide Agree, Midway, Calm, Total, NoShort;
      var t := buckets[currentSlot][i];
      ghost var before := buckets[..];
      var atEnd := i == |buckets[currentSlot]| - 1;
      MidwayFire(now, fired, last, firstId, tickMs, slotCount, due, nextId, t, atEnd);
      if Calm(before, tickMs) {
        CalmErase(before, currentSlot, i, tickMs);
      }
      Erase(currentSlot, i, i);
      assert buckets[..][currentSlot] == buckets[currentSlot];
      fired', last' := fired + [t], last + [atEnd];
      at := i;
      if t.interval > 0 {
        at := BringBack(t, i);
      }
    }

    /** Add a timer that has fired again; with the walk at its end the iterator stays there. */
    method BringBack(t: Timer, i: nat) returns (at: nat)
      requires Valid(i) && i <= |buckets[currentSlot]| && t.interval > 0
      modifies this`nextId, this`timerCount, this`due, this`slotOf, buckets
      ensures Valid(at) && at <= |buckets[currentSlot]| && nextId == old(nextId) + 1
      ensures due == Refire(old(due), t, i == old(|buckets[currentSlot]|), old(nextId), tickMs, slotCount)
      ensures Gains(old(buckets[..]), buckets[..], currentSlot)
      ensures (buckets[currentSlot], at) == Back(old(buckets[currentSlot]), i, t, old(nextId), tickMs, slotCount)
      ensures old(Calm(buckets[..], tickMs) && (Short(t, tickMs) ==> NoShort(buckets[currentSlot], tickMs))) ==>
                Calm(buckets[..], tickMs)
    {
      hide Agree, Calm, Total, StepsFor, NoShort, Put;
      ghost var before := buckets[..];
      ghost var k := t.interval / tickMs;
      var atEnd := i == |buckets[currentSlot]|;
      OnTime(k, slotCount);
      var id := Add(lastTick + t.interval, t.interval, t.callback, i);
      PutIn(before, SlotFor(currentSlot, k, slotCount), currentSlot,
            Timer(id, t.callback, t.interval, k / slotCount), tickMs);
      if Calm(before, tickMs) && (Short(t, tickMs) ==> NoShort(before[currentSlot], tickMs)) {
        ComesBack(before, currentSlot, k, t, Timer(id, t.callback, t.interval, k / slotCount), tickMs, slotCount);
      }
      assert buckets[..][currentSlot] == buckets[currentSlot];
      at := if atEnd then |buckets[currentSlot]| else i;
      PutGains(before, SlotFor(currentSlot, k, slotCount), currentSlot,
               Timer(id, t.callback, t.interval, k / slotCount));
    }
  }

  /** The bucket and the iterator after a timer has come back to it, or gone elsewhere. */
  function Back(b: seq<Timer>, i: nat, t: Timer, id: nat, tick: nat, n: nat): (r: (seq<Timer>, nat))
    requires tick > 0 && n > 0
  {
    if WholeTurns(t.interval, tick, n)
    then (b + [Timer(id, t.callback, t.interval, t.interval / tick / n)], if i == |b| then |b| + 1 else i)
    else (b, i)
  }

  lemma OnTime(k: nat, n: nat)
    requires n > 0
    ensures k % n != 0 ==> StepsFor(k, n) == k
  {
  }

  /** The slot `k` steps ahead of the hand. */
  function SlotFor(cur: nat, k: nat, n: nat): (s: nat)
    requires cur < n
    ensures s < n
  {
    (cur + k) % n
  }

  /** One timer more at the end of a bucket. */
  function Put(bs: seq<seq<Timer>>, s: nat, t: Timer): (r: seq<seq<Timer>>)
    ensures |r| == |bs|
  {
    if s < |bs| then bs[s := bs[s] + [t]] else bs
  }

  /** What is due with a timer added `k` steps ahead.  In the middle of a walk one that goes to
      the current bucket is still to be visited, and so is not late. */
  function Later(due: Dues, id: nat, k: nat, n: nat, walking: bool, interval: nat, callback: nat): (d: Dues)
    requires n > 0
  {
    due[id := Entry(if k % n == 0 && walking then k else StepsFor(k, n), interval, callback)]
  }

  /** How much of the current bucket has been visited after a timer has been added. */
  function MidAfter(mid: nat, size: nat, k: nat, n: nat): (m: nat)
    requires n > 0
  {
    if k % n == 0 && mid == size then mid + 1 else mid
  }

  lemma StaysCalm(bs: seq<seq<Timer>>, s: nat, t: Timer, tick: nat)
    requires Calm(bs, tick) && s < |bs| && !Short(t, tick)
    ensures Calm(Put(bs, s, t), tick)
  {
    CalmInsert(bs, s, t, tick);
  }

  lemma DoomAhead(bs: seq<seq<Timer>>, cur: nat, s: nat, m: nat, left: nat, tick: nat)
    requires Doomed(bs, cur, s, m, left, tick)
    ensures left > 0
  {
  }

  lemma PutGains(bs: seq<seq<Timer>>, s: nat, cur: nat, t: Timer)
    ensures Gains(bs, Put(bs, s, t), cur)
  {
  }

  lemma GainsNone(bs: seq<seq<Timer>>, cur: nat)
    ensures Gains(bs, bs, cur)
  {
  }

  lemma PutIn(bs: seq<seq<Timer>>, s: nat, cur: nat, t: Timer, tick: nat)
    requires s < |bs| && cur < |bs|
    ensures Put(bs, s, t)[cur] == if s == cur then bs[cur] + [t] else bs[cur]
  {
  }

  /** A short timer comes back to the bucket it has just left; the others are not short. */
  lemma ComesBack(bs: seq<seq<Timer>>, cur: nat, k: nat, t: Timer, t': Timer, tick: nat, n: nat)
    requires n == |bs| && cur < n && tick > 0 && Calm(bs, tick) && t'.interval == t.interval
    requires k == t.interval / tick && (Short(t, tick) ==> NoShort(bs[cur], tick))
    ensures Calm(Put(bs, (cur + k) % n, t'), tick)
  {
    hide Calm, NoShort;
    if Short(t, tick) {
      ShortIsWhole(t.interval, tick, n);
      Remainder(cur, 0, cur, n);
    }
    CalmInsert(bs, (cur + k) % n, t', tick);
  }

  /** Where the steps ahead are, in terms of steps left. */
  lemma StepsAhead(cur: nat, k: nat, n: nat, walking: bool)
    requires cur < n
    ensures (cur + k) % n < n
    ensures LeftIn(cur, (cur + k) % n, n, walking, k / n)
         == if k % n == 0 && walking then k else StepsFor(k, n)
  {
    SlotAndRounds(cur, k, n);
    DivMod(k, n);
  }
}
