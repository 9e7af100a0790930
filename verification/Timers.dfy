/** Timers in buckets: slots and rounds on the one side, steps left on the other. */
module Timers {

  /** A timer in a bucket; an interval of 0 marks a one-shot. */
  datatype Timer = Timer(id: nat, callback: nat, interval: nat, rounds: nat)

  /** What a timer amounts to: how many slot steps until it fires. */
  datatype Entry = Entry(left: nat, interval: nat, callback: nat)

  type Dues = map<nat, Entry>

  /** Slot steps from `cur` until slot `s` is visited: 1 up to the slot count. */
  function Base(cur: nat, s: nat, n: nat): (d: nat)
    requires cur < n && s < n
    ensures 1 <= d <= n
  {
    if s > cur then s - cur else s + n - cur
  }

  function NextSlot(cur: nat, n: nat): (c: nat)
    requires cur < n
    ensures c < n
  {
    if cur + 1 == n then 0 else cur + 1
  }

  /** Steps until a timer fires that is added `k` steps ahead: a full turn late when the
      delay is a whole number of turns, 0 included. */
  function StepsFor(k: nat, n: nat): (left: nat)
    requires n > 0
  {
    if k % n == 0 then k + n else k
  }

  lemma SlotAndRounds(cur: nat, k: nat, n: nat)
    requires cur < n
    ensures (cur + k) % n < n && Base(cur, (cur + k) % n, n) + k / n * n == StepsFor(k, n)
    ensures (cur + k) % n == cur <==> k % n == 0
  {
    var q, r := k / n, k % n;
    assert k == q * n + r;
    var slot := if cur + r < n then cur + r else cur + r - n;
    var turns := if cur + r < n then q else q + 1;
    assert cur + k == turns * n + slot;
    Remainder(cur + k, turns, slot, n);
  }

  /** The steps left are the whole steps in the time ahead, none if it is past, or a full turn
      more if those are whole turns. */
  predicate InTime(left: nat, ahead: int, tick: nat, n: nat)
    requires tick > 0 && n > 0
  {
    var k := if left % n == 0 then left - n else left;
    if ahead < 0 then k == 0 else k * tick <= ahead < (k + 1) * tick
  }

  lemma StepsInTime(delay: nat, ahead: int, tick: nat, n: nat)
    requires tick > 0 && n > 0 && delay == if ahead < 0 then 0 else ahead
    ensures InTime(StepsFor(delay / tick, n), ahead, tick, n)
  {
    var k := delay / tick;
    if k % n == 0 {
      Remainder(k + n, k / n + 1, 0, n);
    }
  }

  /** How many whole times `b` goes into `a`. */
  function Quot(a: nat, b: nat): (q: nat)
    requires b > 0
  {
    a / b
  }

  lemma Multiples(d: int, n: nat)
    ensures d >= 1 ==> d * n >= n
    ensures d <= -1 ==> d * n <= -(n as int)
  {
  }

  lemma Remainder(x: nat, q: nat, r: nat, n: nat)
    requires r < n && x == q * n + r
    ensures x % n == r && x / n == q
  {
    var d := x / n - q;
    assert x == (x / n) * n + x % n;
    assert d * n == r - x % n;
    Multiples(d, n);
  }

  lemma DivMod(x: nat, n: nat)
    requires n > 0
    ensures x == n * (x / n) + x % n && x % n < n
  {
  }

  lemma Expand(tick: nat, n: nat, q: nat, r: nat, e: nat)
    ensures tick * (n * q + r) + e == q * (tick * n) + (r * tick + e)
  {
    assert tick * (n * q + r) == tick * (n * q) + tick * r;
    assert tick * (n * q) == (tick * n) * q;
  }

  lemma WithinTurn(tick: nat, n: nat, r: nat, e: nat)
    requires r < n && e < tick
    ensures r * tick + e < tick * n
  {
    assert (r + 1) * tick <= n * tick;
  }

  /** Rounds computed from the delay are those computed from the step count. */
  lemma RoundsAgree(delta: nat, tick: nat, n: nat)
    requires tick > 0 && n > 0
    ensures tick * n > 0 && delta / (tick * n) == delta / tick / n
  {
    var k, e := delta / tick, delta % tick;
    var q, r := k / n, k % n;
    DivMod(delta, tick);
    DivMod(k, n);
    Expand(tick, n, q, r, e);
    WithinTurn(tick, n, r, e);
    Remainder(delta, q, r * tick + e, tick * n);
  }

  // ---- buckets ----

  function Ids(b: seq<Timer>): (s: set<nat>) {
    set t | t in b :: t.id
  }

  predicate Distinct(b: seq<Timer>) {
    forall i, j :: 0 <= i < j < |b| ==> b[i].id != b[j].id
  }

  /** Each timer of `b` has the steps left that its rounds and the slot's distance say. */
  predicate Tells(b: seq<Timer>, base: nat, n: nat, due: Dues) {
    forall i :: 0 <= i < |b| ==>
      b[i].id in due && due[b[i].id] == Entry(base + b[i].rounds * n, b[i].interval, b[i].callback)
  }

  function Total(bs: seq<seq<Timer>>): (n: nat) {
    if bs == [] then 0 else |bs[0]| + Total(bs[1..])
  }

  lemma {:induction false} TotalUpdate(bs: seq<seq<Timer>>, s: nat, b: seq<Timer>)
    requires s < |bs|
    ensures Total(bs[s := b]) == Total(bs) - |bs[s]| + |b|
    ensures Total(bs) >= |bs[s]|
  {
    if s == 0 {
      assert bs[s := b][1..] == bs[1..];
    } else {
      assert bs[s := b][1..] == bs[1..][s - 1 := b];
      TotalUpdate(bs[1..], s - 1, b);
    }
  }

  lemma {:induction false} TotalZero(bs: seq<seq<Timer>>)
    ensures Total(bs) == 0 <==> forall s :: 0 <= s < |bs| ==> bs[s] == []
  {
    if bs != [] {
      TotalZero(bs[1..]);
      assert forall s :: 1 <= s < |bs| ==> bs[s] == bs[1..][s - 1];
    }
  }

  // ---- one step of the specification ----

  /** One slot step later. */
  function Sooner(due: Dues): (d: Dues) {
    map id | id in due && due[id].left > 0 :: due[id].(left := due[id].left - 1)
  }

  function Without(due: Dues, ids: set<nat>): (d: Dues) {
    map id | id in due && id !in ids :: due[id]
  }

  // ---- slots and rounds against steps left ----

  /** A bucket holds exactly the timers that belong to its slot, each once. */
  ghost predicate Holds(b: seq<Timer>, s: nat, slotOf: map<nat, nat>) {
    Distinct(b) && forall id :: id in slotOf && slotOf[id] == s <==> id in Ids(b)
  }

  /** The buckets tell the same as `due`.  In the middle of a walk the first `mid` timers of
      the current bucket have been visited and the others have not. */
  ghost predicate Agree(bs: seq<seq<Timer>>, cur: nat, mid: nat, due: Dues, slotOf: map<nat, nat>, nextId: nat) {
    && cur < |bs| && due.Keys == slotOf.Keys
    && (forall id :: id in slotOf ==> slotOf[id] < |bs| && id < nextId)
    && (forall s :: 0 <= s < |bs| ==> Holds(bs[s], s, slotOf))
    && (forall s :: 0 <= s < |bs| && s != cur ==> Tells(bs[s], Base(cur, s, |bs|), |bs|, due))
    && mid <= |bs[cur]|
    && Tells(bs[cur][..mid], |bs|, |bs|, due) && Tells(bs[cur][mid..], 0, |bs|, due)
  }

  lemma TellsMore(b: seq<Timer>, base: nat, n: nat, due: Dues, id: nat, e: Entry)
    requires Tells(b, base, n, due) && id !in due
    ensures Tells(b, base, n, due[id := e])
  {
  }

  lemma HoldsOther(b: seq<Timer>, s: nat, slotOf: map<nat, nat>, id: nat, s': nat)
    requires Holds(b, s, slotOf) && id !in slotOf && s' != s
    ensures Holds(b, s, slotOf[id := s'])
  {
  }

  lemma HoldsNew(b: seq<Timer>, s: nat, slotOf: map<nat, nat>, t: Timer)
    requires Holds(b, s, slotOf) && t.id !in slotOf
    ensures Holds(b + [t], s, slotOf[t.id := s])
  {
    assert forall i :: 0 <= i < |b| ==> b[i].id in Ids(b);
    assert forall i :: 0 <= i < |b| ==> b[i].id != t.id;
    forall id ensures id in Ids(b + [t]) <==> id in Ids(b) || id == t.id {
      if id == t.id {
        assert t in b + [t];
      }
      if id in Ids(b) {
        var u :| u in b && u.id == id;
        assert u in b + [t];
      }
    }
  }

  /** Steps left for a timer put into a slot.  In the middle of a walk the end of the current
      bucket is still to be visited, unless the walk has come to its end. */
  function LeftIn(cur: nat, slot: nat, n: nat, walking: bool, rounds: nat): (left: nat)
    requires cur < n && slot < n
  {
    (if walking && slot == cur then 0 else Base(cur, slot, n)) + rounds * n
  }

  lemma AgreeInsert(bs: seq<seq<Timer>>, cur: nat, mid: nat, due: Dues, slotOf: map<nat, nat>, nextId: nat,
                    slot: nat, t: Timer)
    requires Agree(bs, cur, mid, due, slotOf, nextId)
    requires slot < |bs| && t.id !in due && t.id < nextId
    ensures Agree(bs[slot := bs[slot] + [t]], cur, if slot == cur && mid == |bs[cur]| then mid + 1 else mid,
                  due[t.id := Entry(LeftIn(cur, slot, |bs|, mid < |bs[cur]|, t.rounds), t.interval, t.callback)],
                  slotOf[t.id := slot], nextId)
  {
    hide Tells, Holds;
    var n := |bs|;
    var e := Entry(LeftIn(cur, slot, n, mid < |bs[cur]|, t.rounds), t.interval, t.callback);
    var bs', due', slotOf' := bs[slot := bs[slot] + [t]], due[t.id := e], slotOf[t.id := slot];
    forall s | 0 <= s < n ensures Holds(bs'[s], s, slotOf') {
      if s == slot {
        HoldsNew(bs[s], s, slotOf, t);
      } else {
        HoldsOther(bs[s], s, slotOf, t.id, slot);
      }
    }
    forall s | 0 <= s < n && s != cur ensures Tells(bs'[s], Base(cur, s, n), n, due') {
      TellsMore(bs[s], Base(cur, s, n), n, due, t.id, e);
      if s == slot {
        TellsAppend(bs[s], Base(cur, s, n), n, due', t);
      }
    }
    TellsMore(bs[cur][..mid], n, n, due, t.id, e);
    TellsMore(bs[cur][mid..], 0, n, due, t.id, e);
    if slot == cur {
      AppendParts(bs[cur], mid, t);
      if mid == |bs[cur]| {
        TellsAppend(bs[cur][..mid], n, n, due', t);
      } else {
        TellsAppend(bs[cur][mid..], 0, n, due', t);
      }
    }
  }

  lemma AppendParts(b: seq<Timer>, mid: nat, t: Timer)
    requires mid <= |b|
    ensures mid < |b| ==> (b + [t])[..mid] == b[..mid] && (b + [t])[mid..] == b[mid..] + [t]
    ensures mid == |b| ==> (b + [t])[..mid + 1] == b[..mid] + [t] && (b + [t])[mid + 1..] == b[mid..]
  {
  }

  lemma TellsAppend(b: seq<Timer>, base: nat, n: nat, due: Dues, t: Timer)
    requires Tells(b, base, n, due)
    requires t.id in due && due[t.id] == Entry(base + t.rounds * n, t.interval, t.callback)
    ensures Tells(b + [t], base, n, due)
  {
  }

  lemma AgreeFreshId(bs: seq<seq<Timer>>, cur: nat, mid: nat, due: Dues, slotOf: map<nat, nat>, nextId: nat)
    requires Agree(bs, cur, mid, due, slotOf, nextId)
    ensures Agree(bs, cur, mid, due, slotOf, nextId + 1) && nextId !in due
  {
  }

  /** Which bucket a timer is in, and that it is at least one step away between walks. */
  lemma FindsTimer(bs: seq<seq<Timer>>, cur: nat, mid: nat, due: Dues, slotOf: map<nat, nat>, nextId: nat, id: nat)
      returns (s: nat, i: nat)
    requires Agree(bs, cur, mid, due, slotOf, nextId) && id in due
    ensures s < |bs| && slotOf[id] == s && i < |bs[s]| && bs[s][i].id == id
    ensures due[id].interval == bs[s][i].interval && due[id].callback == bs[s][i].callback
    ensures (s == cur && mid <= i) || due[id].left >= Base(cur, s, |bs|)
    ensures s == cur && mid <= i ==> due[id].left == bs[s][i].rounds * |bs|
  {
    hide Holds, Tells;
    s := slotOf[id];
    i := HoldsFinds(bs[s], s, slotOf, id);
    if s != cur {
      TellsAbout(bs[s], Base(cur, s, |bs|), |bs|, due, i);
    } else if i < mid {
      assert bs[s][..mid][i] == bs[s][i];
      TellsAbout(bs[s][..mid], |bs|, |bs|, due, i);
    } else {
      assert bs[s][mid..][i - mid] == bs[s][i];
      TellsAbout(bs[s][mid..], 0, |bs|, due, i - mid);
    }
  }

  lemma HoldsFinds(b: seq<Timer>, s: nat, slotOf: map<nat, nat>, id: nat) returns (i: nat)
    requires Holds(b, s, slotOf) && id in slotOf && slotOf[id] == s
    ensures i < |b| && b[i].id == id
  {
    assert id in Ids(b);
    var t :| t in b && t.id == id;
    i :| 0 <= i < |b| && b[i] == t;
  }

  lemma TellsAbout(b: seq<Timer>, base: nat, n: nat, due: Dues, i: nat)
    requires Tells(b, base, n, due) && i < |b|
    ensures b[i].id in due && due[b[i].id] == Entry(base + b[i].rounds * n, b[i].interval, b[i].callback)
    ensures due[b[i].id].left >= base
  {
  }

  // ---- the hand moves on ----

  lemma TellsSooner(b: seq<Timer>, base: nat, n: nat, due: Dues)
    requires Tells(b, base, n, due) && base > 0
    ensures Tells(b, base - 1, n, Sooner(due))
  {
  }

  lemma SoonerKeys(due: Dues)
    requires forall id :: id in due ==> due[id].left > 0
    ensures Sooner(due).Keys == due.Keys
  {
  }

  /** Moving the hand brings every timer one step closer; the new current bucket is next to
      be walked. */
  lemma AgreeTurn(bs: seq<seq<Timer>>, cur: nat, due: Dues, slotOf: map<nat, nat>, nextId: nat)
    requires cur < |bs| && Agree(bs, cur, |bs[cur]|, due, slotOf, nextId)
    ensures Agree(bs, NextSlot(cur, |bs|), 0, Sooner(due), slotOf, nextId)
    ensures Sooner(due).Keys == due.Keys
  {
    hide Tells, Holds, Sooner;
    var n, cur' := |bs|, NextSlot(cur, |bs|);
    AllAhead(bs, cur, due, slotOf, nextId);
    SoonerKeys(due);
    assert bs[cur][..|bs[cur]|] == bs[cur];
    forall s | 0 <= s < n ensures Tells(bs[s], Base(cur, s, n) - 1, n, Sooner(due)) {
      TellsSooner(bs[s], Base(cur, s, n), n, due);
    }
    assert bs[cur'][0..] == bs[cur'];
    TellsNone(n, n, Sooner(due));
    assert bs[cur'][..0] == [];
  }

  lemma TellsNone(base: nat, n: nat, due: Dues)
    ensures Tells([], base, n, due)
  {
  }

  /** Visiting a timer with rounds to go: one round less, the same steps left. */
  lemma AgreeVisit(bs: seq<seq<Timer>>, cur: nat, mid: nat, due: Dues, slotOf: map<nat, nat>, nextId: nat)
    requires Agree(bs, cur, mid, due, slotOf, nextId) && mid < |bs[cur]| && bs[cur][mid].rounds > 0
    ensures var t := bs[cur][mid];
            Agree(bs[cur := bs[cur][mid := t.(rounds := t.rounds - 1)]], cur, mid + 1, due, slotOf, nextId)
  {
    var n, b, t := |bs|, bs[cur], bs[cur][mid];
    var t' := t.(rounds := t.rounds - 1);
    var b' := b[mid := t'];
    assert b[mid..][0] == t;
    assert n + t'.rounds * n == t.rounds * n;
    TellsAppend(b[..mid], n, n, due, t');
    assert b'[..mid + 1] == b[..mid] + [t'];
    assert b'[mid + 1..] == b[mid..][1..];
    TellsTail(b[mid..], 0, n, due);
    HoldsSameIds(b, b', cur, slotOf);
    hide Tells, Holds;
  }

  lemma TellsTail(b: seq<Timer>, base: nat, n: nat, due: Dues)
    requires Tells(b, base, n, due) && b != []
    ensures Tells(b[1..], base, n, due)
  {
  }

  lemma HoldsSameIds(b: seq<Timer>, b': seq<Timer>, s: nat, slotOf: map<nat, nat>)
    requires Holds(b, s, slotOf) && |b| == |b'| && forall i :: 0 <= i < |b| ==> b[i].id == b'[i].id
    ensures Holds(b', s, slotOf)
  {
    forall id ensures id in Ids(b') <==> id in Ids(b) {
      if id in Ids(b) {
        var i :| 0 <= i < |b| && b[i].id == id;
        assert b'[i] in b';
      }
      if id in Ids(b') {
        var i :| 0 <= i < |b'| && b'[i].id == id;
        assert b[i] in b;
      }
    }
  }

  function RemoveAt(b: seq<Timer>, i: nat): (r: seq<Timer>)
    requires i < |b|
    ensures |r| == |b| - 1
  {
    b[..i] + b[i + 1..]
  }

  lemma HoldsRemoved(b: seq<Timer>, s: nat, slotOf: map<nat, nat>, i: nat)
    requires Holds(b, s, slotOf) && i < |b|
    ensures Holds(RemoveAt(b, i), s, slotOf - {b[i].id})
  {
    var r, x := RemoveAt(b, i), b[i].id;
    assert forall k :: 0 <= k < |r| ==> r[k] == b[if k < i then k else k + 1];
    forall id ensures id in Ids(r) <==> id in Ids(b) && id != x {
      if id in Ids(r) {
        var k :| 0 <= k < |r| && r[k].id == id;
        assert b[if k < i then k else k + 1] in b;
      }
      if id in Ids(b) && id != x {
        var k :| 0 <= k < |b| && b[k].id == id;
        assert r[if k < i then k else k - 1] in r;
      }
    }
  }

  predicate Absent(b: seq<Timer>, id: nat) {
    forall i :: 0 <= i < |b| ==> b[i].id != id
  }

  lemma HoldsElsewhere(b: seq<Timer>, s: nat, slotOf: map<nat, nat>, id: nat)
    requires Holds(b, s, slotOf) && id in slotOf && slotOf[id] != s
    ensures Holds(b, s, slotOf - {id}) && Absent(b, id)
  {
    assert forall i :: 0 <= i < |b| ==> b[i].id in Ids(b);
  }

  lemma HoldsHere(b: seq<Timer>, s: nat, slotOf: map<nat, nat>, i: nat)
    requires Holds(b, s, slotOf) && i < |b|
    ensures b[i].id in slotOf && slotOf[b[i].id] == s && Distinct(b)
  {
    assert b[i].id in Ids(b);
  }

  lemma TellsWithout(b: seq<Timer>, base: nat, n: nat, due: Dues, id: nat)
    requires Tells(b, base, n, due) && Absent(b, id)
    ensures Tells(b, base, n, due - {id})
  {
  }

  /** Taking one timer out, wherever it is. */
  lemma AgreeRemove(bs: seq<seq<Timer>>, cur: nat, mid: nat, due: Dues, slotOf: map<nat, nat>, nextId: nat, s: nat,
                    i: nat)
    requires Agree(bs, cur, mid, due, slotOf, nextId) && s < |bs| && i < |bs[s]|
    ensures var id := bs[s][i].id;
            && id in due && slotOf[id] == s
            && Agree(bs[s := RemoveAt(bs[s], i)], cur, if s == cur && i < mid then mid - 1 else mid,
                     due - {id}, slotOf - {id}, nextId)
  {
    hide Tells, Holds, Distinct, Absent, RemoveAt;
    var n, id := |bs|, bs[s][i].id;
    HoldsHere(bs[s], s, slotOf, i);
    HoldsRemoved(bs[s], s, slotOf, i);
    forall s' | 0 <= s' < n && s' != s ensures Holds(bs[s'], s', slotOf - {id}) && Absent(bs[s'], id) {
      HoldsElsewhere(bs[s'], s', slotOf, id);
    }
    forall s' | 0 <= s' < n && s' != s && s' != cur ensures Tells(bs[s'], Base(cur, s', n), n, due - {id}) {
      TellsWithout(bs[s'], Base(cur, s', n), n, due, id);
    }
    if s != cur {
      TellsRemoved(bs[s], Base(cur, s, n), n, due, i);
      AbsentParts(bs[cur], id, mid);
      TellsWithout(bs[cur][..mid], n, n, due, id);
      TellsWithout(bs[cur][mid..], 0, n, due, id);
    } else {
      PartsRemoved(bs[cur], mid, i, n, due);
    }
  }

  lemma AbsentParts(b: seq<Timer>, id: nat, mid: nat)
    requires Absent(b, id) && mid <= |b|
    ensures Absent(b[..mid], id) && Absent(b[mid..], id)
  {
  }

  /** The same within the current bucket, whose visited part counts differently. */
  lemma PartsRemoved(b: seq<Timer>, mid: nat, i: nat, n: nat, due: Dues)
    requires Distinct(b) && i < |b| && mid <= |b|
    requires Tells(b[..mid], n, n, due) && Tells(b[mid..], 0, n, due)
    ensures var m := if i < mid then mid - 1 else mid;
            var r := RemoveAt(b, i);
            Tells(r[..m], n, n, due - {b[i].id}) && Tells(r[m..], 0, n, due - {b[i].id})
  {
    var id := b[i].id;
    if i < mid {
      TellsRemoved(b[..mid], n, n, due, i);
      TellsWithout(b[mid..], 0, n, due, id);
      assert RemoveAt(b, i)[..mid - 1] == RemoveAt(b[..mid], i);
      assert RemoveAt(b, i)[mid - 1..] == b[mid..];
    } else {
      TellsWithout(b[..mid], n, n, due, id);
      TellsRemoved(b[mid..], 0, n, due, i - mid);
      assert RemoveAt(b, i)[..mid] == b[..mid];
      assert RemoveAt(b, i)[mid..] == RemoveAt(b[mid..], i - mid);
    }
  }

  lemma TellsRemoved(b: seq<Timer>, base: nat, n: nat, due: Dues, i: nat)
    requires Tells(b, base, n, due) && Distinct(b) && i < |b|
    ensures Tells(RemoveAt(b, i), base, n, due - {b[i].id})
  {
    var r := RemoveAt(b, i);
    assert forall k :: 0 <= k < |r| ==> r[k] == b[if k < i then k else k + 1];
  }

  /** The slot `o` places ahead. */
  function SlotAt(cur: nat, o: nat, n: nat): (s: nat)
    requires cur < n && o < n
    ensures s < n
  {
    if cur + o < n then cur + o else cur + o - n
  }

  lemma SlotAtModulo(cur: nat, o: nat, n: nat)
    requires cur < n && o < n
    ensures (cur + o) % n == SlotAt(cur, o, n)
  {
    Remainder(cur + o, if cur + o < n then 0 else 1, SlotAt(cur, o, n), n);
  }

  /** How many places ahead of the hand slot `s` is, the hand's own slot being none. */
  function Ahead(cur: nat, s: nat, n: nat): (o: nat)
    requires cur < n && s < n
    ensures o < n && SlotAt(cur, o, n) == s && o <= Base(cur, s, n)
  {
    if s >= cur then s - cur else s + n - cur
  }

  /** Rounds do not show in where a timer is kept: the slot is as far ahead as the steps left
      are beyond whole turns. */
  lemma AheadIsRemainder(cur: nat, s: nat, rounds: nat, n: nat)
    requires cur < n && s < n
    ensures (Base(cur, s, n) + rounds * n) % n == Ahead(cur, s, n)
  {
    var o := Ahead(cur, s, n);
    var turns := if o == 0 then rounds + 1 else rounds;
    assert Base(cur, s, n) + rounds * n == turns * n + o;
    Remainder(Base(cur, s, n) + rounds * n, turns, o, n);
  }

  lemma ScaleUp(a: nat, b: nat, k: nat)
    requires a <= b
    ensures a * k <= k * b
  {
  }

  /** The period of a repeating timer is a whole number of turns, or less than a step. */
  predicate WholeTurns(interval: nat, tick: nat, n: nat)
    requires tick > 0 && n > 0
  {
    interval / tick % n == 0
  }

  lemma AllAhead(bs: seq<seq<Timer>>, cur: nat, due: Dues, slotOf: map<nat, nat>, nextId: nat)
    requires cur < |bs| && Agree(bs, cur, |bs[cur]|, due, slotOf, nextId)
    ensures forall id :: id in due ==> due[id].left > 0 && id < nextId
  {
    forall id | id in due ensures due[id].left > 0 {
      var s, i := FindsTimer(bs, cur, |bs[cur]|, due, slotOf, nextId, id);
    }
  }

  lemma NextIsModulo(cur: nat, n: nat)
    requires cur < n
    ensures (cur + 1) % n == NextSlot(cur, n)
  {
  }
}
