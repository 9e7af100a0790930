/** Coroutines and their scheduler: every unfinished coroutine is in exactly one place. */
module Scheduling {

  type Id = nat
  type Fd = nat

  datatype CoState = READY | RUNNING | SUSPENDED | DONE

  datatype Running = Nobody | Somebody(id: Id)

  datatype Scheduler = Scheduler(
    coroutines: map<Id, CoState>,
    ready: seq<Id>,            // ready_queue_
    readers: map<Fd, Id>,      // waiting_for_read_
    writers: map<Fd, Id>,      // waiting_for_write_
    current: Running)

  datatype Action =
    | Create(id: Id)          // create_coroutine, from outside or from a coroutine
    | Resume                  // one turn of the loop in tick
    | WaitRead(fd: Fd)        // the read hook: register, then yield
    | WaitWrite(fd: Fd)       // the write hook: register, then yield
    | BareYield               // yield with nothing registered
    | Finish                  // the coroutine's function returns
    | FdReady(fd: Fd)         // the event loop reports the descriptor

  predicate Enabled(s: Scheduler, a: Action) {
    match a
    case Create(id) => id !in s.coroutines
    case Resume => s.current == Nobody && s.ready != []
    case FdReady(_) => s.current == Nobody
    case _ => s.current.Somebody? && s.current.id in s.coroutines
  }

  /** Take the front of the queue and switch to it, unless it has finished. */
  function DoResume(s: Scheduler): (s': Scheduler)
    requires s.ready != []
  {
    var id := s.ready[0];
    var s1 := s.(ready := s.ready[1..]);
    if id in s.coroutines && s.coroutines[id] == DONE then s1
    else s1.(coroutines := s.coroutines[id := RUNNING], current := Somebody(id))
  }

  function Yield(s: Scheduler): (s': Scheduler)
    requires s.current.Somebody?
  {
    s.(coroutines := s.coroutines[s.current.id := SUSPENDED], current := Nobody)
  }

  /** A reader is woken before a writer of the same descriptor. */
  function OnFdReady(s: Scheduler, fd: Fd): (s': Scheduler) {
    if fd in s.readers then s.(ready := s.ready + [s.readers[fd]], readers := s.readers - {fd})
    else if fd in s.writers then s.(ready := s.ready + [s.writers[fd]], writers := s.writers - {fd})
    else s
  }

  function Do(s: Scheduler, a: Action): (s': Scheduler)
    requires Enabled(s, a)
  {
    match a
    case Create(id) => s.(coroutines := s.coroutines[id := READY], ready := s.ready + [id])
    case Resume => DoResume(s)
    case WaitRead(fd) => Yield(s.(readers := s.readers[fd := s.current.id]))
    case WaitWrite(fd) => Yield(s.(writers := s.writers[fd := s.current.id]))
    case BareYield => Yield(s)
    case Finish => s.(coroutines := s.coroutines[s.current.id := DONE], current := Nobody)
    case FdReady(fd) => OnFdReady(s, fd)
  }

  // ---- one place each ----

  predicate InReady(s: Scheduler, id: Id) { id in s.ready }
  predicate Reads(s: Scheduler, id: Id) { exists fd :: fd in s.readers && s.readers[fd] == id }
  predicate Writes(s: Scheduler, id: Id) { exists fd :: fd in s.writers && s.writers[fd] == id }
  predicate Runs(s: Scheduler, id: Id) { s.current == Somebody(id) }

  /** No place holds a coroutine twice. */
  predicate NoDoubles(s: Scheduler) {
    && (forall i, j :: 0 <= i < j < |s.ready| ==> s.ready[i] != s.ready[j])
    && (forall fd, fd' :: fd in s.readers && fd' in s.readers && s.readers[fd] == s.readers[fd'] ==> fd == fd')
    && (forall fd, fd' :: fd in s.writers && fd' in s.writers && s.writers[fd] == s.writers[fd'] ==> fd == fd')
  }

  /** The coroutine is in exactly one place if it is unfinished and in none otherwise, and
      its state says which kind of place. */
  predicate PlacedOnce(s: Scheduler, id: Id) {
    if id !in s.coroutines || s.coroutines[id] == DONE then
      !InReady(s, id) && !Reads(s, id) && !Writes(s, id) && !Runs(s, id)
    else if s.coroutines[id] == RUNNING then
      Runs(s, id) && !InReady(s, id) && !Reads(s, id) && !Writes(s, id)
    else
      && !Runs(s, id)
      && (if InReady(s, id) then !Reads(s, id) && !Writes(s, id)
          else s.coroutines[id] == SUSPENDED && (Reads(s, id) <==> !Writes(s, id)))
  }

  ghost predicate Conserved(s: Scheduler) {
    NoDoubles(s) && forall id :: PlacedOnce(s, id)
  }

  /** `resume` is only ever applied to a READY or SUSPENDED coroutine. */
  lemma ResumesOnlyWaiting(s: Scheduler)
    requires Conserved(s) && Enabled(s, Resume)
    ensures s.ready[0] in s.coroutines && s.coroutines[s.ready[0]] in {READY, SUSPENDED}
  {
    assert PlacedOnce(s, s.ready[0]) && InReady(s, s.ready[0]);
  }

  lemma CreateKeeps(s: Scheduler, id: Id)
    requires Conserved(s) && Enabled(s, Create(id))
    ensures Conserved(Do(s, Create(id)))
  {
    var s' := Do(s, Create(id));
    assert PlacedOnce(s, id);
    forall x ensures PlacedOnce(s', x) {
      assert PlacedOnce(s, x);
      assert InReady(s', x) <==> InReady(s, x) || x == id;
      SameWaiters(s, s', x);
    }
  }

  /** Same maps, same waiters. */
  lemma SameWaiters(s: Scheduler, s': Scheduler, id: Id)
    ensures s.readers == s'.readers ==> (Reads(s, id) <==> Reads(s', id))
    ensures s.writers == s'.writers ==> (Writes(s, id) <==> Writes(s', id))
  {
  }

  lemma ResumeKeeps(s: Scheduler)
    requires Conserved(s) && Enabled(s, Resume)
    ensures Conserved(Do(s, Resume))
  {
    ResumesOnlyWaiting(s);
    var s', id := Do(s, Resume), s.ready[0];
    forall x ensures PlacedOnce(s', x) {
      assert PlacedOnce(s, x) && PlacedOnce(s, id);
      assert InReady(s, x) <==> x == id || InReady(s', x);
      assert !InReady(s', id);
      SameWaiters(s, s', x);
    }
  }

  lemma FinishKeeps(s: Scheduler)
    requires Conserved(s) && Enabled(s, Finish)
    ensures Conserved(Do(s, Finish))
  {
    var s' := Do(s, Finish);
    forall x ensures PlacedOnce(s', x) {
      assert PlacedOnce(s, x) && PlacedOnce(s, s.current.id);
      SameWaiters(s, s', x);
    }
  }

  lemma ReadyKeeps(s: Scheduler, fd: Fd)
    requires Conserved(s) && Enabled(s, FdReady(fd))
    ensures Conserved(Do(s, FdReady(fd)))
  {
    var s' := Do(s, FdReady(fd));
    if fd in s.readers {
      WokenReader(s, s', fd);
    } else if fd in s.writers {
      WokenWriter(s, s', fd);
    }
  }

  lemma WokenReader(s: Scheduler, s': Scheduler, fd: Fd)
    requires Conserved(s) && fd in s.readers
    requires s' == s.(ready := s.ready + [s.readers[fd]], readers := s.readers - {fd})
    ensures Conserved(s')
  {
    var id := s.readers[fd];
    assert PlacedOnce(s, id) && Reads(s, id);
    forall x ensures PlacedOnce(s', x) {
      assert PlacedOnce(s, x);
      assert InReady(s', x) <==> InReady(s, x) || x == id;
      if Reads(s, x) && x != id {
        var f :| f in s.readers && s.readers[f] == x;
        assert f in s'.readers;
      }
      assert Reads(s', x) <==> Reads(s, x) && x != id;
      SameWaiters(s, s', x);
    }
  }

  lemma WokenWriter(s: Scheduler, s': Scheduler, fd: Fd)
    requires Conserved(s) && fd in s.writers
    requires s' == s.(ready := s.ready + [s.writers[fd]], writers := s.writers - {fd})
    ensures Conserved(s')
  {
    var id := s.writers[fd];
    assert PlacedOnce(s, id) && Writes(s, id);
    forall x ensures PlacedOnce(s', x) {
      assert PlacedOnce(s, x);
      assert InReady(s', x) <==> InReady(s, x) || x == id;
      if Writes(s, x) && x != id {
        var f :| f in s.writers && s.writers[f] == x;
        assert f in s'.writers;
      }
      assert Writes(s', x) <==> Writes(s, x) && x != id;
      SameWaiters(s, s', x);
    }
  }

  /** Waiting for a descriptor keeps everybody exactly when nobody waits there already: a
      second reader displaces the first, who is then nowhere. */
  lemma WaitReadKeepsExactlyWhen(s: Scheduler, fd: Fd)
    requires Conserved(s) && Enabled(s, WaitRead(fd))
    ensures Conserved(Do(s, WaitRead(fd))) <==> fd !in s.readers
  {
    var s', id := Do(s, WaitRead(fd)), s.current.id;
    assert PlacedOnce(s, id) && Runs(s, id);
    if fd in s.readers {
      var lost := s.readers[fd];
      assert Reads(s, lost) && PlacedOnce(s, lost) && lost != id;
      assert !Reads(s', lost);
      SameWaiters(s, s', lost);
      assert !PlacedOnce(s', lost);
    } else {
      forall x ensures PlacedOnce(s', x) {
        assert PlacedOnce(s, x);
        if Reads(s, x) {
          var f :| f in s.readers && s.readers[f] == x;
          assert s'.readers[f] == x;
        }
        assert s'.readers[fd] == id;
        assert Reads(s', x) <==> Reads(s, x) || x == id;
        SameWaiters(s, s', x);
      }
      assert !Reads(s, id);
    }
  }

  lemma WaitWriteKeepsExactlyWhen(s: Scheduler, fd: Fd)
    requires Conserved(s) && Enabled(s, WaitWrite(fd))
    ensures Conserved(Do(s, WaitWrite(fd))) <==> fd !in s.writers
  {
    var s', id := Do(s, WaitWrite(fd)), s.current.id;
    assert PlacedOnce(s, id) && Runs(s, id);
    if fd in s.writers {
      var lost := s.writers[fd];
      assert Writes(s, lost) && PlacedOnce(s, lost) && lost != id;
      assert !Writes(s', lost);
      SameWaiters(s, s', lost);
      assert !PlacedOnce(s', lost);
    } else {
      forall x ensures PlacedOnce(s', x) {
        assert PlacedOnce(s, x);
        if Writes(s, x) {
          var f :| f in s.writers && s.writers[f] == x;
          assert s'.writers[f] == x;
        }
        assert s'.writers[fd] == id;
        assert Writes(s', x) <==> Writes(s, x) || x == id;
        SameWaiters(s, s', x);
      }
      assert !Writes(s, id);
    }
  }

  /** A bare yield always loses the coroutine. */
  lemma BareYieldLoses(s: Scheduler)
    requires Conserved(s) && Enabled(s, BareYield)
    ensures !Conserved(Do(s, BareYield))
  {
    var s', id := Do(s, BareYield), s.current.id;
    assert PlacedOnce(s, id) && Runs(s, id);
    SameWaiters(s, s', id);
    assert !PlacedOnce(s', id);
  }

  // ---- whole runs ----

  /** The discipline of the hooks: no bare yields, one waiter per descriptor and direction. */
  predicate Disciplined(s: Scheduler, a: Action) {
    match a
    case WaitRead(fd) => fd !in s.readers
    case WaitWrite(fd) => fd !in s.writers
    case BareYield => false
    case _ => true
  }

  /** A run is a sequence of actions, each enabled when its turn comes. */
  predicate Legal(s: Scheduler, actions: seq<Action>)
    decreases |actions|
  {
    actions == [] || (Enabled(s, actions[0]) && Legal(Do(s, actions[0]), actions[1..]))
  }

  predicate GoodRun(s: Scheduler, actions: seq<Action>)
    decreases |actions|
  {
    actions == [] ||
    (Enabled(s, actions[0]) && Disciplined(s, actions[0]) && GoodRun(Do(s, actions[0]), actions[1..]))
  }

  function After(s: Scheduler, actions: seq<Action>): (s': Scheduler)
    requires Legal(s, actions)
    decreases |actions|
  {
    if actions == [] then s else After(Do(s, actions[0]), actions[1..])
  }

  /** An action keeps everybody in place exactly when it follows the discipline. */
  lemma KeepsExactlyWhenDisciplined(s: Scheduler, a: Action)
    requires Conserved(s) && Enabled(s, a)
    ensures Conserved(Do(s, a)) <==> Disciplined(s, a)
  {
    hide Conserved, Do;
    match a
    case Create(id) => CreateKeeps(s, id);
    case Resume => ResumeKeeps(s);
    case WaitRead(fd) => WaitReadKeepsExactlyWhen(s, fd);
    case WaitWrite(fd) => WaitWriteKeepsExactlyWhen(s, fd);
    case BareYield => BareYieldLoses(s);
    case Finish => FinishKeeps(s);
    case FdReady(fd) => ReadyKeeps(s, fd);
  }

  lemma {:induction false} ConservedOverRuns(s: Scheduler, actions: seq<Action>)
    requires Conserved(s) && GoodRun(s, actions)
    ensures Legal(s, actions) && Conserved(After(s, actions))
    decreases |actions|
  {
    hide Conserved;
    if actions != [] {
      KeepsExactlyWhenDisciplined(s, actions[0]);
      ConservedOverRuns(Do(s, actions[0]), actions[1..]);
    }
  }

  /** Two runs, one after the other. */
  lemma {:induction false} AfterMore(s: Scheduler, first: seq<Action>, more: seq<Action>)
    requires Legal(s, first) && Legal(After(s, first), more)
    ensures Legal(s, first + more) && After(s, first + more) == After(After(s, first), more)
    decreases |first|
  {
    if first == [] {
      assert first + more == more;
    } else {
      assert (first + more)[1..] == first[1..] + more;
      AfterMore(Do(s, first[0]), first[1..], more);
    }
  }

  lemma AfterOne(s: Scheduler, a: Action)
    requires Enabled(s, a)
    ensures Legal(s, [a]) && After(s, [a]) == Do(s, a)
  {
    assert [a][1..] == [];
  }

  // ---- first in, first out ----

  /** Who joins the ready queue: a new coroutine, or the one a ready descriptor wakes, a
      reader before a writer. */
  function Entering(s: Scheduler, a: Action): (ids: seq<Id>) {
    match a
    case Create(id) => [id]
    case FdReady(fd) => if fd in s.readers then [s.readers[fd]] else if fd in s.writers then [s.writers[fd]] else []
    case _ => []
  }

  /** Who is given a turn. */
  function Resumed(s: Scheduler, a: Action): (ids: seq<Id>)
    requires Enabled(s, a)
  {
    if a.Resume? && Do(s, a).current.Somebody? then [Do(s, a).current.id] else []
  }

  function Entered(s: Scheduler, actions: seq<Action>): (ids: seq<Id>)
    requires Legal(s, actions)
    decreases |actions|
  {
    if actions == [] then [] else Entering(s, actions[0]) + Entered(Do(s, actions[0]), actions[1..])
  }

  function Turns(s: Scheduler, actions: seq<Action>): (ids: seq<Id>)
    requires Legal(s, actions)
    decreases |actions|
  {
    if actions == [] then [] else Resumed(s, actions[0]) + Turns(Do(s, actions[0]), actions[1..])
  }

  lemma QueueStep(s: Scheduler, a: Action)
    requires Conserved(s) && Enabled(s, a)
    ensures Resumed(s, a) + Do(s, a).ready == s.ready + Entering(s, a)
  {
    if a.Resume? {
      ResumesOnlyWaiting(s);
      assert [s.ready[0]] + s.ready[1..] == s.ready;
    }
  }

  /** Over every disciplined run turns are given strictly in the order of joining the queue:
      those who had a turn, followed by those still queued, are those who were queued at the
      start, followed by those who joined. */
  lemma {:induction false} FirstInFirstOut(s: Scheduler, actions: seq<Action>)
    requires Conserved(s) && GoodRun(s, actions)
    ensures Legal(s, actions)
    ensures Turns(s, actions) + After(s, actions).ready == s.ready + Entered(s, actions)
    decreases |actions|
  {
    hide Conserved, Do, Resumed, Entering;
    ConservedOverRuns(s, actions);
    if actions == [] {
      assert [] + s.ready == s.ready + [];
    } else {
      var a, s' := actions[0], Do(s, actions[0]);
      KeepsExactlyWhenDisciplined(s, a);
      QueueStep(s, a);
      FirstInFirstOut(s', actions[1..]);
      var t, e, q := Turns(s', actions[1..]), Entered(s', actions[1..]), After(s, actions).ready;
      assert Resumed(s, a) + t + q == Resumed(s, a) + (t + q);
      assert Resumed(s, a) + (s'.ready + e) == Resumed(s, a) + s'.ready + e;
      assert s.ready + Entering(s, a) + e == s.ready + (Entering(s, a) + e);
    }
  }

  /** A ready descriptor moves one waiter, a reader before a writer, from its place to the
      queue, and nobody else. */
  lemma WokenMoves(s: Scheduler, fd: Fd, id: Id)
    requires Conserved(s) && Enabled(s, FdReady(fd))
    ensures var s', woken := Do(s, FdReady(fd)), Entering(s, FdReady(fd));
            && (InReady(s', id) <==> InReady(s, id) || id in woken)
            && (Reads(s', id) <==> Reads(s, id) && id !in woken)
            && (Writes(s', id) <==> Writes(s, id) && id !in woken)
            && s'.coroutines == s.coroutines && s'.current == s.current
  {
    hide Do;
    ReadyKeeps(s, fd);
    ReadyIs(s, fd);
    var s', woken := Do(s, FdReady(fd)), Entering(s, FdReady(fd));
    assert PlacedOnce(s, id) && PlacedOnce(s', id);
    if Reads(s, id) && id !in woken {
      var f :| f in s.readers && s.readers[f] == id;
      assert f in s'.readers;
    }
    if Writes(s, id) && id !in woken {
      var f :| f in s.writers && s.writers[f] == id;
      assert f in s'.writers;
    }
  }

  lemma ReadyIs(s: Scheduler, fd: Fd)
    requires Enabled(s, FdReady(fd))
    ensures Do(s, FdReady(fd)) == OnFdReady(s, fd)
  {
  }

  predicate Unfinished(s: Scheduler) {
    exists id :: id in s.coroutines && s.coroutines[id] != DONE
  }

  /** With the ready queue drained, the maps are empty exactly when everyone has finished. */
  lemma TickAnswer(s: Scheduler)
    requires Conserved(s) && s.current == Nobody && s.ready == []
    ensures s.readers != map[] || s.writers != map[] <==> Unfinished(s)
  {
    if fd :| fd in s.readers {
      assert Reads(s, s.readers[fd]) && PlacedOnce(s, s.readers[fd]);
    }
    if fd :| fd in s.writers {
      assert Writes(s, s.writers[fd]) && PlacedOnce(s, s.writers[fd]);
    }
    if id :| id in s.coroutines && s.coroutines[id] != DONE {
      assert PlacedOnce(s, id);
    }
  }
}
