/** The scheduler as an object: coroutine objects moved between its queue and its two maps.
    What a coroutine does in a turn is an abstract choice; each operation is proved to do to
    the objects what the scheduling machine does to their identities. */
module Coroutines {
  import S = Scheduling

  class Coroutine {
    const id: S.Id
    var state: S.CoState

    constructor (id: S.Id)
      ensures this.id == id && state == S.READY
    {
      this.id, state := id, S.READY;
    }
  }

  /** How a turn ends: in one of the wait hooks, in a bare yield, or by returning. */
  datatype Ending = ThenRead(fd: S.Fd) | ThenWrite(fd: S.Fd) | ThenYield | ThenFinish

  /** One turn of a coroutine: the coroutines it creates, and how it ends. */
  datatype Turn = Turn(creates: nat, ending: Ending)

  function Ends(e: Ending): (a: S.Action) {
    match e
    case ThenRead(fd) => S.WaitRead(fd)
    case ThenWrite(fd) => S.WaitWrite(fd)
    case ThenYield => S.BareYield
    case ThenFinish => S.Finish
  }

  /** As many creations as asked for, with ids in sequence. */
  function Creations(firstId: nat, count: nat): (actions: seq<S.Action>) {
    seq(count, i requires 0 <= i => S.Create(firstId + i))
  }

  /** What a turn dictates to the coroutine that runs. */
  function Play(turn: Turn, nextId: nat): (actions: seq<S.Action>) {
    Creations(nextId, turn.creates) + [Ends(turn.ending)]
  }

  predicate FrontDone(s: S.Scheduler)
    requires s.ready != []
  {
    s.ready[0] in s.coroutines && s.coroutines[s.ready[0]] == S.DONE
  }

  /** What a turn dictates to the draining loop: the front of the queue is resumed and plays
      the turn, but one that has finished is dropped and plays nothing. */
  function TurnOf(s: S.Scheduler, turn: Turn, nextId: nat): (actions: seq<S.Action>)
    requires s.ready != []
  {
    [S.Resume] + if FrontDone(s) then [] else Play(turn, nextId)
  }

  lemma TurnIs(s: S.Scheduler, turn: Turn, nextId: nat)
    requires s.ready != []
    ensures TurnOf(s, turn, nextId) == [S.Resume] + if FrontDone(s) then [] else Play(turn, nextId)
    ensures NextId(s, turn, nextId) == if FrontDone(s) then nextId else nextId + turn.creates
  {
  }

  function NextId(s: S.Scheduler, turn: Turn, nextId: nat): (n: nat)
    requires s.ready != []
  {
    if FrontDone(s) then nextId else nextId + turn.creates
  }

  /** The trace is what the turns dictate, one after the other, each from a queue that is not
      empty. */
  ghost predicate Dictated(s: S.Scheduler, nextId: nat, turns: seq<Turn>, trace: seq<S.Action>)
    decreases |turns|
  {
    if turns == [] then trace == []
    else
      && s.ready != []
      && var first := TurnOf(s, turns[0], nextId);
         && first <= trace && S.Legal(s, first)
         && Dictated(S.After(s, first), NextId(s, turns[0], nextId), turns[1..], trace[|first|..])
  }

  /** The id that is next after so many turns. */
  ghost function IdAfter(s: S.Scheduler, nextId: nat, turns: seq<Turn>, trace: seq<S.Action>): (n: nat)
    requires Dictated(s, nextId, turns, trace)
    decreases |turns|
  {
    if turns == [] then nextId
    else
      var first := TurnOf(s, turns[0], nextId);
      IdAfter(S.After(s, first), NextId(s, turns[0], nextId), turns[1..], trace[|first|..])
  }

  lemma DictatedFirst(s: S.Scheduler, nextId: nat, turn: Turn, turns: seq<Turn>, rest: seq<S.Action>)
    requires s.ready != [] && S.Legal(s, TurnOf(s, turn, nextId))
    requires Dictated(S.After(s, TurnOf(s, turn, nextId)), NextId(s, turn, nextId), turns, rest)
    ensures var trace := TurnOf(s, turn, nextId) + rest;
            && Dictated(s, nextId, [turn] + turns, trace)
            && IdAfter(s, nextId, [turn] + turns, trace)
               == IdAfter(S.After(s, TurnOf(s, turn, nextId)), NextId(s, turn, nextId), turns, rest)
  {
    hide TurnOf, NextId, S.Legal, S.After;
    var first := TurnOf(s, turn, nextId);
    assert ([turn] + turns)[1..] == turns && (first + rest)[|first|..] == rest;
  }

  lemma DictatedNone(s: S.Scheduler, nextId: nat)
    ensures Dictated(s, nextId, [], []) && IdAfter(s, nextId, [], []) == nextId
    ensures S.Legal(s, []) && S.After(s, []) == s
  {
  }

  /** One turn more. */
  lemma {:induction false} DictatedMore(s: S.Scheduler, nextId: nat, turns: seq<Turn>, trace: seq<S.Action>, turn: Turn)
    requires Dictated(s, nextId, turns, trace) && S.Legal(s, trace) && S.After(s, trace).ready != []
    ensures var last := TurnOf(S.After(s, trace), turn, IdAfter(s, nextId, turns, trace));
            S.Legal(S.After(s, trace), last) ==>
              && Dictated(s, nextId, turns + [turn], trace + last)
              && IdAfter(s, nextId, turns + [turn], trace + last)
                 == NextId(S.After(s, trace), turn, IdAfter(s, nextId, turns, trace))
    decreases |turns|
  {
    hide TurnOf, NextId, S.Legal, S.After;
    var last := TurnOf(S.After(s, trace), turn, IdAfter(s, nextId, turns, trace));
    if S.Legal(S.After(s, trace), last) {
      if turns == [] {
        DictatedNone(s, nextId);
        DictatedNone(S.After(s, last), NextId(s, turn, nextId));
        DictatedFirst(s, nextId, turn, [], []);
        assert trace + last == last + [] && turns + [turn] == [turn] + [];
      } else {
        var first := TurnOf(s, turns[0], nextId);
        var rest := trace[|first|..];
        assert trace == first + rest;
        AfterRest(s, first, rest);
        DictatedMore(S.After(s, first), NextId(s, turns[0], nextId), turns[1..], rest, turn);
        DictatedFirst(s, nextId, turns[0], turns[1..] + [turn], rest + last);
        assert turns + [turn] == [turns[0]] + (turns[1..] + [turn]) && trace + last == first + (rest + last);
      }
    }
  }

  lemma {:induction false} AfterRest(s: S.Scheduler, first: seq<S.Action>, rest: seq<S.Action>)
    requires S.Legal(s, first + rest) && S.Legal(s, first)
    ensures S.Legal(S.After(s, first), rest) && S.After(S.After(s, first), rest) == S.After(s, first + rest)
    decreases |first|
  {
    if first == [] {
      assert first + rest == rest;
    } else {
      assert (first + rest)[0] == first[0] && (first + rest)[1..] == first[1..] + rest;
      AfterRest(S.Do(s, first[0]), first[1..], rest);
    }
  }

  ghost predicate Known(objects: map<S.Id, Coroutine>, states: map<S.Id, S.CoState>)
    reads objects.Values
  {
    && objects.Keys == states.Keys
    && forall id :: id in objects ==> objects[id].id == id && objects[id].state == states[id]
  }

  ghost predicate SameQueue(objects: map<S.Id, Coroutine>, ready: seq<Coroutine>, ids: seq<S.Id>) {
    |ready| == |ids| && forall i :: 0 <= i < |ids| ==> ids[i] in objects && ready[i] == objects[ids[i]]
  }

  ghost predicate SameWaiting(objects: map<S.Id, Coroutine>, waiting: map<S.Fd, Coroutine>, ids: map<S.Fd, S.Id>) {
    && waiting.Keys == ids.Keys
    && forall fd :: fd in ids ==> ids[fd] in objects && waiting[fd] == objects[ids[fd]]
  }

  ghost predicate SameCurrent(objects: map<S.Id, Coroutine>, current: Coroutine?, running: S.Running) {
    match running
    case Nobody => current == null
    case Somebody(id) => id in objects && current == objects[id]
  }

  class Scheduler {
    var ready: seq<Coroutine>
    var readers: map<S.Fd, Coroutine>
    var writers: map<S.Fd, Coroutine>
    var current: Coroutine?
    var nextId: nat
    ghost var objects: map<S.Id, Coroutine>
    ghost var model: S.Scheduler

    ghost predicate Valid()
      reads this, objects.Values
    {
      && Known(objects, model.coroutines)
      && (forall id :: id in objects ==> id < nextId)
      && SameQueue(objects, ready, model.ready)
      && SameWaiting(objects, readers, model.readers)
      && SameWaiting(objects, writers, model.writers)
      && SameCurrent(objects, current, model.current)
    }

    constructor ()
      ensures Valid() && model == S.Scheduler(map[], [], map[], map[], S.Nobody)
    {
      ready, readers, writers, current, nextId := [], map[], map[], null, 1;
      objects, model := map[], S.Scheduler(map[], [], map[], map[], S.Nobody);
    }

    method CreateCoroutine()
      requires Valid()
      modifies this`ready, this`nextId, this`objects, this`model
      ensures Valid() && S.Enabled(old(model), S.Create(old(nextId)))
      ensures model == S.Do(old(model), S.Create(old(nextId))) && nextId == old(nextId) + 1
      ensures fresh(objects.Values - old(objects.Values)) && current == old(current)
    {
      hide SameQueue, SameWaiting, SameCurrent, Known, S.Do, S.Enabled;
      KnownIds();
      CreateStep(model, nextId);
      var co := new Coroutine(nextId);
      QueueWider(objects, ready, model.ready, co);
      WaitingWider(objects, readers, model.readers, co);
      WaitingWider(objects, writers, model.writers, co);
      CurrentWider(objects, current, model.current, co);
      KnownWider(objects, model.coroutines, co);
      objects := objects[nextId := co];
      model := S.Do(model, S.Create(nextId));
      nextId := nextId + 1;
      ready := ready + [co];
    }

    lemma KnownIds()
      requires Valid()
      ensures nextId !in objects && nextId !in model.coroutines
    {
    }

    /** Outside a coroutine nothing happens. */
    method WaitForRead(fd: S.Fd)
      requires Valid()
      modifies this`readers, this`model
      ensures Valid()
      ensures model == if old(current) == null then old(model)
                       else old(model).(readers := old(model.readers)[fd := old(current).id])
    {
      if current == null {
        return;
      }
      readers := readers[fd := current];
      model := model.(readers := model.readers[fd := current.id]);
    }

    method WaitForWrite(fd: S.Fd)
      requires Valid()
      modifies this`writers, this`model
      ensures Valid()
      ensures model == if old(current) == null then old(model)
                       else old(model).(writers := old(model.writers)[fd := old(current).id])
    {
      if current == null {
        return;
      }
      writers := writers[fd := current];
      model := model.(writers := model.writers[fd := current.id]);
    }

    /** Switching away: `Yield` leaves the coroutine SUSPENDED, a return leaves it DONE. */
    method SwitchBack(state: S.CoState)
      requires Valid() && current != null
      modifies this`current, this`model, current
      ensures Valid() && current == null
      ensures model == old(model).(coroutines := old(model.coroutines)[old(current).id := state], current := S.Nobody)
    {
      ghost var id := current.id;
      current.state := state;
      current := null;
      model := model.(coroutines := model.coroutines[id := state], current := S.Nobody);
    }

    /** The event loop reports a descriptor. */
    method OnFdReady(fd: S.Fd)
      requires Valid() && current == null
      modifies this`ready, this`readers, this`writers, this`model
      ensures Valid() && model == S.OnFdReady(old(model), fd)
    {
      if fd in readers {
        ready := ready + [readers[fd]];
        readers := readers - {fd};
      } else if fd in writers {
        ready := ready + [writers[fd]];
        writers := writers - {fd};
      }
      model := S.OnFdReady(model, fd);
    }

    /** What the running coroutine does until it switches back. */
    method RunTurn(turn: Turn) returns (ghost trace: seq<S.Action>)
      requires Valid() && current != null
      modifies this, objects.Values
      ensures Valid() && current == null && fresh(objects.Values - old(objects.Values))
      ensures S.Legal(old(model), trace) && model == S.After(old(model), trace)
      ensures trace == Play(turn, old(nextId)) && nextId == old(nextId) + turn.creates
    {
      hide Known, SameQueue, SameWaiting, S.Legal, S.After, S.Do, S.Enabled;
      trace := [];
      NoActions(model);
      ghost var start := model;
      var n := 0;
      while n < turn.creates
        invariant n <= turn.creates && Valid() && current == old(current)
        invariant fresh(objects.Values - old(objects.Values))
        invariant S.Legal(start, trace) && model == S.After(start, trace)
        invariant trace == Creations(old(nextId), n) && nextId == old(nextId) + n
      {
        ghost var id := nextId;
        CreateCoroutine();
        OneMore(start, trace, S.Create(id));
        trace := trace + [S.Create(id)];
        n := n + 1;
      }
      CurrentIs();
      EndsWith(model, turn.ending);
      match turn.ending {
        case ThenRead(fd) =>
          WaitForRead(fd);
          SwitchBack(S.SUSPENDED);
        case ThenWrite(fd) =>
          WaitForWrite(fd);
          SwitchBack(S.SUSPENDED);
        case ThenYield => SwitchBack(S.SUSPENDED);
        case ThenFinish => SwitchBack(S.DONE);
      }
      OneMore(start, trace, Ends(turn.ending));
      trace := trace + [Ends(turn.ending)];
    }

    lemma CurrentIs()
      requires Valid() && current != null
      ensures model.current == S.Somebody(current.id) && current.id in model.coroutines
      ensures current in objects.Values
    {
    }

    /** One turn of the draining loop: the front of the queue, unless it has finished. */
    method ResumeNext(turn: Turn) returns (ghost trace: seq<S.Action>)
      requires Valid() && current == null && ready != []
      modifies this, objects.Values
      ensures Valid() && current == null && fresh(objects.Values - old(objects.Values))
      ensures S.Legal(old(model), trace) && model == S.After(old(model), trace)
      ensures old(model).ready != [] && trace == TurnOf(old(model), turn, old(nextId))
      ensures nextId == NextId(old(model), turn, old(nextId))
    {
      hide *;
      ghost var start := model;
      QueueIs();
      var runs := TakeFront();
      S.AfterOne(start, S.Resume);
      trace := [S.Resume];
      assert trace == [S.Resume] + [];
      if runs {
        ghost var more := RunTurn(turn);
        S.AfterMore(start, trace, more);
        trace := trace + more;
      }
      TurnIs(start, turn, old(nextId));
    }

    /** The front leaves the queue, and is running unless it has finished. */
    method TakeFront() returns (runs: bool)
      requires Valid() && current == null && ready != []
      modifies this`ready, this`current, this`model, objects.Values
      ensures Valid() && model.ready == old(model).ready[1..] && ready == old(ready)[1..]
      ensures S.Enabled(old(model), S.Resume) && model == S.Do(old(model), S.Resume)
      ensures runs <==> !FrontDone(old(model))
      ensures if runs then current == old(ready)[0] && current.state == S.RUNNING else current == null
    {
      var co := ready[0];
      ready := ready[1..];
      model := S.Do(model, S.Resume);
      runs := co.state != S.DONE;
      if runs {
        co.state := S.RUNNING;
        current := co;
      }
    }

    /** Drain the ready queue, for as many turns as are given, each played by the coroutine at
        the front.  Everything that happened is the run of the machine that the turns dictate.
        If that run kept to the discipline and drained the queue, the answer is whether someone
        is unfinished; but a queue that was empty to begin with is answered with no, whoever
        waits. */
    method Tick(turns: seq<Turn>) returns (answer: bool, ghost trace: seq<S.Action>, ghost used: nat)
      requires Valid() && current == null
      modifies this, objects.Values
      ensures Valid() && current == null
      ensures used <= |turns| && (ready == [] || used == |turns|)
      ensures Dictated(old(model), old(nextId), turns[..used], trace)
      ensures S.Legal(old(model), trace) && model == S.After(old(model), trace)
      ensures old(ready) == [] ==> !answer && model == old(model)
      ensures old(ready) != [] ==> (answer <==> readers != map[] || writers != map[] || ready != [])
      ensures old(ready) != [] && ready == [] && S.Conserved(old(model)) && S.GoodRun(old(model), trace) ==>
                (answer <==> S.Unfinished(model))
    {
      hide S.Legal, S.After, S.Conserved, S.GoodRun, S.Unfinished, Known, SameWaiting;
      hide Dictated, IdAfter, TurnOf, NextId;
      ghost var start, firstId := model, nextId;
      trace, used := [], 0;
      DictatedNone(model, nextId);
      assert turns[..0] == [];
      if ready == [] {
        answer := false;
        return;
      }
      var i := 0;
      while ready != [] && i < |turns|
        invariant 0 <= i <= |turns| && Valid() && current == null
        invariant fresh(objects.Values - old(objects.Values))
        invariant S.Legal(start, trace) && model == S.After(start, trace)
        invariant used == i && Dictated(start, firstId, turns[..i], trace)
        invariant nextId == IdAfter(start, firstId, turns[..i], trace)
        decreases |turns| - i
      {
        QueueIs();
        DictatedMore(start, firstId, turns[..i], trace, turns[i]);
        ghost var more := ResumeNext(turns[i]);
        S.AfterMore(start, trace, more);
        trace := trace + more;
        assert turns[..i] + [turns[i]] == turns[..i + 1];
        i := i + 1;
        used := i;
      }
      answer := readers != map[] || writers != map[] || ready != [];
      Drained(start, trace);
    }

    lemma QueueIs()
      requires Valid()
      ensures |ready| == |model.ready|
    {
    }

    lemma Drained(start: S.Scheduler, trace: seq<S.Action>)
      requires Valid() && current == null && S.Legal(start, trace) && model == S.After(start, trace)
      ensures ready == [] && S.Conserved(start) && S.GoodRun(start, trace) ==>
                (readers != map[] || writers != map[] <==> S.Unfinished(model))
    {
      hide S.Conserved, S.Unfinished, S.GoodRun, S.Legal, S.After;
      if ready == [] && S.Conserved(start) && S.GoodRun(start, trace) {
        S.ConservedOverRuns(start, trace);
        S.TickAnswer(model);
        EmptyOrNot(objects, readers, model.readers);
        EmptyOrNot(objects, writers, model.writers);
      }
    }
  }

  lemma EmptyOrNot(objects: map<S.Id, Coroutine>, waiting: map<S.Fd, Coroutine>, ids: map<S.Fd, S.Id>)
    requires SameWaiting(objects, waiting, ids)
    ensures waiting == map[] <==> ids == map[]
  {
    assert waiting == map[] <==> waiting.Keys == {};
    assert ids == map[] <==> ids.Keys == {};
  }

  lemma CreateStep(s: S.Scheduler, id: S.Id)
    requires id !in s.coroutines
    ensures S.Enabled(s, S.Create(id))
    ensures S.Do(s, S.Create(id)) == s.(coroutines := s.coroutines[id := S.READY], ready := s.ready + [id])
  {
  }

  lemma KnownWider(objects: map<S.Id, Coroutine>, states: map<S.Id, S.CoState>, co: Coroutine)
    requires Known(objects, states) && co.id !in objects
    ensures Known(objects[co.id := co], states[co.id := co.state])
  {
  }

  lemma QueueWider(objects: map<S.Id, Coroutine>, ready: seq<Coroutine>, ids: seq<S.Id>, co: Coroutine)
    requires SameQueue(objects, ready, ids) && co.id !in objects
    ensures SameQueue(objects[co.id := co], ready + [co], ids + [co.id])
  {
  }

  lemma WaitingWider(objects: map<S.Id, Coroutine>, waiting: map<S.Fd, Coroutine>, ids: map<S.Fd, S.Id>, co: Coroutine)
    requires SameWaiting(objects, waiting, ids) && co.id !in objects
    ensures SameWaiting(objects[co.id := co], waiting, ids)
  {
  }

  lemma CurrentWider(objects: map<S.Id, Coroutine>, current: Coroutine?, running: S.Running, co: Coroutine)
    requires SameCurrent(objects, current, running) && co.id !in objects
    ensures SameCurrent(objects[co.id := co], current, running)
  {
  }

  lemma NoActions(s: S.Scheduler)
    ensures S.Legal(s, []) && S.After(s, []) == s
  {
  }

  lemma OneMore(s: S.Scheduler, trace: seq<S.Action>, a: S.Action)
    requires S.Legal(s, trace) && S.Enabled(S.After(s, trace), a)
    ensures S.Legal(s, trace + [a]) && S.After(s, trace + [a]) == S.Do(S.After(s, trace), a)
  {
    S.AfterOne(S.After(s, trace), a);
    S.AfterMore(s, trace, [a]);
  }

  lemma EndsWith(s: S.Scheduler, e: Ending)
    requires s.current.Somebody? && s.current.id in s.coroutines
    ensures S.Enabled(s, Ends(e))
    ensures S.Do(s, Ends(e)) ==
            s.(readers := if e.ThenRead? then s.readers[e.fd := s.current.id] else s.readers,
               writers := if e.ThenWrite? then s.writers[e.fd := s.current.id] else s.writers,
               coroutines := s.coroutines[s.current.id := if e.ThenFinish? then S.DONE else S.SUSPENDED],
               current := S.Nobody)
  {
  }
}
