/** The event loop's task queue and wakeup: one loop thread and any number of producer
    threads, interleaved one visible action at a time. */
module EventLoop {

  type Task = nat
  type ThreadId = nat

  /** Where the loop thread stands inside `loop`. */
  datatype Pc =
    | Checking     // about to test quit_
    | Polling      // about to enter, or blocked in, poll
    | Dispatching  // running channel callbacks
    | Ticking      // running timer callbacks
    | Swapping     // in do_pending_tasks, before the swap
    | Running      // running the swapped batch
    | LoopWaking   // a task of the batch has pushed and is about to write the token
    | Exited

  datatype State = State(
    pc: Pc,
    quit: bool,
    calling: bool,             // calling_pending_tasks_
    token: nat,                // unread wakeups
    pending: seq<Task>,        // pending_tasks_
    batch: seq<Task>,          // swapped out, not yet run
    executed: seq<Task>,
    pushed: set<ThreadId>,     // producers between their push and their wakeup
    quitting: set<ThreadId>)   // producers between setting quit_ and their wakeup

  datatype Action =
    | Push(t: ThreadId, x: Task)
    | Wake(t: ThreadId)
    | AskQuit(t: ThreadId)
    | WakeQuit(t: ThreadId)
    | CheckQuit
    | PollReturn               // ready, timed out or interrupted
    | ReadToken(left: nat)     // the wakeup channel's handler: an eventfd read clears, a socket read lowers
    | LoopQueue(x: Task)       // queue_in_loop from a callback or a task
    | LoopWake
    | LoopQuit                 // quit from a callback or a task
    | EndDispatch
    | EndTick
    | Swap
    | RunTask
    | EndTasks

  predicate InCallback(s: State) {
    s.pc in {Dispatching, Ticking, Running}
  }

  predicate Enabled(s: State, a: Action) {
    match a
    case Push(t, _) => t !in s.pushed && t !in s.quitting
    case AskQuit(t) => t !in s.pushed && t !in s.quitting
    case Wake(t) => t in s.pushed
    case WakeQuit(t) => t in s.quitting
    case CheckQuit => s.pc == Checking
    case PollReturn => s.pc == Polling
    case ReadToken(left) => s.pc == Dispatching && left < s.token
    case LoopQueue(_) => InCallback(s)
    case LoopQuit => InCallback(s)
    case LoopWake => s.pc == LoopWaking
    case EndDispatch => s.pc == Dispatching
    case EndTick => s.pc == Ticking
    case Swap => s.pc == Swapping
    case RunTask => s.pc == Running && s.batch != []
    case EndTasks => s.pc == Running && s.batch == []
  }

  function Do(s: State, a: Action): (s': State)
    requires Enabled(s, a)
  {
    match a
    case Push(t, x) => s.(pending := s.pending + [x], pushed := s.pushed + {t})
    case AskQuit(t) => s.(quit := true, quitting := s.quitting + {t})
    case Wake(t) => s.(token := s.token + 1, pushed := s.pushed - {t})
    case WakeQuit(t) => s.(token := s.token + 1, quitting := s.quitting - {t})
    case CheckQuit => s.(pc := if s.quit then Exited else Polling)
    case PollReturn => s.(pc := Dispatching)
    case ReadToken(left) => s.(token := left)
    case LoopQueue(x) => s.(pending := s.pending + [x], pc := if s.calling then LoopWaking else s.pc)
    case LoopQuit => s.(quit := true)
    case LoopWake => s.(token := s.token + 1, pc := Running)
    case EndDispatch => s.(pc := Ticking)
    case EndTick => s.(pc := Swapping, calling := true)
    case Swap => s.(pc := Running, batch := s.pending, pending := [])
    case RunTask => s.(executed := s.executed + [s.batch[0]], batch := s.batch[1..])
    case EndTasks => s.(pc := Checking, calling := false)
  }

  /** A run is a sequence of actions, each enabled when its turn comes. */
  predicate Runs(s: State, actions: seq<Action>)
    decreases |actions|
  {
    actions == [] || (Enabled(s, actions[0]) && Runs(Do(s, actions[0]), actions[1..]))
  }

  function After(s: State, actions: seq<Action>): (s': State)
    requires Runs(s, actions)
    decreases |actions|
  {
    if actions == [] then s else After(Do(s, actions[0]), actions[1..])
  }

  /** `loop` has just been entered: looping, quit_ reset, nothing swapped out. */
  predicate Entry(s: State) {
    s.pc == Checking && !s.quit && !s.calling && s.batch == []
  }

  /** Queued tasks have a wakeup on the way. */
  predicate Covered(s: State) {
    s.pending != [] ==> s.token > 0 || s.pushed != {}
  }

  predicate QuitCovered(s: State) {
    s.quit ==> s.token > 0 || s.quitting != {}
  }

  // ---- what every action keeps ----

  predicate Bookkeeping(s: State) {
    && (s.calling <==> s.pc in {Swapping, Running, LoopWaking})
    && (s.batch != [] ==> s.pc in {Running, LoopWaking})
  }

  /** Between the swap and the next poll a queued task has a wakeup on the way; a quit seen
      at poll does too. */
  predicate Wakeful(s: State) {
    && (s.pc in {Running, Checking, Polling} ==> Covered(s))
    && (s.pc == Polling ==> QuitCovered(s))
  }

  lemma BookkeepingKept(s: State, a: Action)
    requires Bookkeeping(s) && Enabled(s, a)
    ensures Bookkeeping(Do(s, a))
  {
  }

  lemma WakefulKept(s: State, a: Action)
    requires Bookkeeping(s) && Wakeful(s) && Enabled(s, a)
    ensures Wakeful(Do(s, a))
  {
    match a
    case Push(t, _) => assert t in Do(s, a).pushed;
    case AskQuit(t) => assert t in Do(s, a).quitting;
    case _ =>
  }

  lemma {:induction false} InvariantOverRuns(s: State, actions: seq<Action>)
    requires Bookkeeping(s) && Runs(s, actions)
    ensures Bookkeeping(After(s, actions))
    ensures Wakeful(s) ==> Wakeful(After(s, actions))
    decreases |actions|
  {
    if actions != [] {
      BookkeepingKept(s, actions[0]);
      if Wakeful(s) {
        WakefulKept(s, actions[0]);
      }
      InvariantOverRuns(Do(s, actions[0]), actions[1..]);
    }
  }

  /** About to poll, no queued task and no quit is without a wakeup. */
  predicate NothingLost(s: State) {
    s.pc == Polling ==> Covered(s) && QuitCovered(s)
  }

  /** In no interleaving is anything lost. */
  ghost predicate NeverLost(s: State) {
    forall actions: seq<Action> {:trigger Runs(s, actions)} :: Runs(s, actions) ==> NothingLost(After(s, actions))
  }

  /** No lost wakeup, and exactly when: from `loop` on, in every interleaving, the loop never
      polls with an unannounced task or quit if and only if no task was queued unannounced
      before `loop` was entered (as the loop thread's own early queue_in_loop does). */
  lemma NoLostWakeup(s: State)
    requires Entry(s)
    ensures NeverLost(s) <==> Covered(s)
  {
    if Covered(s) {
      forall actions: seq<Action> | Runs(s, actions) ensures NothingLost(After(s, actions)) {
        InvariantOverRuns(s, actions);
      }
    } else {
      var actions := [CheckQuit];
      assert actions[1..] == [];
      assert Runs(s, actions) && After(s, actions) == s.(pc := Polling);
    }
  }

  /** The unannounced case arises: the loop thread queues a task before calling `loop`. */
  lemma EarlyQueueIsLost(x: Task)
    ensures var s := State(Checking, false, false, 0, [x], [], [], {}, {});
            Entry(s) && !Covered(s) && Runs(s, [CheckQuit]) && !NothingLost(After(s, [CheckQuit]))
  {
    var s := State(Checking, false, false, 0, [x], [], [], {}, {});
    assert [CheckQuit][1..] == [];
    assert Runs(s, [CheckQuit]) && After(s, [CheckQuit]) == s.(pc := Polling);
  }

  // ---- exactly once, in order ----

  /** The tasks handed to queue_in_loop in a run, by producers and by the loop's own
      callbacks, in mutex order. */
  function Queued(actions: seq<Action>): (tasks: seq<Task>) {
    if actions == [] then []
    else (if actions[0].Push? || actions[0].LoopQueue? then [actions[0].x] else []) + Queued(actions[1..])
  }

  /** Everything queued so far, in the order in which it has run or will run. */
  function All(s: State): (tasks: seq<Task>) {
    s.executed + s.batch + s.pending
  }

  lemma QueuesOne(s: State, a: Action)
    requires Bookkeeping(s) && Enabled(s, a)
    ensures All(Do(s, a)) == All(s) + Queued([a]) && s.executed <= Do(s, a).executed
  {
    QueuedOne(a);
    hide Queued;
    var s' := Do(s, a);
    match a
    case Push(_, x) => MoreQueued(s, s', x);
    case LoopQueue(x) => MoreQueued(s, s', x);
    case Swap => assert s.batch == [] && s.executed + [] == s.executed;
    case RunTask => MovesOn(s.executed, s.batch, s.pending);
    case _ =>
  }

  lemma QueuedOne(a: Action)
    ensures Queued([a]) == if a.Push? || a.LoopQueue? then [a.x] else []
  {
    assert [a][1..] == [];
  }

  lemma MoreQueued(s: State, s': State, x: Task)
    requires s'.executed == s.executed && s'.batch == s.batch && s'.pending == s.pending + [x]
    ensures All(s') == All(s) + [x]
  {
  }

  lemma MovesOn(executed: seq<Task>, batch: seq<Task>, pending: seq<Task>)
    requires batch != []
    ensures executed + [batch[0]] + batch[1..] + pending == executed + batch + pending
  {
    assert [batch[0]] + batch[1..] == batch;
  }

  lemma QueuedFirst(actions: seq<Action>)
    requires actions != []
    ensures Queued(actions) == Queued([actions[0]]) + Queued(actions[1..])
  {
    assert [actions[0]][1..] == [];
  }

  /** Over every run the executed tasks, the rest of the batch and the queue are together
      exactly what was there before and what the run has queued, in that order; nothing
      executed is ever taken back. */
  lemma {:induction false} ExactlyOnceInOrder(s: State, actions: seq<Action>)
    requires Bookkeeping(s) && Runs(s, actions)
    ensures var s' := After(s, actions);
            All(s') == All(s) + Queued(actions) && s.executed <= s'.executed
    decreases |actions|
  {
    hide Bookkeeping, All;
    if actions == [] {
      assert All(s) + [] == All(s);
    } else {
      var s1 := Do(s, actions[0]);
      BookkeepingKept(s, actions[0]);
      QueuesOne(s, actions[0]);
      QueuedFirst(actions);
      ExactlyOnceInOrder(s1, actions[1..]);
      assert All(s) + Queued([actions[0]]) + Queued(actions[1..]) == All(s) + Queued(actions);
    }
  }

  /** Apart from the swap itself nothing lengthens a batch: a task that queues tasks leaves
      its own batch alone. */
  lemma BatchOnlyShrinks(s: State, a: Action)
    requires Enabled(s, a) && a != Swap
    ensures Do(s, a).batch == s.batch || (s.batch != [] && Do(s, a).batch == s.batch[1..])
    ensures a.LoopQueue? ==> Do(s, a).batch == s.batch && Do(s, a).pending == s.pending + [a.x]
  {
  }

  /** Whatever was queued when poll returned has run, in order, by the time the loop tests
      quit_, polls again or exits. */
  lemma {:induction false} RunBeforeNextPoll(s: State, actions: seq<Action>, due: nat)
    requires Bookkeeping(s) && Runs(s, actions)
    requires due <= |All(s)|
    requires s.pc in {Polling, Dispatching, Ticking, Swapping} || due <= |s.executed| + |s.batch|
    ensures var s' := After(s, actions);
            && (s'.pc in {Checking, Exited} ==> All(s)[..due] <= s'.executed)
            && (s'.pc == Polling && (s.pc != Polling || PollReturn in actions) ==> All(s)[..due] <= s'.executed)
    decreases |actions|
  {
    hide Runs, After;
    RunsOn(s, actions);
    if due <= |s.executed| + |s.batch| {
      StaysRun(s, actions, due);
    } else if actions != [] {
      var s1 := Do(s, actions[0]);
      BookkeepingKept(s, actions[0]);
      QueuesOne(s, actions[0]);
      RunBeforeNextPoll(s1, actions[1..], due);
      assert All(s1)[..due] == All(s)[..due];
    }
  }

  lemma RunsOn(s: State, actions: seq<Action>)
    requires Runs(s, actions)
    ensures actions == [] ==> After(s, actions) == s
    ensures actions != [] ==> Enabled(s, actions[0]) && Runs(Do(s, actions[0]), actions[1..])
                              && After(s, actions) == After(Do(s, actions[0]), actions[1..])
  {
  }

  /** What has been swapped out has run whenever the loop is not at the batch. */
  lemma {:induction false} StaysRun(s: State, actions: seq<Action>, due: nat)
    requires Bookkeeping(s) && Runs(s, actions) && due <= |s.executed| + |s.batch|
    ensures var s' := After(s, actions);
            s'.pc in {Checking, Polling, Exited} ==> All(s)[..due] <= s'.executed
    decreases |actions|
  {
    hide Runs, After;
    RunsOn(s, actions);
    if actions != [] {
      var s1 := Do(s, actions[0]);
      BookkeepingKept(s, actions[0]);
      QueuesOne(s, actions[0]);
      assert due <= |s1.executed| + |s1.batch|;
      StaysRun(s1, actions[1..], due);
      assert All(s1)[..due] == All(s)[..due];
    }
  }

  /** From poll on the loop can always finish its turn, and with that has run everything that
      was queued, in order. */
  lemma FullTurn(s: State) returns (actions: seq<Action>)
    requires Bookkeeping(s) && s.pc == Polling
    ensures Runs(s, actions) && After(s, actions).pc == Checking && After(s, actions).pending == []
    ensures After(s, actions).executed == All(s)
  {
    hide Runs, After;
    var s1 := Do(Do(s, PollReturn), EndDispatch);
    actions := RunPending(Do(s1, EndTick));
    RunsFrom(s1, EndTick, actions);
    RunsFrom(Do(s, PollReturn), EndDispatch, [EndTick] + actions);
    RunsFrom(s, PollReturn, [EndDispatch] + ([EndTick] + actions));
    actions := [PollReturn] + ([EndDispatch] + ([EndTick] + actions));
  }

  lemma RunPending(s: State) returns (actions: seq<Action>)
    requires Bookkeeping(s) && s.pc == Swapping
    ensures Runs(s, actions) && After(s, actions).pc == Checking && After(s, actions).pending == []
    ensures After(s, actions).executed == All(s)
  {
    hide Runs, After;
    actions := RunBatch(Do(s, Swap));
    RunsFrom(s, Swap, actions);
    assert s.executed + [] + s.pending == s.executed + s.pending;
    actions := [Swap] + actions;
  }

  /** A task queued from another thread while the loop polls is the last to run in that turn. */
  lemma PushIsRun(s: State, t: ThreadId, x: Task) returns (actions: seq<Action>)
    requires Bookkeeping(s) && s.pc == Polling && t !in s.pushed && t !in s.quitting
    ensures var run := [Push(t, x)] + ([Wake(t)] + actions);
            Runs(s, run) && After(s, run).pc == Checking && After(s, run).executed == All(s) + [x]
  {
    hide Runs, After;
    var s1 := Do(s, Push(t, x));
    var s2 := Do(s1, Wake(t));
    actions := FullTurn(s2);
    RunsFrom(s1, Wake(t), actions);
    RunsFrom(s, Push(t, x), [Wake(t)] + actions);
  }

  lemma RunsFrom(s: State, a: Action, actions: seq<Action>)
    requires Enabled(s, a) && Runs(Do(s, a), actions)
    ensures Runs(s, [a] + actions) && After(s, [a] + actions) == After(Do(s, a), actions)
  {
    assert ([a] + actions)[1..] == actions;
  }

  lemma {:induction false} RunBatch(s: State) returns (actions: seq<Action>)
    requires Bookkeeping(s) && s.pc == Running
    ensures Runs(s, actions)
    ensures After(s, actions) == s.(executed := s.executed + s.batch, batch := [], pc := Checking, calling := false)
    decreases |s.batch|
  {
    if s.batch == [] {
      actions := [EndTasks];
      RunsFrom(s, EndTasks, []);
      assert [EndTasks] + [] == [EndTasks] && s.executed + s.batch == s.executed;
    } else {
      actions := RunBatch(Do(s, RunTask));
      RunsFrom(s, RunTask, actions);
      assert s.executed + [s.batch[0]] + s.batch[1..] == s.executed + s.batch;
      actions := [RunTask] + actions;
    }
  }

  // ---- quitting ----

  /** quit_ is set after a run exactly if it was before or somebody has asked for it. */
  lemma {:induction false} QuitExactlyWhen(s: State, actions: seq<Action>)
    requires Runs(s, actions)
    ensures After(s, actions).quit <==> s.quit || exists a :: a in actions && (a.AskQuit? || a.LoopQuit?)
    decreases |actions|
  {
    if actions != [] {
      QuitExactlyWhen(Do(s, actions[0]), actions[1..]);
      assert forall a :: a in actions <==> a == actions[0] || a in actions[1..];
    }
  }

  /** A quit from another thread while the loop polls ends the loop after that turn. */
  lemma QuitIsHeeded(s: State, t: ThreadId) returns (actions: seq<Action>)
    requires Bookkeeping(s) && s.pc == Polling && t !in s.pushed && t !in s.quitting
    ensures var run := [AskQuit(t)] + ([WakeQuit(t)] + (actions + [CheckQuit]));
            Runs(s, run) && After(s, run).pc == Exited && After(s, run).executed == All(s)
  {
    hide Runs, After;
    var s1 := Do(s, AskQuit(t));
    var s2 := Do(s1, WakeQuit(t));
    actions := FullTurn(s2);
    QuitExactlyWhen(s2, actions);
    RunsThen(s2, actions, CheckQuit);
    RunsFrom(s1, WakeQuit(t), actions + [CheckQuit]);
    RunsFrom(s, AskQuit(t), [WakeQuit(t)] + (actions + [CheckQuit]));
  }

  lemma {:induction false} RunsThen(s: State, actions: seq<Action>, a: Action)
    requires Runs(s, actions) && Enabled(After(s, actions), a)
    ensures Runs(s, actions + [a]) && After(s, actions + [a]) == Do(After(s, actions), a)
    decreases |actions|
  {
    if actions == [] {
      assert actions + [a] == [a] && [a][1..] == [];
    } else {
      assert (actions + [a])[1..] == actions[1..] + [a];
      RunsThen(Do(s, actions[0]), actions[1..], a);
    }
  }

  /** Once `quit` has been seen set anywhere but in poll, the loop does not poll again. */
  lemma {:induction false} QuitStops(s: State, actions: seq<Action>)
    requires s.quit && s.pc != Polling && Runs(s, actions)
    ensures After(s, actions).quit && After(s, actions).pc != Polling
    decreases |actions|
  {
    if actions != [] {
      QuitStops(Do(s, actions[0]), actions[1..]);
    }
  }
}
