/** Connections of the server over every run of its loop: accept, read, idle timeout, close
    and the deferred erase that finally destroys a connection. */
module Lifecycle {

  type Fd = nat

  /** `key` tells apart the connections that use one descriptor one after the other. */
  datatype Connection = Connection(key: nat, closed: bool, timer: nat)

  /** The erase queued by a close.  The task itself knows only the descriptor; `key` records
      which connection it was queued for. */
  datatype Erase = Erase(fd: Fd, key: nat)

  datatype Owner = Owner(fd: Fd, key: nat)

  datatype Phase = Polling | Dispatching | Ticking | Running

  datatype Server = Server(
    phase: Phase,
    connections: map<Fd, Connection>,
    inUse: set<Fd>,              // descriptors the kernel will not hand out
    alive: set<nat>,             // keys of connection objects not yet destroyed
    timers: map<nat, Owner>,     // live idle timers
    active: seq<Owner>,          // channels poll reported, still to be dispatched
    batch: seq<Erase>,           // erases being run
    pending: seq<Erase>,         // erases queued
    nextKey: nat,
    nextTimer: nat)

  /** What came of a readable event. */
  datatype Reading = NotReadable | Ended | Got(closes: bool)

  datatype Action =
    | Poll(found: seq<Owner>)
    | Accept(fd: Fd)
    | Event(failed: bool, reading: Reading)
    | EndDispatch
    | Timeout(timer: nat)
    | EndTick
    | RunErase
    | EndTasks

  // ---- the handlers ----

  /** Close at most once: mark, cancel the idle timer, queue the erase. */
  function OnClose(s: Server, fd: Fd): (s': Server) {
    if fd !in s.connections || s.connections[fd].closed then s
    else
      var c := s.connections[fd];
      s.(connections := s.connections[fd := c.(closed := true)],
         timers := s.timers - {c.timer},
         pending := s.pending + [Erase(fd, c.key)])
  }

  /** Replace the connection's idle timer by a fresh one; see `RefreshRenews`. */
  function RefreshTimeout(s: Server, fd: Fd): (s': Server)
    requires fd in s.connections
  {
    var c := s.connections[fd];
    s.(connections := s.connections[fd := c.(timer := s.nextTimer)],
       timers := (s.timers - {c.timer})[s.nextTimer := Owner(fd, c.key)],
       nextTimer := s.nextTimer + 1)
  }

  /** End of stream or an error closes; bytes restart the idle timer, and handling the
      requests in them may close. */
  function OnMessage(s: Server, fd: Fd, reading: Reading): (s': Server) {
    if fd !in s.connections || s.connections[fd].closed then s
    else match reading
      case NotReadable => s
      case Ended => OnClose(s, fd)
      case Got(closes) =>
        var s1 := RefreshTimeout(s, fd);
        if closes then OnClose(s1, fd) else s1
  }

  /** A new connection object takes the descriptor; one still in the map under it would be
      destroyed by the assignment. */
  function OnAccept(s: Server, fd: Fd): (s': Server) {
    var kept := if fd in s.connections then s.alive - {s.connections[fd].key} else s.alive;
    s.(connections := s.connections[fd := Connection(s.nextKey, false, s.nextTimer)],
       inUse := s.inUse + {fd},
       alive := kept + {s.nextKey},
       timers := s.timers[s.nextTimer := Owner(fd, s.nextKey)],
       nextKey := s.nextKey + 1,
       nextTimer := s.nextTimer + 1)
  }

  /** Whatever the map holds under the descriptor is destroyed and its socket closed. */
  function EraseFd(s: Server, fd: Fd): (s': Server) {
    if fd !in s.connections then s
    else s.(connections := s.connections - {fd}, alive := s.alive - {s.connections[fd].key}, inUse := s.inUse - {fd})
  }

  // ---- the loop ----

  predicate Enabled(s: Server, a: Action) {
    match a
    case Poll(found) =>
      s.phase == Polling && forall i :: 0 <= i < |found| ==>
        found[i].fd in s.connections && s.connections[found[i].fd].key == found[i].key
    case Accept(fd) => s.phase == Dispatching && fd !in s.inUse
    case Event(_, _) => s.phase == Dispatching && s.active != []
    case EndDispatch => s.phase == Dispatching && s.active == []
    case Timeout(timer) => s.phase == Ticking && timer in s.timers
    case EndTick => s.phase == Ticking
    case RunErase => s.phase == Running && s.batch != []
    case EndTasks => s.phase == Running && s.batch == []
  }

  function Do(s: Server, a: Action): (s': Server)
    requires Enabled(s, a)
  {
    match a
    case Poll(found) => s.(phase := Dispatching, active := found)
    case Accept(fd) => OnAccept(s, fd)
    case Event(failed, reading) =>
      var fd := s.active[0].fd;
      var s1 := if failed then OnClose(s, fd) else s;
      OnMessage(s1, fd, reading).(active := s.active[1..])
    case EndDispatch => s.(phase := Ticking)
    case Timeout(timer) => OnClose(s.(timers := s.timers - {timer}), s.timers[timer].fd)
    case EndTick => s.(phase := Running, batch := s.pending, pending := [])
    case RunErase => EraseFd(s, s.batch[0].fd).(batch := s.batch[1..])
    case EndTasks => s.(phase := Polling)
  }

  predicate Runs(s: Server, actions: seq<Action>)
    decreases |actions|
  {
    actions == [] || (Enabled(s, actions[0]) && Runs(Do(s, actions[0]), actions[1..]))
  }

  function After(s: Server, actions: seq<Action>): (s': Server)
    requires Runs(s, actions)
    decreases |actions|
  {
    if actions == [] then s else After(Do(s, actions[0]), actions[1..])
  }

  /** The server has just been started. */
  const STARTED := Server(Polling, map[], {}, {}, map[], [], [], [], 0, 1)

  // ---- what every action keeps ----

  function Queue(s: Server): (q: seq<Erase>) {
    s.batch + s.pending
  }

  /** One connection per descriptor, each with its own key; the map's connections are
      exactly the ones alive, and their descriptors are in use. */
  predicate Owned(connections: map<Fd, Connection>, inUse: set<Fd>, alive: set<nat>, nextKey: nat) {
    && (forall fd :: fd in connections ==> fd in inUse && connections[fd].key in alive && connections[fd].key < nextKey)
    && (forall fd, fd' :: fd in connections && fd' in connections && connections[fd].key == connections[fd'].key
          ==> fd == fd')
    && (forall k :: k in alive ==> exists fd :: fd in connections && connections[fd].key == k)
  }

  /** Queued erases are for closed connections, one each. */
  predicate ErasesFit(q: seq<Erase>, connections: map<Fd, Connection>) {
    && (forall i :: 0 <= i < |q| ==>
          q[i].fd in connections && connections[q[i].fd].closed && connections[q[i].fd].key == q[i].key)
    && (forall i, j :: 0 <= i < j < |q| ==> q[i].fd != q[j].fd)
    && (forall fd :: fd in connections && connections[fd].closed ==>
          exists i :: 0 <= i < |q| && q[i].fd == fd)
  }

  /** Live timers and open connections belong to each other. */
  predicate TimersFit(connections: map<Fd, Connection>, timers: map<nat, Owner>, nextTimer: nat) {
    && (forall t :: t in timers ==>
          t < nextTimer && timers[t].fd in connections
          && var c := connections[timers[t].fd]; !c.closed && c.timer == t && c.key == timers[t].key)
    && (forall fd :: fd in connections && !connections[fd].closed ==>
          connections[fd].timer in timers && timers[connections[fd].timer] == Owner(fd, connections[fd].key))
  }

  /** Channels waiting for dispatch belong to connections still in the map. */
  predicate ActiveFit(active: seq<Owner>, connections: map<Fd, Connection>) {
    forall i :: 0 <= i < |active| ==>
      active[i].fd in connections && connections[active[i].fd].key == active[i].key
  }

  predicate Inv(s: Server) {
    && Owned(s.connections, s.inUse, s.alive, s.nextKey)
    && ErasesFit(Queue(s), s.connections)
    && TimersFit(s.connections, s.timers, s.nextTimer)
    && ActiveFit(s.active, s.connections)
    && (s.active != [] ==> s.phase == Dispatching)
    && (s.batch != [] ==> s.phase == Running)
  }

  /** Changing anything but the key of a connection leaves ownership alone. */
  lemma OwnedSame(connections: map<Fd, Connection>, inUse: set<Fd>, alive: set<nat>, nextKey: nat, active: seq<Owner>,
                  fd: Fd, c: Connection)
    requires Owned(connections, inUse, alive, nextKey) && ActiveFit(active, connections)
    requires fd in connections && c.key == connections[fd].key
    ensures Owned(connections[fd := c], inUse, alive, nextKey) && ActiveFit(active, connections[fd := c])
  {
    var connections' := connections[fd := c];
    forall k | k in alive ensures exists fd :: fd in connections' && connections'[fd].key == k {
      var fd' :| fd' in connections && connections[fd'].key == k;
      assert fd' in connections' && connections'[fd'].key == k;
    }
  }

  lemma CloseTimers(connections: map<Fd, Connection>, timers: map<nat, Owner>, nextTimer: nat, fd: Fd)
    requires TimersFit(connections, timers, nextTimer) && fd in connections && !connections[fd].closed
    ensures TimersFit(connections[fd := connections[fd].(closed := true)], timers - {connections[fd].timer}, nextTimer)
  {
  }

  lemma CloseKeeps(s: Server, fd: Fd)
    requires Inv(s)
    ensures Inv(OnClose(s, fd))
  {
    if fd in s.connections && !s.connections[fd].closed {
      var s' := OnClose(s, fd);
      hide Owned, ErasesFit, TimersFit, ActiveFit;
      var c := s.connections[fd];
      assert Queue(s') == Queue(s) + [Erase(fd, c.key)];
      QueueOneMore(Queue(s), s.connections, fd);
      OwnedSame(s.connections, s.inUse, s.alive, s.nextKey, s.active, fd, c.(closed := true));
      CloseTimers(s.connections, s.timers, s.nextTimer, fd);
    }
  }

  lemma QueueOneMore(q: seq<Erase>, connections: map<Fd, Connection>, fd: Fd)
    requires ErasesFit(q, connections) && fd in connections && !connections[fd].closed
    ensures ErasesFit(q + [Erase(fd, connections[fd].key)], connections[fd := connections[fd].(closed := true)])
  {
    var q', connections' := q + [Erase(fd, connections[fd].key)], connections[fd := connections[fd].(closed := true)];
    forall fd' | fd' in connections' && connections'[fd'].closed
      ensures exists i :: 0 <= i < |q'| && q'[i].fd == fd'
    {
      if fd' == fd {
        assert q'[|q|].fd == fd;
      } else {
        var i :| 0 <= i < |q| && q[i].fd == fd';
        assert q'[i].fd == fd';
      }
    }
  }

  /** Queued erases do not care about timers. */
  lemma ErasesSame(q: seq<Erase>, connections: map<Fd, Connection>, fd: Fd, timer: nat)
    requires ErasesFit(q, connections) && fd in connections
    ensures ErasesFit(q, connections[fd := connections[fd].(timer := timer)])
  {
    var connections' := connections[fd := connections[fd].(timer := timer)];
    assert forall fd' :: fd' in connections' && connections'[fd'].closed ==> connections[fd'].closed;
  }

  lemma RefreshTimers(connections: map<Fd, Connection>, timers: map<nat, Owner>, nextTimer: nat, fd: Fd)
    requires TimersFit(connections, timers, nextTimer) && fd in connections && !connections[fd].closed
    ensures TimersFit(connections[fd := connections[fd].(timer := nextTimer)],
                      (timers - {connections[fd].timer})[nextTimer := Owner(fd, connections[fd].key)], nextTimer + 1)
  {
  }

  lemma RefreshKeeps(s: Server, fd: Fd)
    requires Inv(s) && fd in s.connections && !s.connections[fd].closed
    ensures Inv(RefreshTimeout(s, fd))
  {
    hide Owned, ErasesFit, TimersFit, ActiveFit;
    ErasesSame(Queue(s), s.connections, fd, s.nextTimer);
    RefreshTimers(s.connections, s.timers, s.nextTimer, fd);
    OwnedSame(s.connections, s.inUse, s.alive, s.nextKey, s.active, fd, s.connections[fd].(timer := s.nextTimer));
  }

  lemma MessageKeeps(s: Server, fd: Fd, reading: Reading)
    requires Inv(s)
    ensures Inv(OnMessage(s, fd, reading))
  {
    hide Inv, OnClose, RefreshTimeout;
    if fd in s.connections && !s.connections[fd].closed {
      CloseKeeps(s, fd);
      RefreshKeeps(s, fd);
      CloseKeeps(RefreshTimeout(s, fd), fd);
    }
  }

  /** The kernel hands out only descriptors not in use, so nothing is replaced. */
  lemma AcceptKeeps(s: Server, fd: Fd)
    requires Inv(s) && s.phase == Dispatching && fd !in s.inUse
    ensures fd !in s.connections && Inv(OnAccept(s, fd))
  {
    hide ErasesFit, TimersFit;
    var c := Connection(s.nextKey, false, s.nextTimer);
    AcceptErases(Queue(s), s.connections, fd, c);
    AcceptTimers(s.connections, s.timers, s.nextTimer, fd, s.nextKey);
    AcceptOwned(s.connections, s.inUse, s.alive, s.nextKey, fd, c);
    hide Owned;
  }

  lemma AcceptOwned(connections: map<Fd, Connection>, inUse: set<Fd>, alive: set<nat>, nextKey: nat, fd: Fd,
                    c: Connection)
    requires Owned(connections, inUse, alive, nextKey) && fd !in connections && c.key == nextKey
    ensures Owned(connections[fd := c], inUse + {fd}, alive + {nextKey}, nextKey + 1)
  {
    var connections' := connections[fd := c];
    forall k | k in alive + {nextKey} ensures exists fd :: fd in connections' && connections'[fd].key == k {
      if k == nextKey {
        assert connections'[fd].key == k;
      } else {
        var fd' :| fd' in connections && connections[fd'].key == k;
        assert connections'[fd'].key == k;
      }
    }
  }

  lemma AcceptErases(q: seq<Erase>, connections: map<Fd, Connection>, fd: Fd, c: Connection)
    requires ErasesFit(q, connections) && fd !in connections && !c.closed
    ensures ErasesFit(q, connections[fd := c])
  {
    var connections' := connections[fd := c];
    assert forall fd' :: fd' in connections' && connections'[fd'].closed ==>
                           fd' in connections && connections[fd'].closed;
  }

  lemma AcceptTimers(connections: map<Fd, Connection>, timers: map<nat, Owner>, nextTimer: nat, fd: Fd, key: nat)
    requires TimersFit(connections, timers, nextTimer) && fd !in connections
    ensures TimersFit(connections[fd := Connection(key, false, nextTimer)],
                      timers[nextTimer := Owner(fd, key)], nextTimer + 1)
  {
  }

  /** A task erases the connection it was queued for: closed, and not a later one that has
      taken the descriptor over. */
  lemma EraseHitsItsOwn(s: Server)
    requires Inv(s) && s.batch != []
    ensures var e := s.batch[0];
            e.fd in s.connections && s.connections[e.fd].closed && s.connections[e.fd].key == e.key
  {
    assert Queue(s)[0] == s.batch[0];
  }

  lemma EraseKeeps(s: Server)
    requires Inv(s) && Enabled(s, RunErase)
    ensures Inv(Do(s, RunErase))
  {
    hide Owned, ErasesFit, TimersFit, ActiveFit;
    var s', fd := Do(s, RunErase), s.batch[0].fd;
    EraseHitsItsOwn(s);
    assert Queue(s)[0] == s.batch[0] && Queue(s') == Queue(s)[1..];
    EraseErases(Queue(s), s.connections);
    EraseTimers(s.connections, s.timers, s.nextTimer, fd);
    EraseOwned(s.connections, s.inUse, s.alive, s.nextKey, fd);
    assert s.active == [];
    NoneActive(s'.connections);
  }

  lemma NoneActive(connections: map<Fd, Connection>)
    ensures ActiveFit([], connections)
  {
  }

  lemma EraseOwned(connections: map<Fd, Connection>, inUse: set<Fd>, alive: set<nat>, nextKey: nat, fd: Fd)
    requires Owned(connections, inUse, alive, nextKey) && fd in connections
    ensures Owned(connections - {fd}, inUse - {fd}, alive - {connections[fd].key}, nextKey)
  {
    var connections' := connections - {fd};
    forall k | k in alive - {connections[fd].key} ensures exists fd :: fd in connections' && connections'[fd].key == k {
      var fd' :| fd' in connections && connections[fd'].key == k;
      assert fd' in connections' && connections'[fd'].key == k;
    }
  }

  lemma EraseErases(q: seq<Erase>, connections: map<Fd, Connection>)
    requires ErasesFit(q, connections) && q != []
    ensures ErasesFit(q[1..], connections - {q[0].fd})
  {
    var q', connections' := q[1..], connections - {q[0].fd};
    assert forall i :: 0 <= i < |q'| ==> q'[i] == q[i + 1];
    forall fd | fd in connections' && connections'[fd].closed ensures exists i :: 0 <= i < |q'| && q'[i].fd == fd {
      var i :| 0 <= i < |q| && q[i].fd == fd;
      assert q'[i - 1].fd == fd;
    }
  }

  lemma EraseTimers(connections: map<Fd, Connection>, timers: map<nat, Owner>, nextTimer: nat, fd: Fd)
    requires TimersFit(connections, timers, nextTimer) && fd in connections && connections[fd].closed
    ensures TimersFit(connections - {fd}, timers, nextTimer)
  {
  }

  /** A timer that fires has an open connection behind it; its callback closes that. */
  lemma TimeoutIsClose(s: Server, timer: nat)
    requires Inv(s) && Enabled(s, Timeout(timer))
    ensures var o := s.timers[timer];
            o.fd in s.connections && s.connections[o.fd].key == o.key && !s.connections[o.fd].closed
    ensures Do(s, Timeout(timer)) == OnClose(s, s.timers[timer].fd)
  {
    assert s.timers - {timer} - {timer} == s.timers - {timer};
  }

  lemma ActionKeeps(s: Server, a: Action)
    requires Inv(s) && Enabled(s, a)
    ensures Inv(Do(s, a))
  {
    hide Inv, OnClose, OnMessage, EraseFd, OnAccept;
    match a
    case Poll(_) => EasyKeeps(s, a);
    case EndDispatch => EasyKeeps(s, a);
    case EndTick => EasyKeeps(s, a);
    case EndTasks => EasyKeeps(s, a);
    case Accept(fd) => AcceptKeeps(s, fd);
    case RunErase => EraseKeeps(s);
    case Event(_, _) => EventKeeps(s, a);
    case Timeout(timer) =>
      TimeoutIsClose(s, timer);
      CloseKeeps(s, s.timers[timer].fd);
  }

  /** Dispatching a channel never meets a destroyed connection. */
  lemma EventKeeps(s: Server, a: Action)
    requires Inv(s) && Enabled(s, a) && a.Event?
    ensures s.active[0].key in s.alive && Inv(Do(s, a))
  {
    var fd := s.active[0].fd;
    var s1 := if a.failed then OnClose(s, fd) else s;
    var s2 := OnMessage(s1, fd, a.reading);
    assert s2.active == s.active;
    assert s.active[0].key in s.alive;
    CloseKeeps(s, fd);
    MessageKeeps(s1, fd, a.reading);
    Dispatched(s2);
    hide Inv;
  }

  lemma EasyKeeps(s: Server, a: Action)
    requires Inv(s) && Enabled(s, a) && (a.Poll? || a.EndDispatch? || a.EndTick? || a.EndTasks?)
    ensures Inv(Do(s, a))
  {
    hide ErasesFit, TimersFit, Owned;
    assert Queue(Do(s, a)) == Queue(s);
  }

  lemma Dispatched(s: Server)
    requires s.active != [] && Inv(s)
    ensures Inv(s.(active := s.active[1..]))
  {
    hide ErasesFit, TimersFit, Owned;
    assert Queue(s.(active := s.active[1..])) == Queue(s);
  }

  // ---- what every action does ----

  /** All the other connections, and their timers, are as they were. */
  predicate OthersKept(s: Server, s': Server, fd: Fd) {
    && s'.connections.Keys - {fd} == s.connections.Keys - {fd}
    && (forall g :: g in s.connections && g in s'.connections && g != fd ==> s'.connections[g] == s.connections[g])
    && (forall t :: t in s.timers && s.timers[t].fd != fd ==> t in s'.timers && s'.timers[t] == s.timers[t])
    && (forall t :: t in s'.timers && s'.timers[t].fd != fd ==> t in s.timers && s.timers[t] == s'.timers[t])
  }

  /** The connection goes on with a timer of its own that was not live before, and none of
      the others, and the one it had is cancelled. */
  predicate Renewed(s: Server, s': Server, fd: Fd)
    requires fd in s.connections
  {
    && OthersKept(s, s', fd)
    && fd in s'.connections
    && s'.batch == s.batch && s'.pending == s.pending && s'.alive == s.alive && s'.inUse == s.inUse
    && var c, c' := s.connections[fd], s'.connections[fd];
       && c'.key == c.key && !c'.closed
       && c.timer !in s'.timers && c'.timer !in s.timers
       && c'.timer in s'.timers && s'.timers[c'.timer] == Owner(fd, c.key)
  }

  /** The connection is closed, without a timer, and one erase for it has been queued. */
  predicate Shut(s: Server, s': Server, fd: Fd)
    requires fd in s.connections
  {
    && OthersKept(s, s', fd)
    && fd in s'.connections && s'.connections[fd].closed && s'.connections[fd].key == s.connections[fd].key
    && (forall t :: t in s'.timers ==> s'.timers[t].fd != fd)
    && s'.batch == s.batch && s'.pending == s.pending + [Erase(fd, s.connections[fd].key)]
    && s'.alive == s.alive && s'.inUse == s.inUse
  }

  predicate Open(s: Server, fd: Fd) {
    fd in s.connections && !s.connections[fd].closed
  }

  lemma RefreshRenews(s: Server, fd: Fd)
    requires Inv(s) && Open(s, fd)
    ensures Renewed(s, RefreshTimeout(s, fd), fd)
  {
    hide Owned, ErasesFit, ActiveFit;
  }

  /** Closing shuts an open connection, and does nothing to any other. */
  lemma CloseShuts(s: Server, fd: Fd)
    requires Inv(s)
    ensures if Open(s, fd) then Shut(s, OnClose(s, fd), fd) else OnClose(s, fd) == s
  {
    hide Owned, ErasesFit, ActiveFit;
  }

  /** Renewed and then shut is shut. */
  lemma ShutAfterAll(s: Server, s1: Server, s': Server, fd: Fd)
    requires fd in s.connections && Renewed(s, s1, fd) && Shut(s1, s', fd)
    ensures Shut(s, s', fd)
  {
    KeptTwice(s, s1, s', fd);
    hide OthersKept;
  }

  lemma KeptTwice(s: Server, s1: Server, s': Server, fd: Fd)
    requires OthersKept(s, s1, fd) && OthersKept(s1, s', fd)
    ensures OthersKept(s, s', fd)
  {
    assert forall g :: g in s1.connections && g != fd <==> g in s1.connections.Keys - {fd};
    assert forall g :: g in s'.connections && g != fd <==> g in s'.connections.Keys - {fd};
    assert forall g :: g in s.connections && g != fd <==> g in s.connections.Keys - {fd};
  }

  /** What a read does to an open connection: bytes that do not close it renew its timer; the
      end of the stream, an error and a close on the way shut it. */
  lemma MessageDoes(s: Server, fd: Fd, reading: Reading)
    requires Inv(s)
    ensures var s' := OnMessage(s, fd, reading);
            if !Open(s, fd) || reading == NotReadable then s' == s
            else if reading == Got(false) then Renewed(s, s', fd)
            else Shut(s, s', fd)
  {
    hide Inv, OnClose, RefreshTimeout, Renewed, Shut;
    if Open(s, fd) {
      var s1 := RefreshTimeout(s, fd);
      RefreshRenews(s, fd);
      RefreshKeeps(s, fd);
      CloseShuts(s, fd);
      CloseShuts(s1, fd);
      StillOpen(s, s1, fd);
      if reading == Got(true) {
        ShutAfterAll(s, s1, OnClose(s1, fd), fd);
      }
    }
  }

  lemma StillOpen(s: Server, s': Server, fd: Fd)
    requires fd in s.connections && Renewed(s, s', fd)
    ensures Open(s', fd)
  {
  }

  /** Accepting adds one open connection with a key never used before and a timer of its own. */
  lemma AcceptAdds(s: Server, fd: Fd)
    requires Inv(s) && Enabled(s, Accept(fd))
    ensures var s' := Do(s, Accept(fd));
            && OthersKept(s, s', fd) && fd !in s.connections && Open(s', fd) && Queue(s') == Queue(s)
            && var c := s'.connections[fd];
               && c.key !in s.alive && s'.alive == s.alive + {c.key} && s'.inUse == s.inUse + {fd}
               && c.timer !in s.timers && c.timer in s'.timers && s'.timers[c.timer] == Owner(fd, c.key)
  {
    hide ErasesFit, ActiveFit;
  }

  /** An erase destroys the connection it was queued for and frees its descriptor. */
  lemma EraseRemoves(s: Server)
    requires Inv(s) && Enabled(s, RunErase)
    ensures var s', e := Do(s, RunErase), s.batch[0];
            && OthersKept(s, s', e.fd) && e.fd !in s'.connections && e.fd !in s'.inUse
            && s'.alive == s.alive - {e.key} && s'.inUse == s.inUse - {e.fd} && Queue(s') == Queue(s)[1..]
  {
    hide Owned, ErasesFit, ActiveFit;
    EraseHitsItsOwn(s);
    assert forall t :: t in s.timers ==> s.timers[t].fd != s.batch[0].fd;
  }

  /** An event reaches the connection at the head of the dispatch list and no other: a failed
      one is shut before anything is read, and otherwise it is treated as the read says. */
  lemma EventDoes(s: Server, failed: bool, reading: Reading)
    requires Inv(s) && Enabled(s, Event(failed, reading))
    ensures var s', fd := Do(s, Event(failed, reading)), s.active[0].fd;
            && fd in s.connections && s'.active == s.active[1..]
            && if !Open(s, fd) || (!failed && reading == NotReadable) then s' == s.(active := s.active[1..])
               else if !failed && reading == Got(false) then Renewed(s, s', fd)
               else Shut(s, s', fd)
  {
    hide Inv, OnClose, OnMessage, RefreshTimeout, Renewed, Shut;
    var fd := s.active[0].fd;
    ActiveThere(s);
    var s1 := if failed then OnClose(s, fd) else s;
    CloseShuts(s, fd);
    CloseKeeps(s, fd);
    MessageDoes(s1, fd, reading);
    if failed && Open(s, fd) {
      ShutIsNotOpen(s, s1, fd);
    }
    Onward(s, OnMessage(s1, fd, reading), s.active[1..], fd);
  }

  lemma ActiveThere(s: Server)
    requires Inv(s) && s.active != []
    ensures s.active[0].fd in s.connections
  {
  }

  lemma ShutIsNotOpen(s: Server, s': Server, fd: Fd)
    requires fd in s.connections && Shut(s, s', fd)
    ensures !Open(s', fd)
  {
  }

  /** The dispatch list is nobody's business. */
  lemma Onward(s: Server, s': Server, active: seq<Owner>, fd: Fd)
    requires fd in s.connections
    ensures Renewed(s, s'.(active := active), fd) <==> Renewed(s, s', fd)
    ensures Shut(s, s'.(active := active), fd) <==> Shut(s, s', fd)
  {
  }

  /** An open connection is closed by exactly these actions: an event of its own that failed,
      ended the stream or closed on the way, and the firing of the timer it has now. */
  lemma ClosedExactlyWhen(s: Server, a: Action, fd: Fd)
    requires Inv(s) && Enabled(s, a) && Open(s, fd)
    ensures fd in Do(s, a).connections
    ensures Do(s, a).connections[fd].closed <==>
              match a
              case Event(failed, reading) => s.active[0].fd == fd && (failed || reading in {Ended, Got(true)})
              case Timeout(timer) => timer == s.connections[fd].timer
              case _ => false
  {
    hide Owned, ActiveFit, ErasesFit;
    match a
    case Event(failed, reading) => EventDoes(s, failed, reading);
    case Timeout(timer) => TimeoutIsClose(s, timer);
    case RunErase => EraseHitsItsOwn(s);
    case Accept(g) => AcceptAdds(s, g);
    case _ =>
  }

  lemma RunsFrom(s: Server, a: Action, actions: seq<Action>)
    requires Enabled(s, a) && Runs(Do(s, a), actions)
    ensures Runs(s, [a] + actions) && After(s, [a] + actions) == After(Do(s, a), actions)
  {
    assert ([a] + actions)[1..] == actions;
  }

  function OpenOnes(connections: map<Fd, Connection>): (open: map<Fd, Connection>) {
    map fd | fd in connections && !connections[fd].closed :: connections[fd]
  }

  /** Running the erases that were swapped out leaves the open connections. */
  lemma {:induction false} RunErases(s: Server) returns (actions: seq<Action>)
    requires Inv(s) && s.phase == Running && s.pending == []
    ensures Runs(s, actions)
    ensures var s' := After(s, actions);
            s'.phase == Polling && Queue(s') == [] && s'.timers == s.timers && s'.connections == OpenOnes(s.connections)
    decreases |s.batch|
  {
    hide *;
    if s.batch == [] {
      LastErase(s);
      actions := [EndTasks];
      NothingRuns(Do(s, EndTasks));
      RunsFrom(s, EndTasks, []);
      assert [EndTasks] + [] == [EndTasks];
    } else {
      OneErase(s);
      actions := RunErases(Do(s, RunErase));
      RunsFrom(s, RunErase, actions);
      actions := [RunErase] + actions;
    }
  }

  lemma OneErase(s: Server)
    requires Inv(s) && s.phase == Running && s.batch != []
    ensures Enabled(s, RunErase)
    ensures var s' := Do(s, RunErase);
            && Inv(s') && s'.phase == Running && s'.pending == s.pending && s'.batch == s.batch[1..]
            && s'.timers == s.timers && OpenOnes(s'.connections) == OpenOnes(s.connections)
  {
    hide Owned, ErasesFit, ActiveFit, TimersFit;
    EraseHitsItsOwn(s);
    EraseKeeps(s);
    hide Inv;
  }

  lemma LastErase(s: Server)
    requires Inv(s) && s.phase == Running && s.batch == [] && s.pending == []
    ensures Enabled(s, EndTasks)
    ensures var s' := Do(s, EndTasks);
            s'.phase == Polling && Queue(s') == [] && s'.timers == s.timers && s'.connections == OpenOnes(s.connections)
  {
    assert Queue(s) == [];
  }

  lemma NothingRuns(s: Server)
    ensures Runs(s, []) && After(s, []) == s
  {
  }

  /** From poll on the loop can always finish its turn, and if nothing else happens in it the
      closed connections are destroyed and the open ones are as they were. */
  lemma FullTurn(s: Server) returns (actions: seq<Action>)
    requires Inv(s) && s.phase == Polling
    ensures Runs(s, actions)
    ensures var s' := After(s, actions);
            s'.phase == Polling && Queue(s') == [] && s'.timers == s.timers && s'.connections == OpenOnes(s.connections)
  {
    hide Runs, After, Inv, OpenOnes;
    var s1 := Do(s, Poll([]));
    ActionKeeps(s, Poll([]));
    var s2 := Do(s1, EndDispatch);
    ActionKeeps(s1, EndDispatch);
    var s3 := Do(s2, EndTick);
    ActionKeeps(s2, EndTick);
    actions := RunErases(s3);
    RunsFrom(s2, EndTick, actions);
    RunsFrom(s1, EndDispatch, [EndTick] + actions);
    RunsFrom(s, Poll([]), [EndDispatch] + ([EndTick] + actions));
    actions := [Poll([])] + ([EndDispatch] + ([EndTick] + actions));
  }

  /** From the start on, in every run: see `Inv` and the lemmas that read it. */
  lemma {:induction false} LifecycleTheorem(s: Server, actions: seq<Action>)
    requires Inv(s) && Runs(s, actions)
    ensures Inv(After(s, actions))
    decreases |actions|
  {
    if actions != [] {
      ActionKeeps(s, actions[0]);
      LifecycleTheorem(Do(s, actions[0]), actions[1..]);
    }
  }

  lemma StartedHolds()
    ensures Inv(STARTED)
  {
  }

  function Occurrences(q: seq<Erase>, fd: Fd): (n: nat) {
    if q == [] then 0 else (if q[0].fd == fd then 1 else 0) + Occurrences(q[1..], fd)
  }

  lemma {:induction false} OccursAtMostOnce(q: seq<Erase>, fd: Fd)
    requires forall i, j :: 0 <= i < j < |q| ==> q[i].fd != q[j].fd
    ensures Occurrences(q, fd) == if exists i :: 0 <= i < |q| && q[i].fd == fd then 1 else 0
  {
    if q != [] {
      var q' := q[1..];
      OccursAtMostOnce(q', fd);
      assert forall i :: 1 <= i < |q| ==> q[i] == q'[i - 1];
      if i :| 0 <= i < |q'| && q'[i].fd == fd {
        assert q[i + 1].fd == fd;
      }
    }
  }

  /** In every run from the start: a closed connection still in the map has exactly one
      erase queued and an open one none; live timers and open connections are in one-to-one
      correspondence; the task about to run erases the very connection it was queued for;
      and no channel waiting for dispatch belongs to a destroyed connection. */
  lemma EveryRun(actions: seq<Action>)
    requires Runs(STARTED, actions)
    ensures var s := After(STARTED, actions);
            && (forall fd :: fd in s.connections ==>
                  Occurrences(Queue(s), fd) == if s.connections[fd].closed then 1 else 0)
            && TimersFit(s.connections, s.timers, s.nextTimer)
            && (s.batch != [] ==> var e := s.batch[0];
                  e.fd in s.connections && s.connections[e.fd].closed && s.connections[e.fd].key == e.key)
            && (forall i :: 0 <= i < |s.active| ==> s.active[i].key in s.alive)
            && (forall k :: k in s.alive <==> exists fd :: fd in s.connections && s.connections[fd].key == k)
  {
    StartedHolds();
    LifecycleTheorem(STARTED, actions);
    var s := After(STARTED, actions);
    assert Inv(s);
    forall fd | fd in s.connections
      ensures Occurrences(Queue(s), fd) == if s.connections[fd].closed then 1 else 0
    {
      OccursAtMostOnce(Queue(s), fd);
    }
    if s.batch != [] {
      EraseHitsItsOwn(s);
    }
  }
}
