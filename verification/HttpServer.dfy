/** The server's connection table as objects updated in place, each with its own parser and
    buffer.  Each handler is proved to do to the objects what the lifecycle machine does to
    their values, so what holds in every run of the machine holds of the objects. */
module Serving {
  import L = Lifecycle
  import C = Connection
  import S = ParserSpec
  import P = HttpParsing
  import B = ChainBuffer

  type Fd = L.Fd

  /** A connection object; its channel and its idle timer's callback hold on to it. */
  class Conn {
    const fd: Fd
    ghost const key: nat
    const parser: P.HttpParser
    const readBuf: B.Buffer
    var closed: bool
    var timer: nat

    constructor (fd: Fd, ghost key: nat, timer: nat)
      ensures this.fd == fd && this.key == key && !closed && this.timer == timer
      ensures fresh(parser) && parser.Ok() && parser.View() == S.INITIAL && fresh(readBuf) && fresh(readBuf.Repr)
      ensures readBuf.Valid() && readBuf.Contents() == "" && parser !in readBuf.Repr && this !in readBuf.Repr
    {
      hide *;
      this.fd, this.key, closed, this.timer := fd, key, false, timer;
      parser := new P.HttpParser();
      readBuf := new B.Buffer();
    }

    ghost predicate Is(fd: Fd, c: L.Connection)
      reads this
    {
      this.fd == fd && key == c.key && closed == c.closed && timer == c.timer
    }
  }

  /** What a readable event brings: nothing to read, the end of the stream or an error, or
      bytes, with what lies behind them in memory and which responses can be written. */
  datatype Input = NotReadable | Ended | Bytes(data: string, memory: S.Memory, writes: C.Writes)

  /** The machine's view of an event: whether the requests in it closed the connection. */
  function ReadingOf(input: Input, closing: C.Closing): (r: L.Reading) {
    match input
    case NotReadable => L.NotReadable
    case Ended => L.Ended
    case Bytes(_, _, _) => L.Got(closing.closed)
  }

  const NOTHING_CLOSED := C.Closing(false, [])

  /** A connection's parser and buffer work, and belong to it alone. */
  ghost predicate Stream(c: Conn, owner: map<object, Fd>)
    reads owner.Keys
  {
    && c !in owner && c.parser in owner && owner[c.parser] == c.fd && c.readBuf in owner && owner[c.readBuf] == c.fd
    && (forall o :: o in c.readBuf.Repr ==> o in owner && owner[o] == c.fd)
    && c.parser.Ok() && c.readBuf.Valid() && c.parser !in c.readBuf.Repr
  }

  ghost predicate Streams(connections: map<Fd, Conn>, owner: map<object, Fd>)
    reads owner.Keys
  {
    forall fd :: fd in connections ==> connections[fd].fd == fd && Stream(connections[fd], owner)
  }

  /** The parser of an open connection, `but` perhaps aside, can go on. */
  ghost predicate Lively(connections: map<Fd, Conn>, owner: map<object, Fd>, but: set<Fd>)
    requires Streams(connections, owner)
    reads connections.Values, owner.Keys
  {
    forall fd :: fd in connections && fd !in but && !connections[fd].closed ==>
      !S.Terminal(connections[fd].parser.View())
  }

  /** A stream nobody has touched is as it was. */
  twostate lemma StreamKept(new c: Conn, new before: map<object, Fd>, new after: map<object, Fd>)
    requires old(allocated(c)) && (forall o :: o in before ==> old(allocated(o))) && old(Stream(c, before))
    requires forall o :: o in before && before[o] == c.fd ==> unchanged(o) && o in after && after[o] == c.fd
    requires c !in after
    ensures Stream(c, after) && c.parser.View() == old(c.parser.View())
    ensures c.readBuf.Contents() == old(c.readBuf.Contents())
  {
    hide B.Buffer.Valid;
  }

  lemma NewStream(conn: Conn, owner: map<object, Fd>)
    requires conn.parser.Ok() && conn.readBuf.Valid() && conn.parser !in conn.readBuf.Repr
    requires conn !in owner && conn !in conn.readBuf.Repr
    ensures Stream(conn, Owning(owner, {conn.parser as object} + conn.readBuf.Repr, conn.fd))
  {
    hide B.Buffer.Valid;
    SelfOwned(conn.readBuf);
  }

  /** A stream that has grown by fresh blocks is still its connection's own. */
  twostate lemma GrownStream(new conn: Conn, new before: map<object, Fd>)
    requires old(allocated(conn)) && (forall o :: o in before ==> old(allocated(o))) && old(Stream(conn, before))
    requires conn.parser.Ok() && conn.readBuf.Valid() && conn.parser !in conn.readBuf.Repr
    requires fresh(conn.readBuf.Repr - old(conn.readBuf.Repr))
    ensures Stream(conn, Owning(before, conn.readBuf.Repr, conn.fd))
  {
    hide B.Buffer.Valid;
    SelfOwned(conn.readBuf);
  }

  /** What a stream has is its connection's own, or new. */
  twostate lemma Apart(new conn: Conn, new before: map<object, Fd>)
    requires old(allocated(conn)) && (forall o :: o in before ==> old(allocated(o))) && old(Stream(conn, before))
    requires fresh(conn.readBuf.Repr - old(conn.readBuf.Repr))
    ensures forall o :: o in conn.readBuf.Repr ==> (o in before && before[o] == conn.fd) || !old(allocated(o))
  {
    hide B.Buffer.Valid;
  }

  lemma SelfOwned(buf: B.Buffer)
    requires buf.Valid()
    ensures buf in buf.Repr
  {
  }

  twostate lemma Unowned(new c: Conn, new owner: map<object, Fd>)
    requires old(allocated(c)) && (forall o :: o in owner ==> old(allocated(o))) && old(Stream(c, owner))
    ensures c !in owner
  {
  }

  /** The objects of one connection, old and new, are its own. */
  ghost function Owning(owner: map<object, Fd>, objects: set<object>, fd: Fd): (r: map<object, Fd>)
    ensures r.Keys == owner.Keys + objects
    ensures forall o :: o in r ==> r[o] == if o in objects then fd else owner[o]
  {
    owner + map o | o in objects :: fd
  }

  /** A parse error has closed the connection, and an exception has ended everything. */
  lemma CanGoOn(p: S.Parser, closing: C.Closing, writes: C.Writes, handed: seq<S.Request>)
    requires closing == C.Closes(writes, handed, p.phase) && p.phase != S.Done
    ensures closing.closed || p.phase == S.Thrown || !S.Terminal(p)
  {
  }

  /** What an event means for the machine. */
  lemma MessageIs(s: L.Server, fd: Fd, input: Input)
    ensures forall c: C.Closing ::
              L.OnMessage(s, fd, ReadingOf(input, c)) ==
                if fd !in s.connections || s.connections[fd].closed || input.NotReadable? then s
                else if input.Ended? then L.OnClose(s, fd)
                else if c.closed then L.OnClose(L.RefreshTimeout(s, fd), fd)
                else L.RefreshTimeout(s, fd)
  {
    hide L.OnClose, L.RefreshTimeout;
  }

  /** A queued task knows only the descriptor it erases. */
  predicate SameFds(tasks: seq<Fd>, erases: seq<L.Erase>) {
    |tasks| == |erases| && forall i :: 0 <= i < |tasks| ==> tasks[i] == erases[i].fd
  }

  ghost predicate Table(connections: map<Fd, Conn>, values: map<Fd, L.Connection>)
    reads connections.Values
  {
    connections.Keys == values.Keys && forall fd :: fd in connections ==> connections[fd].Is(fd, values[fd])
  }

  ghost predicate Held(connections: map<Fd, Conn>, timers: map<nat, Conn>, owners: map<nat, L.Owner>) {
    && timers.Keys == owners.Keys && 0 !in timers
    && forall t :: t in timers ==> owners[t].fd in connections && timers[t] == connections[owners[t].fd]
  }

  ghost predicate Listed(connections: map<Fd, Conn>, active: seq<Conn>, owners: seq<L.Owner>) {
    && |active| == |owners|
    && forall i :: 0 <= i < |active| ==> owners[i].fd in connections && active[i] == connections[owners[i].fd]
  }

  lemma HeldLess(connections: map<Fd, Conn>, timers: map<nat, Conn>, owners: map<nat, L.Owner>, t: nat)
    requires Held(connections, timers, owners)
    ensures Held(connections, timers - {t}, owners - {t})
  {
  }

  lemma HeldMore(connections: map<Fd, Conn>, timers: map<nat, Conn>, owners: map<nat, L.Owner>,
                 t: nat, conn: Conn, o: L.Owner)
    requires Held(connections, timers, owners) && t != 0 && o.fd in connections && connections[o.fd] == conn
    ensures Held(connections, timers[t := conn], owners[t := o])
  {
  }

  /** A further connection disturbs no pointer. */
  lemma HeldWider(connections: map<Fd, Conn>, timers: map<nat, Conn>, owners: map<nat, L.Owner>,
                  active: seq<Conn>, listed: seq<L.Owner>, fd: Fd, conn: Conn)
    requires Held(connections, timers, owners) && Listed(connections, active, listed) && fd !in connections
    ensures Held(connections[fd := conn], timers, owners) && Listed(connections[fd := conn], active, listed)
  {
  }

  lemma QueueOne(tasks: seq<Fd>, erases: seq<L.Erase>, fd: Fd, key: nat)
    requires SameFds(tasks, erases)
    ensures SameFds(tasks + [fd], erases + [L.Erase(fd, key)])
  {
  }

  lemma NoTasks()
    ensures SameFds([], [])
  {
  }

  lemma NoTimer(s: L.Server, fd: Fd)
    requires L.Inv(s) && fd in s.connections && s.connections[fd].closed
    ensures forall t :: t in s.timers ==> s.timers[t].fd != fd
  {
  }

  lemma PollStep(s: L.Server, found: seq<Fd>)
    requires L.Inv(s) && s.phase == L.Polling && forall i :: 0 <= i < |found| ==> found[i] in s.connections
    ensures var a := L.Poll(Owners(s.connections, found));
            && L.Enabled(s, a) && L.Inv(L.Do(s, a))
            && L.Do(s, a) == s.(phase := L.Dispatching, active := Owners(s.connections, found))
  {
    hide L.Inv;
    L.ActionKeeps(s, L.Poll(Owners(s.connections, found)));
  }

  class HttpServer {
    var connections: map<Fd, Conn>
    var timers: map<nat, Conn>     // live idle timers, each with the object its callback captured
    var active: seq<Conn>          // channels still to be dispatched in this turn of the loop
    var tasks: seq<Fd>             // erases queued
    var batch: seq<Fd>             // erases being run
    var nextTimer: nat
    ghost var model: L.Server
    ghost var owner: map<object, Fd>  // whose each parser, buffer and block is
    ghost var gone: bool              // an exception has ended the process

    /** Every connection has a working stream of its own, and open ones can go on. */
    ghost predicate Flowing(but: set<Fd> := {})
      reads this`connections, this`owner, this`gone, connections.Values, owner.Keys
    {
      && this !in owner && Streams(connections, owner)
      && (!gone ==> Lively(connections, owner, but))
    }

    /** The objects stand for the machine's values, and every pointer that a timer or the
        dispatch list holds is to an object still owned by the table. */
    ghost predicate Valid()
      reads this`connections, this`timers, this`active, this`tasks, this`batch, this`nextTimer, this`model
      reads connections.Values
    {
      && L.Inv(model)
      && Table(connections, model.connections)
      && Held(connections, timers, model.timers) && 0 < nextTimer == model.nextTimer
      && Listed(connections, active, model.active)
      && SameFds(tasks, model.pending) && SameFds(batch, model.batch)
    }

    constructor ()
      ensures Valid() && Flowing() && model == L.STARTED && !gone
    {
      connections, timers, active, tasks, batch, nextTimer := map[], map[], [], [], [], 1;
      model, owner, gone := L.STARTED, map[], false;
      new;
      L.StartedHolds();
    }

    /** Of all connections only this one may have changed its flag, and it is closed. */
    twostate predicate OnlyCloses(new fd: Fd)
      reads this`connections, connections.Values
    {
      && connections == old(connections)
      && (fd in connections ==> connections[fd].closed)
      && forall g :: g in connections && g != fd ==> connections[g].closed == old(connections[g].closed)
    }

    /** The table holds the same objects, and all others have their flag and their timer. */
    twostate predicate SameElsewhere(new fd: Fd)
      reads this`connections, this`timers, connections.Values
    {
      && connections == old(connections)
      && (forall g :: g in connections && g != fd ==>
            && connections[g].closed == old(connections[g].closed)
            && connections[g].timer == old(connections[g].timer))
      && (forall t :: t in timers && timers[t].fd != fd ==> t in old(timers) && old(timers)[t] == timers[t])
      && (forall t :: t in old(timers) && old(timers)[t].fd != fd ==> t in timers)
    }

    /** The connection goes on with a timer that was not live before and is its own; the one
        it had is cancelled. */
    twostate predicate Retimed(new fd: Fd)
      reads this`connections, this`timers, this`tasks, connections.Values
    {
      && SameElsewhere(fd) && fd in connections && tasks == old(tasks)
      && var c := connections[fd];
         && !c.closed && old(c.timer) !in timers
         && c.timer !in old(timers) && c.timer in timers && timers[c.timer] == c
    }

    /** The connection is closed, has no live timer, and its erase has been queued. */
    twostate predicate ShutDown(new fd: Fd)
      reads this`connections, this`timers, this`tasks, connections.Values
    {
      && SameElsewhere(fd) && fd in connections && tasks == old(tasks) + [fd]
      && connections[fd].closed && forall t :: t in timers ==> timers[t] != connections[fd]
    }

    /** What the machine says of its values, on the objects. */
    twostate lemma OnObjects(new fd: Fd)
      requires old(Valid()) && Valid() && connections == old(connections) && fd in connections
      ensures fd in old(model).connections
      ensures L.Renewed(old(model), model, fd) ==> Retimed(fd)
      ensures L.Shut(old(model), model, fd) ==> ShutDown(fd)
    {
      hide L.Inv;
    }

    twostate predicate Unmoved()
      reads this`connections, this`timers, this`tasks, connections.Values
    {
      && connections == old(connections) && timers == old(timers) && tasks == old(tasks)
      && forall g :: g in connections ==>
           connections[g].closed == old(connections[g].closed) && connections[g].timer == old(connections[g].timer)
    }

    twostate lemma NothingMoved()
      requires old(Valid()) && Valid() && connections == old(connections)
      ensures model.(active := old(model).active) == old(model) ==> Unmoved()
    {
      hide L.Inv;
    }

    /** What an event does to an open connection: bytes that do not close it restart its idle
        timer; a failure, the end of the stream and a close on the way shut it down. */
    twostate predicate Reacts(new fd: Fd, new failed: bool, new input: Input, new closing: C.Closing)
      reads this`connections, this`timers, this`tasks, connections.Values
    {
      if fd !in old(connections) || old(connections[fd].closed) || (!failed && input.NotReadable?) then Unmoved()
      else if !failed && input.Bytes? && !closing.closed then Retimed(fd)
      else ShutDown(fd)
    }

    twostate lemma MessageReacts(new fd: Fd, new input: Input, new closing: C.Closing)
      requires old(Valid()) && Valid() && connections == old(connections)
      requires model == L.OnMessage(old(model), fd, ReadingOf(input, closing))
      ensures Reacts(fd, false, input, closing)
    {
      hide L.Inv, L.OnMessage, Valid, Retimed, ShutDown, Unmoved, L.Renewed, L.Shut;
      Sound();
      L.MessageDoes(old(model), fd, ReadingOf(input, closing));
      NothingMoved();
      if fd in connections {
        OnObjects(fd);
      }
    }

    /** The objects as they were stood for the machine's values. */
    twostate lemma Sound()
      requires old(Valid())
      ensures L.Inv(old(model)) && old(connections).Keys == old(model).connections.Keys
      ensures forall g :: g in old(connections) ==> old(connections[g].closed) == old(model).connections[g].closed
    {
      hide L.Inv;
    }

    method OnClose(fd: Fd)
      requires Valid()
      modifies this`timers, this`tasks, this`model, connections.Values
      ensures Valid() && model == L.OnClose(old(model), fd)
      ensures OnlyCloses(fd)
      ensures Reacts(fd, true, NotReadable, NOTHING_CLOSED)
      ensures old(Flowing({fd})) ==> Flowing()
    {
      hide *;
      ghost var flowing := Flowing({fd});
      if flowing {
        Outside({fd});
      }
      Close(fd);
      CloseReacts(fd);
      CloseIs(fd);
      if flowing {
        FlowsOn({fd}, {});
      }
    }

    twostate lemma CloseIs(new fd: Fd)
      requires OnlyCloses(fd)
      ensures forall g :: g in connections && !connections[g].closed ==> g != fd && !old(connections[g].closed)
    {
    }

    twostate lemma CloseReacts(new fd: Fd)
      requires old(Valid()) && Valid() && connections == old(connections) && model == L.OnClose(old(model), fd)
      ensures Reacts(fd, true, NotReadable, NOTHING_CLOSED)
    {
      hide L.Inv, L.OnClose, Valid, Retimed, ShutDown, Unmoved, L.Renewed, L.Shut;
      Sound();
      L.CloseShuts(old(model), fd);
      NothingMoved();
      if fd in connections {
        OnObjects(fd);
      }
    }

    /** Close at most once: mark, cancel the idle timer, queue the erase. */
    method Close(fd: Fd)
      requires Valid()
      modifies this`timers, this`tasks, this`model, connections.Values
      ensures Valid() && model == L.OnClose(old(model), fd)
      ensures OnlyCloses(fd)
    {
      hide L.Inv, Held, Listed, SameFds;
      if fd !in connections {
        return;
      }
      var conn := connections[fd];
      if conn.closed {
        return;
      }
      L.CloseKeeps(model, fd);
      TimerOf(fd);
      HeldLess(connections, timers, model.timers, conn.timer);
      QueueOne(tasks, model.pending, fd, conn.key);
      conn.closed := true;
      if conn.timer != 0 {
        timers := timers - {conn.timer};
      }
      tasks := tasks + [fd];
      model := L.OnClose(model, fd);
    }

    /** The streams lie apart from the server and its connections. */
    lemma Outside(but: set<Fd>)
      requires Flowing(but)
      ensures this !in owner && forall g :: g in connections ==> connections[g] !in owner
    {
    }

    /** The streams do not care about timers and closed flags: those that are open now and were
        not set aside flow on. */
    twostate lemma FlowsOn(new before: set<Fd>, new but: set<Fd>)
      requires old(Flowing(before)) && owner == old(owner) && gone == old(gone)
      requires forall g :: g in connections ==> g in old(connections) && connections[g] == old(connections)[g]
      requires forall g :: g in connections && g !in but && !connections[g].closed ==>
                 g !in before && !old(connections[g].closed)
      requires forall o :: o in owner ==> unchanged(o)
      ensures Flowing(but)
    {
      hide Stream;
      forall g | g in connections
        ensures connections[g].fd == g && Stream(connections[g], owner)
        ensures connections[g].parser.View() == old(connections[g].parser.View())
      {
        assert old(Stream(connections[g], owner));
        Unowned(connections[g], owner);
        StreamKept(connections[g], owner, owner);
      }
    }

    /** An open connection's timer is live. */
    lemma TimerOf(fd: Fd)
      requires Valid() && fd in connections && !connections[fd].closed
      ensures connections[fd].timer in timers && connections[fd].timer != 0
    {
    }

    method RefreshTimeout(conn: Conn)
      requires Valid() && conn.fd in connections && connections[conn.fd] == conn && !conn.closed
      modifies this`timers, this`nextTimer, this`model, conn
      ensures Valid() && conn.closed == old(conn.closed) && model == L.RefreshTimeout(old(model), conn.fd)
      ensures Retimed(conn.fd)
      ensures old(Flowing()) ==> Flowing()
    {
      hide *;
      ghost var flowing := Flowing();
      if flowing {
        Outside({});
      }
      SameTable();
      Retime(conn);
      Refreshed(conn);
      if flowing {
        FlowsOn({}, {});
      }
    }

    twostate lemma Refreshed(new conn: Conn)
      requires old(Valid()) && Valid() && connections == old(connections)
      requires conn.fd in connections && connections[conn.fd] == conn && !old(conn.closed)
      requires conn.fd in old(model).connections && model == L.RefreshTimeout(old(model), conn.fd)
      ensures Retimed(conn.fd)
    {
      hide L.Inv, L.RefreshTimeout, Valid, Retimed, L.Renewed, L.Shut;
      Sound();
      L.RefreshRenews(old(model), conn.fd);
      OnObjects(conn.fd);
    }

    /** Replace the connection's idle timer by a fresh one. */
    method Retime(conn: Conn)
      requires Valid() && conn.fd in connections && connections[conn.fd] == conn && !conn.closed
      modifies this`timers, this`nextTimer, this`model, conn
      ensures Valid() && conn.closed == old(conn.closed) && model == L.RefreshTimeout(old(model), conn.fd)
    {
      hide L.Inv, Held, Listed, SameFds;
      L.RefreshKeeps(model, conn.fd);
      TimerOf(conn.fd);
      HeldLess(connections, timers, model.timers, conn.timer);
      if conn.timer != 0 {
        timers := timers - {conn.timer};
      }
      HeldMore(connections, timers, model.timers - {conn.timer}, nextTimer, conn, L.Owner(conn.fd, conn.key));
      conn.timer := nextTimer;
      timers := timers[nextTimer := conn];
      nextTimer := nextTimer + 1;
      model := L.RefreshTimeout(model, conn.fd);
    }

    /** A connection is accepted on a descriptor the kernel considers free. */
    method OnAccept(fd: Fd)
      requires Valid() && Flowing() && L.Enabled(model, L.Accept(fd))
      modifies this`connections, this`timers, this`nextTimer, this`model, this`owner
      ensures Valid() && Flowing() && model == L.Do(old(model), L.Accept(fd))
      ensures fd !in old(connections) && connections == old(connections)[fd := connections[fd]]
      ensures fresh(connections[fd]) && !connections[fd].closed
      ensures connections[fd].timer !in old(timers)
      ensures timers == old(timers)[connections[fd].timer := connections[fd]]
    {
      hide *;
      Outside({});
      var conn := new Conn(fd, model.nextKey, nextTimer);
      owner := Owning(owner, {conn.parser as object} + conn.readBuf.Repr, fd);
      Admit(conn);
      AcceptFlows(conn);
    }

    /** A connection object goes into the table, with its idle timer. */
    method Admit(conn: Conn)
      requires Valid() && L.Enabled(model, L.Accept(conn.fd)) && conn !in connections.Values
      requires conn.key == model.nextKey && conn.timer == nextTimer && !conn.closed
      modifies this`connections, this`timers, this`nextTimer, this`model
      ensures Valid() && model == L.Do(old(model), L.Accept(conn.fd))
      ensures conn.fd !in old(connections) && connections == old(connections)[conn.fd := conn]
      ensures conn.timer !in old(timers) && timers == old(timers)[conn.timer := conn]
    {
      hide L.Inv, Held, Listed, SameFds;
      var fd := conn.fd;
      L.AcceptKeeps(model, fd);
      Unused();
      HeldWider(connections, timers, model.timers, active, model.active, fd, conn);
      connections := connections[fd := conn];
      HeldMore(connections, timers, model.timers, nextTimer, conn, L.Owner(fd, conn.key));
      timers := timers[nextTimer := conn];
      nextTimer := nextTimer + 1;
      model := L.OnAccept(model, fd);
    }

    lemma Unused()
      requires Valid()
      ensures nextTimer !in timers
    {
    }

    /** A new connection's stream is its own. */
    twostate lemma AcceptFlows(new conn: Conn)
      requires old(Flowing()) && conn.fd !in old(connections) && connections == old(connections)[conn.fd := conn]
      requires fresh(conn) && fresh(conn.parser) && fresh(conn.readBuf) && fresh(conn.readBuf.Repr) && gone == old(gone)
      requires conn.parser.Ok() && conn.parser.View() == S.INITIAL && conn.readBuf.Valid()
      requires conn.parser !in conn.readBuf.Repr && conn !in conn.readBuf.Repr
      requires owner == Owning(old(owner), {conn.parser as object} + conn.readBuf.Repr, conn.fd)
      requires forall o :: o in old(owner) ==> unchanged(o)
      requires forall g :: g in old(connections) ==> unchanged(old(connections)[g])
      ensures Flowing()
    {
      hide Stream, B.Buffer.Valid, Owning;
      NewStream(conn, old(owner));
      C.StartsAfresh();
      forall g | g in old(connections)
        ensures Stream(connections[g], owner) && connections[g].fd == g
        ensures connections[g].parser.View() == old(connections[g].parser.View())
      {
        assert old(Stream(connections[g], owner));
        Unowned(connections[g], old(owner));
        StreamKept(connections[g], old(owner), owner);
      }
    }

    /** What an event hands over and whether it closes: nothing unless there are bytes on an open
        connection, and then what its own parser and buffer make of them. */
    twostate predicate Handles(new fd: Fd, input: Input, new handed: seq<S.Request>, new closing: C.Closing)
      requires old(Flowing())
      reads this`connections
      reads set c | c in connections.Values :: c.parser
    {
      if input.Bytes? && fd in old(connections) && !old(connections[fd].closed) then
        && connections == old(connections)
        && closing == C.Closes(input.writes, handed, connections[fd].parser.View().phase)
        && C.EventGives(old(C.Snap(connections[fd].parser, connections[fd].readBuf)), input.data, input.memory,
                        handed, connections[fd].parser.View())
      else handed == [] && closing == NOTHING_CLOSED
    }

    /** A readable event of a connection.  A closed or unknown one is left alone; bytes restart
        the idle timer and go through its own parser and buffer, and whether the connection is
        then closed is what the loop over the requests in them says. */
    method OnMessage(fd: Fd, input: Input) returns (handed: seq<S.Request>, closing: C.Closing)
      requires Valid() && Flowing() && !gone && (input.Bytes? ==> input.data != "")
      modifies this`timers, this`nextTimer, this`tasks, this`model, this`owner, this`gone
      modifies connections.Values, owner.Keys
      ensures Valid() && Flowing() && model == L.OnMessage(old(model), fd, ReadingOf(input, closing))
      ensures Handles(fd, input, handed, closing)
      ensures Reacts(fd, false, input, closing)
    {
      hide *;
      Outside({});
      handed, closing := Message(fd, input);
      MessageReacts(fd, input, closing);
    }

    method Message(fd: Fd, input: Input) returns (handed: seq<S.Request>, closing: C.Closing)
      requires Valid() && Flowing() && !gone && (input.Bytes? ==> input.data != "")
      modifies this`timers, this`nextTimer, this`tasks, this`model, this`owner, this`gone
      modifies connections.Values, owner.Keys
      ensures Valid() && Flowing() && model == L.OnMessage(old(model), fd, ReadingOf(input, closing))
      ensures Handles(fd, input, handed, closing)
    {
      hide L.Inv, L.OnClose, L.RefreshTimeout, L.OnMessage, Valid, Flowing, C.Closes, C.EventGives, C.Snap;
      handed, closing := [], NOTHING_CLOSED;
      SameTable();
      MessageIs(model, fd, input);
      if Flowing() {
        Outside({});
      }
      if fd !in connections || connections[fd].closed {
        return;
      }
      match input {
        case NotReadable =>
        case Ended =>
          FlowsBut(fd);
          OnClose(fd);
        case Bytes(data, memory, writes) =>
          handed, closing := OnBytes(connections[fd], data, memory, writes);
      }
    }

    /** Bytes have arrived on an open connection. */
    method OnBytes(conn: Conn, data: string, memory: S.Memory, writes: C.Writes)
        returns (handed: seq<S.Request>, closing: C.Closing)
      requires Valid() && Flowing() && !gone && data != ""
      requires conn.fd in connections && connections[conn.fd] == conn && !conn.closed
      modifies this`timers, this`nextTimer, this`tasks, this`model, this`owner, this`gone
      modifies connections.Values, owner.Keys
      ensures Valid() && Flowing() && conn.fd in old(model).connections
      ensures var s := L.RefreshTimeout(old(model), conn.fd);
              model == if closing.closed then L.OnClose(s, conn.fd) else s
      ensures closing == C.Closes(writes, handed, conn.parser.View().phase)
      ensures C.EventGives(old(C.Snap(conn.parser, conn.readBuf)), data, memory, handed, conn.parser.View())
    {
      hide *;
      SameTable();
      StreamOf(conn);
      OwnStream(conn);
      RefreshTimeout(conn);
      OwnStream(conn);
      Outside({});
      handed, closing := Read(conn, data, memory, writes);
      Outside({conn.fd});
      if closing.closed {
        OnClose(conn.fd);
      }
    }

    lemma FlowsBut(fd: Fd)
      requires Flowing()
      ensures Flowing({fd})
    {
    }

    lemma SameTable()
      requires Valid()
      ensures connections.Keys == model.connections.Keys
      ensures forall g :: g in connections ==>
                connections[g].fd == g && connections[g].closed == model.connections[g].closed
    {
    }

    /** The parsers and buffers of the other connections are as they were. */
    twostate predicate OthersSame(new conn: Conn)
      reads this`connections
      reads set c | c in connections.Values :: c.parser
      reads set c | c in connections.Values :: c.readBuf
    {
      && connections == old(connections)
      && forall g :: g in connections && g != conn.fd ==>
           && connections[g].parser.View() == old(connections[g].parser.View())
           && connections[g].readBuf.Contents() == old(connections[g].readBuf.Contents())
    }

    /** The bytes of an event go through the connection's own parser and buffer. */
    method Read(conn: Conn, data: string, memory: S.Memory, writes: C.Writes)
        returns (handed: seq<S.Request>, closing: C.Closing)
      requires Valid() && Flowing() && !gone && data != ""
      requires conn.fd in connections && connections[conn.fd] == conn && !conn.closed
      modifies this`owner, this`gone, conn.parser, conn.readBuf.Repr
      ensures Valid() && Flowing({conn.fd}) && (!closing.closed ==> Flowing())
      ensures closing == C.Closes(writes, handed, conn.parser.View().phase)
      ensures C.EventGives(old(C.Snap(conn.parser, conn.readBuf)), data, memory, handed, conn.parser.View())
      ensures OthersSame(conn)
    {
      hide *;
      StreamOf(conn);
      OwnStream(conn);
      Outside({});
      var taken, failed;
      taken, handed, failed, closing := C.OnReadable(conn.parser, conn.readBuf, data, memory, writes);
      gone := conn.parser.state == S.Thrown;
      owner := Owning(owner, conn.readBuf.Repr, conn.fd);
      C.ParserPhase(conn.parser);
      CanGoOn(conn.parser.View(), closing, writes, handed);
      ReadFlows(conn, closing.closed);
      ReadKeeps(conn);
    }

    /** What belongs to the other connections, and the connections themselves, are out of its
        reach. */
    lemma OwnStream(conn: Conn)
      requires Flowing() && conn.fd in connections && connections[conn.fd] == conn
      ensures this !in conn.readBuf.Repr
      ensures forall o :: o in conn.readBuf.Repr || o == conn.parser ==> o in owner && owner[o] == conn.fd
      ensures forall g :: g in connections ==> connections[g] !in conn.readBuf.Repr
    {
      assert Stream(connections[conn.fd], owner);
      assert forall g :: g in connections ==> Stream(connections[g], owner);
    }

    twostate lemma ReadFlows(new conn: Conn, new closed: bool)
      requires old(Flowing()) && !old(gone) && connections == old(connections)
      requires conn.fd in connections && connections[conn.fd] == conn
      requires conn.parser.Ok() && conn.readBuf.Valid() && conn.parser !in conn.readBuf.Repr
      requires fresh(conn.readBuf.Repr - old(conn.readBuf.Repr))
      requires owner == Owning(old(owner), conn.readBuf.Repr, conn.fd)
      requires forall o :: o in old(owner) && old(owner)[o] != conn.fd ==> unchanged(o)
      requires forall g :: g in connections ==> unchanged(connections[g])
      requires closed || gone || !S.Terminal(conn.parser.View())
      ensures Flowing({conn.fd}) && (!closed ==> Flowing())
    {
      hide Stream, B.Buffer.Valid, Owning;
      assert old(Stream(conn, owner));
      GrownStream(conn, old(owner));
      Apart(conn, old(owner));
      forall g | g in connections && g != conn.fd
        ensures connections[g].fd == g && Stream(connections[g], owner)
        ensures connections[g].parser.View() == old(connections[g].parser.View())
      {
        assert old(Stream(connections[g], owner));
        Unowned(connections[g], old(owner));
        StreamKept(connections[g], old(owner), owner);
      }
    }

    twostate lemma ReadKeeps(new conn: Conn)
      requires old(Valid()) && old(Flowing()) && connections == old(connections)
      requires conn.fd in connections && connections[conn.fd] == conn
      requires timers == old(timers) && active == old(active) && tasks == old(tasks) && batch == old(batch)
      requires nextTimer == old(nextTimer) && model == old(model)
      requires forall o :: o in old(owner) && old(owner)[o] != conn.fd ==> unchanged(o)
      requires forall g :: g in connections ==> unchanged(connections[g])
      ensures Valid()
      ensures OthersSame(conn)
    {
      hide L.Inv, Held, Listed, SameFds;
      forall g | g in connections && g != conn.fd
        ensures unchanged(connections[g].parser) && unchanged(connections[g].readBuf)
      {
        assert old(Stream(connections[g], owner));
      }
    }

    lemma StreamOf(conn: Conn)
      requires Flowing() && conn.fd in connections && connections[conn.fd] == conn
      ensures conn.parser.Ok() && conn.readBuf.Valid() && conn.parser !in conn.readBuf.Repr
      ensures !gone && !conn.closed ==> !S.Terminal(conn.parser.View())
    {
      assert Stream(connections[conn.fd], owner);
    }
    /** Poll reports channels of connections in the table. */
    method Poll(found: seq<Fd>)
      requires Valid() && Flowing()
      requires model.phase == L.Polling && forall i :: 0 <= i < |found| ==> found[i] in connections
      modifies this`active, this`model
      ensures Valid() && |active| == |found| && forall i :: 0 <= i < |found| ==> active[i] == connections[found[i]]
      ensures Flowing()
      ensures model == old(model).(phase := L.Dispatching, active := model.active)
    {
      hide L.Inv, Held, SameFds, L.Enabled, L.Do, Owners, Flowing;
      Outside({});
      ghost var before := model;
      PollStep(model, found);
      active := [];
      while |active| < |found|
        invariant |active| <= |found| && model == before
        invariant forall i :: 0 <= i < |active| ==> active[i] == connections[found[i]]
      {
        active := active + [connections[found[|active|]]];
      }
      model := L.Do(model, L.Poll(Owners(model.connections, found)));
    }

    /** Dispatch of the next channel: its object is the one the table holds, so no event
        reaches a destroyed connection. */
    method HandleEvent(failed: bool, input: Input) returns (handed: seq<S.Request>, closing: C.Closing)
      requires Valid() && Flowing() && !gone && (input.Bytes? ==> input.data != "")
      requires model.phase == L.Dispatching && model.active != []
      modifies this`timers, this`nextTimer, this`tasks, this`active, this`model, this`owner, this`gone
      modifies connections.Values, owner.Keys
      ensures Valid() && Flowing()
      ensures L.Enabled(old(model), L.Event(failed, ReadingOf(input, closing)))
      ensures model == L.Do(old(model), L.Event(failed, ReadingOf(input, closing)))
      ensures old(active)[0] in connections.Values && active == old(active)[1..]
      ensures Reacts(old(active)[0].fd, failed, input, closing)
      ensures failed ==> handed == []
      ensures !failed && input.Bytes? && !old(active[0].closed) ==>
                closing == C.Closes(input.writes, handed, old(active)[0].parser.View().phase)
    {
      hide *;
      Outside({});
      FirstActive();
      handed, closing := Dispatch(failed, input);
      EventReacts(failed, input, closing);
    }

    method Dispatch(failed: bool, input: Input) returns (handed: seq<S.Request>, closing: C.Closing)
      requires Valid() && Flowing() && !gone && (input.Bytes? ==> input.data != "")
      requires model.phase == L.Dispatching && model.active != []
      modifies this`timers, this`nextTimer, this`tasks, this`active, this`model, this`owner, this`gone
      modifies connections.Values, owner.Keys
      ensures Valid() && Flowing()
      ensures L.Enabled(old(model), L.Event(failed, ReadingOf(input, closing)))
      ensures model == L.Do(old(model), L.Event(failed, ReadingOf(input, closing)))
      ensures old(active)[0] in connections.Values && active == old(active)[1..]
      ensures failed ==> handed == []
      ensures !failed && input.Bytes? && !old(active[0].closed) ==>
                closing == C.Closes(input.writes, handed, old(active)[0].parser.View().phase)
    {
      hide *;
      ghost var before := model;
      Outside({});
      FirstActive();
      StillThere(active[0]);
      handed, closing := Respond(active[0], failed, input);
      EventIs(before, failed, ReadingOf(input, closing));
      L.EventKeeps(before, L.Event(failed, ReadingOf(input, closing)));
      NextActive();
      Outside({});
      active := active[1..];
      model := model.(active := model.active[1..]);
      Dispatched();
    }

    /** A failed connection is closed before anything is read from it. */
    method Respond(conn: Conn, failed: bool, input: Input) returns (handed: seq<S.Request>, closing: C.Closing)
      requires Valid() && Flowing() && !gone && (input.Bytes? ==> input.data != "")
      requires conn.fd in connections && connections[conn.fd] == conn
      modifies this`timers, this`nextTimer, this`tasks, this`model, this`owner, this`gone
      modifies connections.Values, owner.Keys
      ensures Valid() && Flowing()
      ensures var s := if failed then L.OnClose(old(model), conn.fd) else old(model);
              model == L.OnMessage(s, conn.fd, ReadingOf(input, closing))
      ensures failed ==> handed == []
      ensures !failed && input.Bytes? && !old(conn.closed) ==>
                closing == C.Closes(input.writes, handed, conn.parser.View().phase)
    {
      hide L.Inv, L.OnClose, L.OnMessage, Flowing, Valid, C.Closes, C.EventGives, C.Snap, Reacts;
      Outside({});
      FlowsBut(conn.fd);
      StillThere(conn);
      if failed {
        OnClose(conn.fd);
      }
      handed, closing := OnMessage(conn.fd, input);
    }

    twostate lemma EventReacts(new failed: bool, new input: Input, new closing: C.Closing)
      requires old(Valid()) && Valid() && connections == old(connections) && old(active) != []
      requires L.Enabled(old(model), L.Event(failed, ReadingOf(input, closing)))
      requires model == L.Do(old(model), L.Event(failed, ReadingOf(input, closing)))
      ensures Reacts(old(active)[0].fd, failed, input, closing)
    {
      hide L.Inv, L.Do, L.Enabled, Valid, Retimed, ShutDown, Unmoved, L.Renewed, L.Shut;
      Sound();
      AtHead();
      L.EventDoes(old(model), failed, ReadingOf(input, closing));
      NothingMoved();
      OnObjects(old(active)[0].fd);
    }

    twostate lemma AtHead()
      requires old(Valid()) && old(active) != []
      ensures old(model).active != [] && old(model).active[0].fd == old(active)[0].fd
      ensures old(active)[0].fd in old(connections)
    {
    }

    lemma StillThere(conn: Conn)
      requires conn.fd in connections && connections[conn.fd] == conn
      ensures conn in connections.Values
    {
    }

    lemma FirstActive()
      requires Valid() && model.active != []
      ensures L.Inv(model) && active != [] && active[0].fd == model.active[0].fd
      ensures active[0].fd in connections && connections[active[0].fd] == active[0]
    {
    }

    lemma NextActive()
      requires Valid()
      ensures |active| == |model.active|
      ensures model.active != [] ==> Listed(connections, active[1..], model.active[1..])
      ensures Table(connections, model.connections) && Held(connections, timers, model.timers)
      ensures 0 < nextTimer == model.nextTimer && SameFds(tasks, model.pending) && SameFds(batch, model.batch)
    {
    }

    lemma Dispatched()
      requires L.Inv(model) && Table(connections, model.connections) && Held(connections, timers, model.timers)
      requires 0 < nextTimer == model.nextTimer && SameFds(tasks, model.pending) && SameFds(batch, model.batch)
      requires Listed(connections, active, model.active)
      ensures Valid()
    {
      hide L.Inv, Held, SameFds, Table, Listed;
    }

    /** An idle timer fires: it is gone from the wheel, and its callback closes the
        connection it captured, which is still in the table and open. */
    method OnTimeout(timer: nat)
      requires Valid() && Flowing() && L.Enabled(model, L.Timeout(timer))
      modifies this`timers, this`tasks, this`model, connections.Values
      ensures Valid() && Flowing() && model == L.Do(old(model), L.Timeout(timer))
      ensures old(timers)[timer] in connections.Values && !old(timers[timer].closed)
      ensures ShutDown(old(timers)[timer].fd)
    {
      hide L.Inv, L.OnClose, Flowing;
      L.TimeoutIsClose(model, timer);
      FlowsBut(timers[timer].fd);
      OnClose(timers[timer].fd);
    }

    method EndDispatch()
      requires Valid() && Flowing() && L.Enabled(model, L.EndDispatch)
      modifies this`model
      ensures Valid() && Flowing() && model == L.Do(old(model), L.EndDispatch)
    {
      hide L.Inv, Held, Listed, SameFds, Table, Flowing;
      Outside({});
      L.ActionKeeps(model, L.EndDispatch);
      model := L.Do(model, L.EndDispatch);
    }

    /** The task queue is swapped out and run: exactly the closed connections are destroyed,
        whatever descriptors they had, and every open one stays the object it was. */
    method RunTasks()
      requires Valid() && Flowing() && model.phase == L.Ticking
      modifies this`connections, this`tasks, this`batch, this`model
      ensures Valid() && Flowing() && model.phase == L.Polling && tasks == [] && batch == []
      ensures forall fd :: fd in connections <==> fd in old(connections) && !old(connections[fd].closed)
      ensures forall fd :: fd in connections ==> connections[fd] == old(connections)[fd] && !connections[fd].closed
    {
      hide *;
      Outside({});
      SwapTasks();
      ghost var all := connections;
      while batch != []
        invariant Valid() && Flowing() && model.phase == L.Running && tasks == []
        invariant forall fd :: fd in connections ==> fd in all && connections[fd] == all[fd]
        invariant forall fd :: fd in all && !all[fd].closed ==> fd in connections
        decreases |batch|
      {
        RunTask();
      }
      Outside({});
      EndTasks();
    }

    /** The queue is swapped out, so that what the tasks queue is for the next turn. */
    method SwapTasks()
      requires Valid() && Flowing() && model.phase == L.Ticking
      modifies this`tasks, this`batch, this`model
      ensures Valid() && Flowing() && model.phase == L.Running && tasks == [] && batch == old(tasks)
    {
      hide L.Inv, Held, Listed, SameFds, Table, Flowing;
      Outside({});
      L.ActionKeeps(model, L.EndTick);
      BatchEmpty();
      NoTasks();
      batch, tasks := tasks, [];
      model := L.Do(model, L.EndTick);
    }

    method EndTasks()
      requires Valid() && Flowing() && model.phase == L.Running && tasks == [] && batch == []
      modifies this`model
      ensures Valid() && Flowing() && model.phase == L.Polling
      ensures forall fd :: fd in connections ==> !connections[fd].closed
    {
      hide L.Inv, Held, Listed, SameFds, Table, Flowing;
      Outside({});
      AllOpen();
      L.ActionKeeps(model, L.EndTasks);
      model := L.Do(model, L.EndTasks);
    }

    /** One queued erase: it finds a closed connection and takes nothing else. */
    method RunTask()
      requires Valid() && Flowing() && model.phase == L.Running && batch != []
      modifies this`connections, this`batch, this`model
      ensures Valid() && Flowing() && model.phase == L.Running && tasks == old(tasks) && batch == old(batch)[1..]
      ensures old(batch)[0] in old(connections) && old(connections[batch[0]].closed)
      ensures connections == old(connections) - {old(batch)[0]}
    {
      hide L.Inv, Held, Listed, Flowing;
      Outside({});
      L.EraseHitsItsOwn(model);
      L.EraseKeeps(model);
      EraseSafe();
      connections := connections - {batch[0]};
      model := L.Do(model, L.RunErase);
      batch := batch[1..];
      FlowsOn({}, {});
    }

    /** Nothing is being dispatched, and no live timer belongs to what is about to go. */
    lemma EraseSafe()
      requires Valid() && model.phase == L.Running && batch != []
      ensures active == [] && model.active == []
      ensures Held(connections - {batch[0]}, timers, model.timers) && Listed(connections - {batch[0]}, active, [])
    {
      L.EraseHitsItsOwn(model);
      NoTimer(model, batch[0]);
    }

    lemma BatchEmpty()
      requires Valid() && model.phase == L.Ticking
      ensures batch == [] && active == []
    {
    }

    /** With no erase left to run, every connection in the table is open. */
    lemma AllOpen()
      requires Valid() && tasks == [] && batch == []
      ensures model.batch == [] && forall fd :: fd in connections ==> !connections[fd].closed
    {
      assert L.Queue(model) == [];
    }
  }

  ghost function Owners(connections: map<Fd, L.Connection>, found: seq<Fd>): (owners: seq<L.Owner>)
    requires forall i :: 0 <= i < |found| ==> found[i] in connections
    ensures |owners| == |found|
    ensures forall i :: 0 <= i < |found| ==> owners[i] == L.Owner(found[i], connections[found[i]].key)
  {
    if found == [] then [] else [L.Owner(found[0], connections[found[0]].key)] + Owners(connections, found[1..])
  }

  /** Dispatching one channel, in terms of the handlers; they leave the dispatch list alone. */
  lemma EventIs(s: L.Server, failed: bool, reading: L.Reading)
    requires s.phase == L.Dispatching && s.active != []
    ensures L.Enabled(s, L.Event(failed, reading))
    ensures var fd := s.active[0].fd;
            var s1 := if failed then L.OnClose(s, fd) else s;
            var s2 := L.OnMessage(s1, fd, reading);
            && s2.active == s.active
            && L.Do(s, L.Event(failed, reading)) == s2.(active := s2.active[1..])
  {
  }
}
