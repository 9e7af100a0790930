/** One connection of the server over the real parser and the real blocks: what comes of each
    readable event, and of all of them. */
module Connection {
  import opened Text
  import opened ParserSpec
  import opened Messages
  import opened ChainBuffer
  import opened Windows
  import opened HttpParsing
  import opened Pipelining

  // ---- the loop around the parser ----

  /** The requests handed over, and where the connection stands afterwards. */
  datatype Looped = Looped(handed: seq<Request>, failed: bool, parser: Parser, sight: Sight)

  function Ahead(rs: seq<Request>, l: Looped): (t: Looped) {
    l.(handed := rs + l.handed)
  }

  /** What the loop makes of a parser and a buffer it sees only a window of. */
  function Loop(p: Parser, v: Sight, mem: Memory): (l: Looped)
    requires Sound(v)
    ensures Sound(l.sight)
    decreases |v.contents|, if p.phase == Start then 0 else 1
  {
    if v.contents == "" then Looped([], false, p, v)
    else
      var e := Rounds(p, v, mem);
      RoundsStop(p, v, mem);
      if e.parser.phase == Done then Ahead([e.parser.request], Loop(INITIAL, e.sight, mem))
      else Looped([], Terminal(e.parser), e.parser, e.sight)
  }

  lemma LoopOnce(p: Parser, v: Sight, mem: Memory)
    requires Sound(v) && v.contents != ""
    ensures var e := Rounds(p, v, mem);
            Loop(p, v, mem) ==
              if e.parser.phase == Done then Ahead([e.parser.request], Loop(INITIAL, e.sight, mem))
              else Looped([], Terminal(e.parser), e.parser, e.sight)
  {
    hide Rounds, Suffix, Step;
  }

  lemma LoopOfNothing(p: Parser, v: Sight, mem: Memory)
    requires Sound(v) && v.contents == ""
    ensures Loop(p, v, mem) == Looped([], false, p, v)
  {
  }

  /** With everything in one view the loop serves everything. */
  lemma {:induction false} LoopOneView(p: Parser, v: Sight, mem: Memory)
    requires Sound(v) && v.window == v.contents
    ensures var l := Loop(p, v, mem);
            && l.sight.window == l.sight.contents
            && Served(l.handed, l.failed, l.parser, l.sight.contents) == Serve(p, v.contents, mem)
    decreases |v.contents|, if p.phase == Start then 0 else 1
  {
    hide Run, Rounds, Serve, Loop;
    if v.contents == "" {
      LoopOfNothing(p, v, mem);
      ServeNothing(p, mem);
    } else {
      LoopOnce(p, v, mem);
      RoundsOneView(p, v, mem);
      RoundsStop(p, v, mem);
      ServeStep(p, v.contents, mem);
      var e := Rounds(p, v, mem);
      if e.parser.phase == Done {
        LoopOneView(INITIAL, e.sight, mem);
      }
    }
  }

  /** A connection that has not failed ends with nothing left or nothing to do in view; one
      that has nothing to do in view stays as it is, whatever lies behind the window. */
  lemma {:induction false} LoopStops(p: Parser, v: Sight, mem: Memory)
    requires Sound(v) && !Terminal(p)
    ensures var l := Loop(p, v, mem);
            && (!l.failed ==> !Terminal(l.parser) && (l.sight.contents == "" || Step(l.parser, l.sight.window).Wait?))
            && (l.failed ==> Terminal(l.parser) && l.parser.phase != Done)
            && (Step(p, v.window).Wait? ==> l == Looped([], false, p, v))
    decreases |v.contents|, if p.phase == Start then 0 else 1
  {
    hide Rounds, Step, Loop;
    if v.contents == "" {
      LoopOfNothing(p, v, mem);
    } else {
      LoopOnce(p, v, mem);
      RoundsStop(p, v, mem);
      var e := Rounds(p, v, mem);
      if e.parser.phase == Done {
        LoopStops(INITIAL, e.sight, mem);
      }
    }
  }

  /** What the loop has done so far, in terms of serving everything at once. */
  predicate OnTrack(p: Parser, all: string, handed: seq<Request>, q: Parser, u: string) {
    ServeClean(p, all) ==> Serve(p, all) == Behind(handed, Serve(q, u)) && ServeClean(q, u)
  }

  /** Over a clean stream, serving it all fails too, after the same requests. */
  predicate FailsWith(p: Parser, all: string, handed: seq<Request>) {
    ServeClean(p, all) ==> Serve(p, all).failed && Serve(p, all).handed == handed
  }

  /** The requests handed over are a prefix, in order, of those the whole stream contains, and
      serving what remains supplies the others: for every clean stream in every block layout,
      whatever the future brings. */
  lemma {:induction false} LoopOnTrack(p: Parser, v: Sight, mem: Memory, future: string)
    requires Sound(v) && !Terminal(p)
    ensures var l := Loop(p, v, mem);
            if l.failed then FailsWith(p, v.contents + future, l.handed)
            else OnTrack(p, v.contents + future, l.handed, l.parser, l.sight.contents + future)
    decreases |v.contents|, if p.phase == Start then 0 else 1
  {
    hide Rounds, Step, Loop, Run, Clean, Serve, ServeClean;
    var all := v.contents + future;
    if v.contents == "" {
      LoopOfNothing(p, v, mem);
      assert [] + Serve(p, all).handed == Serve(p, all).handed;
    } else {
      LoopOnce(p, v, mem);
      RoundsStop(p, v, mem);
      RoundsKept(p, v, mem, future);
      var e := Rounds(p, v, mem);
      var u := e.sight.contents + future;
      ServeStep(p, all);
      if Terminal(e.parser) {
        RunTerminal(e.parser, u);
        if e.parser.phase == Done {
          LoopOnTrack(INITIAL, e.sight, mem, future);
          var l := Loop(INITIAL, e.sight, mem);
          if !l.failed {
            var t := Serve(l.parser, l.sight.contents + future);
            assert [e.parser.request] + (l.handed + t.handed) == ([e.parser.request] + l.handed) + t.handed;
          }
        }
      } else if ServeClean(p, all) {
        ServeSameRun(p, all, e.parser, u);
        assert [] + Serve(e.parser, u).handed == Serve(e.parser, u).handed;
      }
    }
  }

  // ---- responses, and the close that a failed write brings ----

  /** Whether the response to the i-th request handed over can be written. */
  type Writes = nat -> bool

  /** The first of `n` responses that could not be written, or `n`. */
  function FirstFailed(writes: Writes, n: nat): (f: nat)
    ensures f <= n && (forall i :: 0 <= i < f ==> writes(i)) && (f < n ==> !writes(f))
  {
    if n == 0 then 0
    else
      var f := FirstFailed(writes, n - 1);
      if f < n - 1 || !writes(n - 1) then f else n
  }

  /** Whether the connection is closed, and which requests were handed over after that. */
  datatype Closing = Closing(closed: bool, late: seq<Request>)

  /** A connection is closed by a failed parse or a failed write.  The loop does not look at
      that: the requests behind the first failed write are handed over all the same. */
  function Closes(writes: Writes, handed: seq<Request>, phase: Phase): (c: Closing) {
    ClosesAt(FirstFailed(writes, |handed|), handed, phase)
  }

  function ClosesAt(f: nat, handed: seq<Request>, phase: Phase): (c: Closing) {
    Closing(phase == Error || f < |handed|, if f < |handed| then handed[f + 1..] else [])
  }

  /** Closed if and only if the parse failed or some write did; and a request was handed over
      after the close if and only if the write of one that was not the last failed. */
  lemma ClosedExactlyWhen(writes: Writes, handed: seq<Request>, phase: Phase)
    ensures var c := Closes(writes, handed, phase);
            && (c.closed <==> phase == Error || exists i :: 0 <= i < |handed| && !writes(i))
            && (c.late != [] <==> exists i :: 0 <= i < |handed| - 1 && !writes(i))
  {
    var f := FirstFailed(writes, |handed|);
    assert f < |handed| ==> !writes(f);
  }

  /** One more response. */
  lemma OneMoreWrite(writes: Writes, handed: seq<Request>, r: Request, phase: Phase)
    requires phase != Error
    ensures var c := Closes(writes, handed, phase);
            Closes(writes, handed + [r], phase) ==
              Closing(c.closed || !writes(|handed|), if c.closed then c.late + [r] else c.late)
  {
    var f := FirstFailed(writes, |handed|);
    if f < |handed| {
      assert (handed + [r])[f + 1..] == handed[f + 1..] + [r];
    } else {
      assert (handed + [r])[|handed| + 1..] == [];
    }
  }

  lemma NoWrites(writes: Writes, phase: Phase)
    ensures Closes(writes, [], phase) == Closing(phase == Error, [])
  {
  }

  /** A parse error closes, whatever came before. */
  lemma ErrorCloses(writes: Writes, handed: seq<Request>, before: Phase, phase: Phase)
    requires before != Error
    ensures var c := Closes(writes, handed, before);
            Closes(writes, handed, phase) == if phase == Error then c.(closed := true) else c
  {
  }

  /** The server's loop over the real parser and the real buffer.  What it hands over does not
      depend on whether the responses can be written. */
  method ServeLoop(parser: HttpParser, buf: Buffer, memory: Memory, writes: Writes)
      returns (handed: seq<Request>, failed: bool, closing: Closing)
    requires parser.Ok() && buf.Valid() && parser !in buf.Repr && !Terminal(parser.View())
    modifies parser, buf.Repr
    ensures parser.Ok() && buf.Valid() && fresh(buf.Repr - old(buf.Repr))
    ensures Sound(old(Seen(buf)))
    ensures Looped(handed, failed, parser.View(), Seen(buf)) == Loop(old(parser.View()), old(Seen(buf)), memory)
    ensures closing == Closes(writes, handed, parser.View().phase)
    ensures old(buf.readBlock == buf.writeBlock == buf.head) ==> OneBlock(buf, old(buf.writeBlock.Writable()))
  {
    hide *;
    SeenSound(buf);
    ghost var v := Seen(buf);
    ghost var end := Loop(parser.View(), v, memory);
    handed, failed, closing := [], false, Closing(false, []);
    NoWrites(writes, Start);
    AheadNone(end);
    ghost var one, room := buf.readBlock == buf.writeBlock == buf.head, buf.writeBlock.Writable();
    InOneBlock(buf, room);
    ghost var left := |buf.Contents()|;
    while buf.size > 0
      invariant parser.Ok() && buf.Valid() && parser !in buf.Repr && fresh(buf.Repr - old(buf.Repr))
      invariant Sound(Seen(buf)) && Ahead(handed, Loop(parser.View(), Seen(buf), memory)) == end
      invariant left == |buf.Contents()| && !Terminal(parser.View())
      invariant closing == Closes(writes, handed, Start)
      invariant one ==> OneBlock(buf, room)
      decreases left, if parser.state == Start then 0 else 1
    {
      buf.SizeIsLength();
      SeenIs(buf);
      InOneBlock(buf, room);
      ParserPhase(parser);
      AfterParse(parser.View(), Seen(buf), memory);
      var consumed := parser.Parse(buf, memory);
      SeenIs(buf);
      InOneBlock(buf, room);
      ParserPhase(parser);
      ghost var e := Stop(parser.View(), Seen(buf));
      left := |buf.Contents()|;
      ErrorCloses(writes, handed, Start, parser.state);
      if parser.state == Error || parser.state == Thrown {
        failed := true;
        if parser.state == Error {
          closing := closing.(closed := true);
        }
        AtEnd(parser);
        AheadLast(handed, Looped([], true, e.parser, e.sight));
        return;
      }
      if parser.state == Done {
        AheadMore(handed, parser.request, Loop(INITIAL, e.sight, memory));
        OneMoreWrite(writes, handed, parser.request, Start);
        closing := Closing(closing.closed || !writes(|handed|),
                           if closing.closed then closing.late + [parser.request] else closing.late);
        handed := handed + [parser.request];
        parser.Reset();
        ParserPhase(parser);
        StartsAfresh();
        continue;
      }
      NotAtEnd(parser);
      if consumed == 0 {
        AheadLast(handed, Looped([], false, e.parser, e.sight));
        return;
      }
    }
    buf.SizeIsLength();
    SeenIs(buf);
    LoopOfNothing(parser.View(), Seen(buf), memory);
    AheadLast(handed, Looped([], false, parser.View(), Seen(buf)));
    GoingOn(parser.View());
    ErrorCloses(writes, handed, Start, parser.View().phase);
  }

  lemma GoingOn(p: Parser)
    ensures !Terminal(p) ==> p.phase != Done && p.phase != Error && p.phase != Thrown
  {
  }

  /** What one call of `parse` means for the loop. */
  lemma AfterParse(p: Parser, v: Sight, mem: Memory)
    requires Sound(v) && v.contents != "" && !Terminal(p)
    ensures var e := Rounds(p, v, mem);
            && |e.sight.contents| <= |v.contents|
            && (e.parser.phase == Done ==>
                  && Loop(p, v, mem) == Ahead([e.parser.request], Loop(INITIAL, e.sight, mem))
                  && (p.phase == Start ==> |e.sight.contents| < |v.contents|))
            && (e.parser.phase != Done ==> Loop(p, v, mem) == Looped([], Terminal(e.parser), e.parser, e.sight))
            && (!Terminal(e.parser) ==> Loop(e.parser, e.sight, mem) == Loop(p, v, mem))
  {
    hide Rounds, Loop, Step, Suffix;
    LoopOnce(p, v, mem);
    RoundsStop(p, v, mem);
    var e := Rounds(p, v, mem);
    if |e.sight.contents| == |v.contents| {
      SuffixIs(e.sight.contents, v.contents);
    }
    if !Terminal(e.parser) {
      StoppedThere(e.parser, e.sight, mem);
    }
  }

  /** Where the rounds have stopped the loop stops too. */
  lemma StoppedThere(p: Parser, v: Sight, mem: Memory)
    requires Sound(v) && !Terminal(p) && (v.contents == "" || Step(p, v.window).Wait?)
    ensures Loop(p, v, mem) == Looped([], false, p, v)
  {
    if v.contents == "" {
      LoopOfNothing(p, v, mem);
    } else {
      LoopStops(p, v, mem);
    }
  }

  lemma StartsAfresh()
    ensures !Terminal(INITIAL) && INITIAL.phase == Start && Step(INITIAL, "").Wait?
  {
  }

  lemma ParserPhase(h: HttpParser)
    ensures h.View().phase == h.state && h.View().request == h.request
  {
  }

  lemma AheadNone(l: Looped)
    ensures Ahead([], l) == l
  {
    assert [] + l.handed == l.handed;
  }

  lemma AheadMore(rs: seq<Request>, r: Request, l: Looped)
    ensures Ahead(rs, Ahead([r], l)) == Ahead(rs + [r], l)
  {
    assert rs + ([r] + l.handed) == (rs + [r]) + l.handed;
  }

  lemma AheadLast(rs: seq<Request>, l: Looped)
    requires l.handed == []
    ensures Ahead(rs, l) == l.(handed := rs)
  {
    assert rs + [] == rs;
  }

  // ---- readable events ----

  /** The head of a request that announces an empty body is complete. */
  predicate EmptyBodyDue(p: Parser) {
    p.phase == Body && p.contentLength <= p.bodyRead
  }

  /** Such a request is handed over without a byte in view, and nothing after it. */
  lemma LoopEmptyBody(p: Parser, v: Sight, mem: Memory)
    requires Sound(v) && v.window == "" && v.contents != "" && EmptyBodyDue(p)
    ensures Loop(p, v, mem) == Looped([Finish(p).request], false, INITIAL, v)
  {
    hide Rounds, Loop, PhaseRun, Step;
    LoopOnce(p, v, mem);
    RoundsOnce(p, v, mem);
    CallStep(p, "", mem);
    EndsOnNothing(p, mem(0));
    StartsAfresh();
    LoopStops(INITIAL, v, mem);
    AheadLast([Finish(p).request], Looped([], false, INITIAL, v));
  }

  lemma EndsOnNothing(p: Parser, behind: string)
    requires EmptyBodyDue(p)
    ensures Step(p, "", behind) == Go(Finish(p), 0)
  {
  }

  /** What is seen after `got` has been written: in the reader's own block if there is room. */
  function Filled(v: Sight, shared: bool, atHead: bool, got: string): (v': Sight) {
    Sight(if shared then v.window + got else v.window, v.contents + got, atHead)
  }

  /** Reader and writer share a block that has room: what is written now comes into view. */
  ghost predicate Shared(buf: Buffer)
    requires buf.Valid()
    reads buf, buf.Repr
  {
    buf.readBlock == buf.writeBlock && buf.writeBlock.Writable() > 0
  }

  /** All of a connection's parser and buffer that an event depends on. */
  datatype Snapshot = Snapshot(parser: Parser, sight: Sight, shared: bool, atHead: bool, room: nat)

  ghost function Snap(parser: HttpParser, buf: Buffer): (s: Snapshot)
    requires buf.Valid()
    reads parser, buf, buf.Repr
  {
    Snapshot(parser.View(), Seen(buf), Shared(buf), buf.readBlock == buf.head, buf.writeBlock.Writable())
  }

  /** The requests an event hands over, and where it leaves the parser. */
  ghost predicate EventGives(s: Snapshot, input: string, mem: Memory, handed: seq<Request>, q: Parser) {
    var got := Upto(input, if s.room > 0 then s.room else BLOCK_SIZE);
    var v := Filled(s.sight, s.shared, s.atHead, got);
    Sound(v) && Loop(s.parser, v, mem).handed == handed && Loop(s.parser, v, mem).parser == q
  }

  /** A readable event: what the socket has goes behind the unread bytes, as much as fits the
      current block, and the loop serves what it can.  In one block with room that is
      everything.  Where what is written does not come into view and there is nothing to do in
      view, nothing happens, then or in any later event. */
  method OnReadable(parser: HttpParser, buf: Buffer, input: string, memory: Memory, writes: Writes)
      returns (taken: nat, handed: seq<Request>, failed: bool, closing: Closing)
    requires parser.Ok() && buf.Valid() && parser !in buf.Repr && input != "" && !Terminal(parser.View())
    modifies parser, buf.Repr
    ensures parser.Ok() && buf.Valid() && fresh(buf.Repr - old(buf.Repr))
    ensures var room := old(buf.writeBlock.Writable());
            0 < taken == |Upto(input, if room > 0 then room else BLOCK_SIZE)|
    ensures taken <= |input| && closing == Closes(writes, handed, parser.View().phase)
    ensures parser.View().phase != Done && (failed <==> Terminal(parser.View()))
    ensures var v := Filled(old(Seen(buf)), old(Shared(buf)), old(buf.readBlock == buf.head), input[..taken]);
            Sound(v) && Looped(handed, failed, parser.View(), Seen(buf)) == Loop(old(parser.View()), v, memory)
    ensures EventGives(old(Snap(parser, buf)), input, memory, handed, parser.View())
    ensures old(Shared(buf) && buf.readBlock == buf.head) ==>
              && OneBlock(buf, old(buf.writeBlock.Writable()) - taken)
              && Served(handed, failed, parser.View(), buf.Contents())
                 == Serve(old(parser.View()), old(buf.Contents()) + input[..taken], memory)
    ensures old(!Shared(buf) && Step(parser.View(), buf.Window()).Wait?) ==>
              && handed == [] && !failed && parser.View() == old(parser.View())
              && buf.Window() == old(buf.Window()) && buf.Contents() == old(buf.Contents()) + input[..taken]
              && buf.Window() != buf.Contents() && !Shared(buf)
    ensures old(!Shared(buf) && buf.Window() == "" && EmptyBodyDue(parser.View())) ==>
              && handed == [Finish(old(parser.View())).request] && !failed && parser.View() == INITIAL
              && buf.Window() == "" && buf.Contents() == old(buf.Contents()) + input[..taken]
              && !Shared(buf)
  {
    hide *;
    SharedIs(buf);
    SeenIs(buf);
    SeenSound(buf);
    buf.WindowIsPrefix();
    if buf.readBlock == buf.writeBlock {
      buf.LastWindow();
    }
    ghost var p, v, shared, atHead := parser.View(), Seen(buf), Shared(buf), buf.readBlock == buf.head;
    ghost var room := buf.writeBlock.Writable();
    SnapIs(parser, buf);
    var writable := buf.BeginWrite();
    taken := if |input| <= writable then |input| else writable;
    UptoLength(input, writable);
    var got := input[..taken];
    buf.FillHere(got);
    buf.FreeSize();
    assert buf.writeBlock.Free()[..taken] == got;
    buf.HasWritten(taken);
    SeenIs(buf);
    SeenSound(buf);
    NotNone(v.contents, got);
    FilledIs(v, shared, atHead, got);
    assert Seen(buf) == Filled(v, shared, atHead, got);
    ghost var v1 := Seen(buf);
    handed, failed, closing := ServeLoop(parser, buf, memory, writes);
    GivesIs(Snapshot(p, v, shared, atHead, room), input, memory, taken, v1);
    SeenIs(buf);
    SharedIs(buf);
    InOneBlock(buf, buf.writeBlock.Writable());
    LoopStops(p, v1, memory);
    GoingOn(parser.View());
    if shared {
      LoopOneView(p, v1, memory);
    } else {
      if v.window == "" && EmptyBodyDue(p) {
        LoopEmptyBody(p, v1, memory);
      }
      Hidden(buf);
    }
  }

  lemma SnapIs(parser: HttpParser, buf: Buffer)
    requires buf.Valid()
    ensures Snap(parser, buf)
         == Snapshot(parser.View(), Seen(buf), Shared(buf), buf.readBlock == buf.head, buf.writeBlock.Writable())
  {
  }

  lemma GivesIs(s: Snapshot, input: string, mem: Memory, n: nat, v: Sight)
    requires n <= |input| && Sound(v) && v == Filled(s.sight, s.shared, s.atHead, input[..n])
    requires n == |Upto(input, if s.room > 0 then s.room else BLOCK_SIZE)|
    ensures var l := Loop(s.parser, v, mem); EventGives(s, input, mem, l.handed, l.parser)
  {
    hide Loop;
    assert input[..n] == Upto(input, if s.room > 0 then s.room else BLOCK_SIZE);
  }

  lemma SharedIs(buf: Buffer)
    requires buf.Valid()
    ensures Shared(buf) <==> buf.readBlock == buf.writeBlock && buf.writeBlock.Writable() > 0
  {
  }

  /** What is not all in view is not all in one block. */
  lemma Hidden(buf: Buffer)
    requires buf.Valid()
    ensures buf.Window() != buf.Contents() ==> !Shared(buf)
  {
    hide *;
    SharedIs(buf);
    if buf.readBlock == buf.writeBlock {
      buf.LastWindow();
    }
  }

  lemma UptoLength(s: string, n: nat)
    ensures |Upto(s, n)| == if |s| <= n then |s| else n
  {
  }

  lemma NotNone(a: string, b: string)
    requires b != ""
    ensures a + b != "" && |a + b| > |a|
  {
  }

  lemma FilledIs(v: Sight, shared: bool, atHead: bool, got: string)
    ensures Filled(v, shared, atHead, got) ==
            Sight(if shared then v.window + got else v.window, v.contents + got, atHead)
  {
  }

  // ---- a whole connection ----

  /** What a connection makes of its stream: the first block's worth of bytes is served, and
      all the rest only piles up behind it.  It can still show that an announced empty body is
      over. */
  function FirstBlock(all: string): (s: Served) {
    var s := Serve(INITIAL, Upto(all, BLOCK_SIZE));
    if s.failed || |all| <= BLOCK_SIZE then s
    else if EmptyBodyDue(s.parser) then
      Served(s.handed + [Finish(s.parser).request], false, INITIAL, s.unread + all[BLOCK_SIZE..])
    else s.(unread := s.unread + all[BLOCK_SIZE..])
  }

  lemma FirstBlockFits(got: string)
    requires |got| <= BLOCK_SIZE
    ensures FirstBlock(got) == Serve(INITIAL, got)
  {
  }

  /** More bytes while they fit the block. */
  lemma FirstBlockGrows(got: string, x: string)
    requires |got + x| <= BLOCK_SIZE && ServeClean(INITIAL, got + x) && !FirstBlock(got).failed
    ensures var s := FirstBlock(got);
            && FirstBlock(got + x) == Behind(s.handed, Serve(s.parser, s.unread + x))
            && ServeClean(s.parser, s.unread + x)
  {
    hide Serve, ServeClean, FirstBlock;
    FirstBlockFits(got);
    FirstBlockFits(got + x);
    ServeSplits(INITIAL, got, x);
  }

  /** More bytes than fit the block. */
  lemma FirstBlockOver(got: string, x: string)
    requires BLOCK_SIZE <= |got| && x != "" && !FirstBlock(got).failed
    ensures var s := FirstBlock(got);
            FirstBlock(got + x) ==
              if |got| == BLOCK_SIZE && EmptyBodyDue(s.parser)
              then Served(s.handed + [Finish(s.parser).request], false, INITIAL, s.unread + x)
              else s.(unread := s.unread + x)
  {
    hide Serve;
    assert Upto(got + x, BLOCK_SIZE) == Upto(got, BLOCK_SIZE);
    assert (got + x)[BLOCK_SIZE..] == got[BLOCK_SIZE..] + x;
    var u := Serve(INITIAL, Upto(got, BLOCK_SIZE)).unread;
    assert u + (got[BLOCK_SIZE..] + x) == u + got[BLOCK_SIZE..] + x;
    if |got| == BLOCK_SIZE {
      assert got[BLOCK_SIZE..] + x == x;
    }
  }

  /** A failure within the first block is the end. */
  lemma FirstBlockFails(got: string, later: string)
    requires |got| <= BLOCK_SIZE && FirstBlock(got).failed && ServeClean(INITIAL, Upto(got + later, BLOCK_SIZE))
    ensures FirstBlock(got + later).failed && FirstBlock(got + later).handed == FirstBlock(got).handed
  {
    hide Serve, ServeClean;
    FirstBlockFits(got);
    var x := Upto(got + later, BLOCK_SIZE)[|got|..];
    assert Upto(got + later, BLOCK_SIZE) == got + x;
    ServeSplits(INITIAL, got, x);
  }

  /** The state of a connection after the bytes `got`, of a stream that goes on with `later`. */
  ghost predicate After(parser: HttpParser, buf: Buffer, handed: seq<Request>, got: string, later: string)
    requires buf.Valid()
    reads parser, buf, buf.Repr
  {
    && !Terminal(parser.View())
    && (|got| <= BLOCK_SIZE ==> OneBlock(buf, BLOCK_SIZE - |got|))
    && (buf.Contents() == "" || Step(parser.View(), buf.Window()).Wait?)
    && (|got| > BLOCK_SIZE ==> !Shared(buf) && Step(parser.View(), buf.Window()).Wait?)
    && OnTrack(INITIAL, got + later, handed, parser.View(), buf.Contents() + later)
    && (ServeClean(INITIAL, Upto(got + later, BLOCK_SIZE)) ==>
          Served(handed, false, parser.View(), buf.Contents()) == FirstBlock(got)
          && ServeClean(INITIAL, Upto(got, BLOCK_SIZE)))
  }

  /** The connection has failed after the bytes `got`, and would have after all of them. */
  ghost predicate Failed(handed: seq<Request>, got: string, all: string) {
    && FailsWith(INITIAL, all, handed)
    && (ServeClean(INITIAL, Upto(all, BLOCK_SIZE)) ==>
          forall s :: s in {got, all} ==> FirstBlock(s).failed && FirstBlock(s).handed == handed)
  }

  lemma GoesOnNothing(p: Parser)
    ensures EmptyBodyDue(p) <==> Step(p, "").Go?
    ensures EmptyBodyDue(p) ==> forall w: string :: Step(p, w).Go?
  {
  }

  lemma TrackMore(p: Parser, all: string, handed: seq<Request>, q: Parser, u: string, more: seq<Request>, q': Parser,
                  u': string)
    requires OnTrack(p, all, handed, q, u) && OnTrack(q, u, more, q', u')
    ensures OnTrack(p, all, handed + more, q', u')
  {
    hide Serve, ServeClean;
    var s := Serve(q', u');
    assert handed + (more + s.handed) == (handed + more) + s.handed;
  }

  lemma TrackFails(p: Parser, all: string, handed: seq<Request>, q: Parser, u: string, more: seq<Request>)
    requires OnTrack(p, all, handed, q, u) && FailsWith(q, u, more)
    ensures FailsWith(p, all, handed + more)
  {
    hide Serve, ServeClean;
  }

  lemma TrackStart(all: string)
    ensures OnTrack(INITIAL, all, [], INITIAL, all)
  {
    hide Serve, ServeClean;
    assert [] + Serve(INITIAL, all).handed == Serve(INITIAL, all).handed;
  }

  /** The first block of a clean stream is clean as far as it has arrived. */
  lemma CleanSoFar(got: string, later: string)
    requires ServeClean(INITIAL, Upto(got + later, BLOCK_SIZE))
    ensures ServeClean(INITIAL, Upto(got, BLOCK_SIZE))
  {
    hide Serve, ServeClean;
    var a, whole := Upto(got, BLOCK_SIZE), Upto(got + later, BLOCK_SIZE);
    assert whole == a + whole[|a|..];
    ServeSplits(INITIAL, a, whole[|a|..]);
  }

  /** The new bytes fit the first block and have been served. */
  lemma ServedMore(got: string, x: string, rest: string, s: Served, mem: Memory)
    requires |got + x| <= BLOCK_SIZE && ServeClean(INITIAL, Upto((got + x) + rest, BLOCK_SIZE))
    requires s == FirstBlock(got) && !s.failed
    ensures FirstBlock(got + x) == Behind(s.handed, Serve(s.parser, s.unread + x, mem))
    ensures ServeClean(INITIAL, Upto(got + x, BLOCK_SIZE))
  {
    hide Serve, ServeClean, FirstBlock;
    CleanSoFar(got + x, rest);
    FirstBlockGrows(got, x);
    ServeAnyMemory(s.parser, s.unread + x, mem);
  }

  /** One readable event in the life of a connection. */
  method Receive(parser: HttpParser, buf: Buffer, input: string, memory: Memory, writes: Writes,
                 handed: seq<Request>, ghost got: string, ghost later: string)
      returns (taken: nat, handed': seq<Request>, failed: bool, closing: Closing)
    requires parser.Ok() && buf.Valid() && parser !in buf.Repr && input != ""
    requires After(parser, buf, handed, got, input + later)
    requires FirstFailed(writes, |handed|) == |handed|
    modifies parser, buf.Repr
    ensures parser.Ok() && buf.Valid() && fresh(buf.Repr - old(buf.Repr)) && 0 < taken <= |input|
    ensures closing == Closes(writes, handed', parser.View().phase)
    ensures failed ==> Failed(handed', got + input[..taken], got + (input + later))
    ensures !failed ==> After(parser, buf, handed', got + input[..taken], input[taken..] + later)
  {
    hide *;
    AfterIs(parser, buf, handed, got, input + later);
    SharedIs(buf);
    InOneBlock(buf, buf.writeBlock.Writable());
    if |got| <= BLOCK_SIZE {
      InOneBlock(buf, BLOCK_SIZE - |got|);
    }
    SeenIs(buf);
    if buf.readBlock == buf.writeBlock {
      buf.LastWindow();
    }
    if buf.Contents() == "" {
      buf.WindowIsPrefix();
    }
    GoesOnNothing(parser.View());
    StartsAfresh();
    ghost var p, c, v, shared := parser.View(), buf.Contents(), Seen(buf), Shared(buf);
    ghost var atHead, room := buf.readBlock == buf.head, buf.writeBlock.Writable();
    var more: seq<Request>;
    taken, more, failed, closing := OnReadable(parser, buf, input, memory, WritesBehind(writes, |handed|));
    WritesFrom(writes, handed, more, parser.View().phase);
    UptoLength(input, if room > 0 then room else BLOCK_SIZE);
    handed' := handed + more;
    ghost var x, rest := input[..taken], input[taken..] + later;
    ghost var v1 := Filled(v, shared, atHead, x);
    FilledIs(v, shared, atHead, x);
    LoopOnTrack(p, v1, memory, rest);
    LoopStops(p, v1, memory);
    SeenIs(buf);
    SharedIs(buf);
    InOneBlock(buf, buf.writeBlock.Writable());
    Regroup(got, input, taken, later);
    Regroup(c, input, taken, later);
    if failed {
      TrackFails(INITIAL, got + (input + later), handed, p, c + (input + later), more);
    } else {
      TrackMore(INITIAL, got + (input + later), handed, p, c + (input + later), more,
                parser.View(), buf.Contents() + rest);
    }
    if ServeClean(INITIAL, Upto((got + x) + rest, BLOCK_SIZE)) {
      if |got| < BLOCK_SIZE {
        ServedMore(got, x, rest, FirstBlock(got), memory);
        BehindIs(handed, p, c + x, memory);
        assert Served(handed', failed, parser.View(), buf.Contents()) == FirstBlock(got + x);
        if failed {
          FirstBlockFails(got + x, rest);
        }
      } else {
        FirstBlockOver(got, x);
        CleanSoFar(got + x, rest);
        AddsNothing(handed);
      }
    }
    if failed {
      FailedIs(handed', got + x, got + (input + later));
    } else {
      AfterIs(parser, buf, handed', got + x, rest);
    }
  }

  /** The responses after the first `k`. */
  function WritesBehind(writes: Writes, k: nat): (w: Writes) {
    (i: nat) => writes(k + i)
  }

  /** The responses of an event, among those of the connection. */
  lemma {:induction false} FailedFrom(writes: Writes, k: nat, n: nat)
    requires FirstFailed(writes, k) == k
    ensures FirstFailed(writes, k + n) == k + FirstFailed(WritesBehind(writes, k), n)
  {
    if n > 0 {
      FailedFrom(writes, k, n - 1);
    }
  }

  lemma WritesFrom(writes: Writes, handed: seq<Request>, more: seq<Request>, phase: Phase)
    requires FirstFailed(writes, |handed|) == |handed|
    ensures Closes(WritesBehind(writes, |handed|), more, phase) == Closes(writes, handed + more, phase)
  {
    hide FirstFailed, WritesBehind, ClosesAt;
    FailedFrom(writes, |handed|, |more|);
    BehindFront(handed, more, FirstFailed(WritesBehind(writes, |handed|), |more|), phase);
  }

  lemma BehindFront(a: seq<Request>, b: seq<Request>, f: nat, phase: Phase)
    ensures ClosesAt(f, b, phase) == ClosesAt(|a| + f, a + b, phase)
  {
    assert f < |b| ==> (a + b)[|a| + f + 1..] == b[f + 1..];
  }

  lemma AddsNothing(handed: seq<Request>)
    ensures handed + [] == handed
  {
  }

  lemma BehindIs(handed: seq<Request>, p: Parser, u: string, mem: Memory)
    ensures var s := Serve(p, u, mem);
            Behind(handed, s) == Served(handed + s.handed, s.failed, s.parser, s.unread)
  {
    hide Serve;
  }

  lemma Regroup(a: string, input: string, n: nat, later: string)
    requires n <= |input|
    ensures a + (input + later) == (a + input[..n]) + (input[n..] + later)
  {
  }

  lemma AfterIs(parser: HttpParser, buf: Buffer, handed: seq<Request>, got: string, later: string)
    requires buf.Valid()
    ensures After(parser, buf, handed, got, later) <==>
            && !Terminal(parser.View())
            && (|got| <= BLOCK_SIZE ==> OneBlock(buf, BLOCK_SIZE - |got|))
            && (buf.Contents() == "" || Step(parser.View(), buf.Window()).Wait?)
            && (|got| > BLOCK_SIZE ==> !Shared(buf) && Step(parser.View(), buf.Window()).Wait?)
            && OnTrack(INITIAL, got + later, handed, parser.View(), buf.Contents() + later)
            && (ServeClean(INITIAL, Upto(got + later, BLOCK_SIZE)) ==>
                  Served(handed, false, parser.View(), buf.Contents()) == FirstBlock(got)
                  && ServeClean(INITIAL, Upto(got, BLOCK_SIZE)))
  {
    hide Serve, ServeClean, Step, FirstBlock, OnTrack, OneBlock, Shared;
  }

  lemma FailedIs(handed: seq<Request>, got: string, all: string)
    ensures Failed(handed, got, all) <==>
            && FailsWith(INITIAL, all, handed)
            && (ServeClean(INITIAL, Upto(all, BLOCK_SIZE)) ==>
                  && FirstBlock(all).failed && FirstBlock(all).handed == handed
                  && FirstBlock(got).failed && FirstBlock(got).handed == handed)
  {
    hide FirstBlock, FailsWith, ServeClean, Upto;
  }

  /** One connection from its first byte on: the stream arrives in any pieces, the socket
      hands over as much as a block takes, whatever lies in memory lies there, and responses
      can be written or not.  Exactly the requests of the first block's worth of the bytes
      received come out, in order, and nothing after them; what is unread or was never received
      holds exactly the others.  An event on a closed connection does nothing, so only a close
      or a failure keeps bytes from being received. */
  method ServeStream(pieces: seq<Piece>, writes: Writes)
      returns (handed: seq<Request>, failed: bool, closing: Closing, received: nat, parser: HttpParser, buf: Buffer)
    ensures parser.Ok() && buf.Valid() && received <= |Bytes(pieces)|
    ensures closing == Closes(writes, handed, parser.View().phase)
    ensures !failed && !closing.closed ==> received == |Bytes(pieces)|
    ensures ServeClean(INITIAL, Upto(Bytes(pieces), BLOCK_SIZE)) ==>
              var s := FirstBlock(Bytes(pieces)[..received]);
              && failed == s.failed && handed == s.handed
              && (if failed then FirstBlock(Bytes(pieces)).failed && FirstBlock(Bytes(pieces)).handed == handed
                  else parser.View() == s.parser && buf.Contents() == s.unread)
    ensures ServeClean(INITIAL, Bytes(pieces)) ==>
              var whole := Serve(INITIAL, Bytes(pieces));
              if failed then whole.failed && whole.handed == handed
              else whole == Behind(handed, Serve(parser.View(), buf.Contents() + Bytes(pieces)[received..]))
    ensures !failed ==> buf.Contents() == "" || Step(parser.View(), buf.Window()).Wait?
  {
    hide *;
    parser := new HttpParser();
    buf := new Buffer();
    ghost var all := Bytes(pieces);
    handed, failed, closing, received := [], false, Closing(false, []), 0;
    NoWrites(writes, Start);
    StartsAfresh();
    var i := 0;
    ghost var got := "";
    StartsAfter(parser, buf, all);
    assert pieces[0..] == pieces;
    while i < |pieces|
      invariant 0 <= i <= |pieces| && parser.Ok() && buf.Valid() && parser !in buf.Repr
      invariant fresh(parser) && fresh(buf.Repr) && all == got + Bytes(pieces[i..]) && received == |got|
      invariant After(parser, buf, handed, got, Bytes(pieces[i..]))
      invariant closing == Closes(writes, handed, parser.View().phase) && !closing.closed
    {
      ghost var later := Bytes(pieces[i + 1..]);
      BytesFrom(pieces, i);
      var left := pieces[i].bytes;
      while left != ""
        invariant parser.Ok() && buf.Valid() && parser !in buf.Repr && fresh(parser) && fresh(buf.Repr)
        invariant all == got + (left + later) && received == |got|
        invariant After(parser, buf, handed, got, left + later)
        invariant closing == Closes(writes, handed, parser.View().phase) && !closing.closed
        decreases |left|
      {
        var taken;
        NoneFailed(writes, handed, parser.View().phase);
        Regroup(got, left, 0, later);
        taken, handed, failed, closing :=
          Receive(parser, buf, left, pieces[i].memory, writes, handed, got, later);
        Regroup(got, left, taken, later);
        got := got + left[..taken];
        left := left[taken..];
        received := received + taken;
        Received(got, left + later);
        if failed {
          FailedIs(handed, got, all);
          FailsIs(all, handed);
          return;
        }
        if closing.closed {
          StreamStands(parser, buf, handed, got, left + later);
          return;
        }
      }
      assert "" + later == later;
      i := i + 1;
    }
    assert pieces[i..] == [];
    BytesNone();
    Received(got, "");
    StreamStands(parser, buf, handed, got, "");
  }

  lemma Received(got: string, later: string)
    ensures (got + later)[..|got|] == got && (got + later)[|got|..] == later
  {
  }

  lemma NoneFailed(writes: Writes, handed: seq<Request>, phase: Phase)
    requires !Closes(writes, handed, phase).closed
    ensures FirstFailed(writes, |handed|) == |handed|
  {
  }

  /** What a connection that has not failed has made of its stream. */
  lemma StreamStands(parser: HttpParser, buf: Buffer, handed: seq<Request>, got: string, later: string)
    requires buf.Valid() && After(parser, buf, handed, got, later)
    ensures buf.Contents() == "" || Step(parser.View(), buf.Window()).Wait?
    ensures ServeClean(INITIAL, Upto(got + later, BLOCK_SIZE)) ==>
              Served(handed, false, parser.View(), buf.Contents()) == FirstBlock(got)
    ensures ServeClean(INITIAL, got + later) ==>
              Serve(INITIAL, got + later) == Behind(handed, Serve(parser.View(), buf.Contents() + later))
  {
    hide *;
    AfterIs(parser, buf, handed, got, later);
    TrackIs(got + later, handed, parser.View(), buf.Contents() + later);
  }

  lemma BytesNone()
    ensures Bytes([]) == ""
  {
  }

  lemma BytesFrom(pieces: seq<Piece>, i: nat)
    requires i < |pieces|
    ensures Bytes(pieces[i..]) == pieces[i].bytes + Bytes(pieces[i + 1..])
  {
    assert pieces[i..][1..] == pieces[i + 1..];
  }

  lemma FailsIs(all: string, handed: seq<Request>)
    ensures FailsWith(INITIAL, all, handed) <==>
              (ServeClean(INITIAL, all) ==> Serve(INITIAL, all).failed && Serve(INITIAL, all).handed == handed)
  {
  }

  lemma TrackIs(all: string, handed: seq<Request>, q: Parser, u: string)
    ensures OnTrack(INITIAL, all, handed, q, u) ==>
              (ServeClean(INITIAL, all) ==> Serve(INITIAL, all) == Behind(handed, Serve(q, u)))
  {
  }

  lemma StartsAfter(parser: HttpParser, buf: Buffer, all: string)
    requires buf.Valid() && parser.View() == INITIAL && buf.Contents() == ""
    requires buf.readBlock == buf.writeBlock == buf.head && buf.writeBlock.Writable() == BLOCK_SIZE
    ensures After(parser, buf, [], "", all) && "" + all == all
  {
    hide *;
    assert "" + all == all;
    StartsAfresh();
    InOneBlock(buf, BLOCK_SIZE);
    TrackStart(all);
    FirstBlockFits("");
    ServeNothing(INITIAL);
    CleanNothing(INITIAL);
    UptoLength("", BLOCK_SIZE);
    AfterIs(parser, buf, [], "", all);
  }

  // ---- which requests those are ----

  lemma {:induction false} EncodeAllSplit(ms: seq<Message>, k: nat)
    requires k <= |ms|
    ensures EncodeAll(ms) == EncodeAll(ms[..k]) + EncodeAll(ms[k..])
    ensures RequestsOf(ms) == RequestsOf(ms[..k]) + RequestsOf(ms[k..])
    decreases k
  {
    hide Encode, RequestOf, EncodeAll, RequestsOf;
    if k == 0 {
      assert ms[..0] == [] && ms[0..] == ms;
      NoMessages();
      assert "" + EncodeAll(ms) == EncodeAll(ms) && [] + RequestsOf(ms) == RequestsOf(ms);
    } else {
      var rest := ms[1..];
      EncodeAllSplit(rest, k - 1);
      assert ms[..k][1..] == rest[..k - 1] && ms[k..] == rest[k - 1..] && ms[..k][0] == ms[0];
      FirstMessage(ms);
      FirstMessage(ms[..k]);
      var a, r := Encode(ms[0]), [RequestOf(ms[0])];
      var b, q := rest[..k - 1], ms[k..];
      assert a + (EncodeAll(b) + EncodeAll(q)) == (a + EncodeAll(b)) + EncodeAll(q);
      assert r + (RequestsOf(b) + RequestsOf(q)) == (r + RequestsOf(b)) + RequestsOf(q);
    }
  }

  lemma NoMessages()
    ensures EncodeAll([]) == "" && RequestsOf([]) == []
  {
  }

  lemma FirstMessage(ms: seq<Message>)
    requires ms != []
    ensures EncodeAll(ms) == Encode(ms[0]) + EncodeAll(ms[1..])
    ensures RequestsOf(ms) == [RequestOf(ms[0])] + RequestsOf(ms[1..])
  {
    hide Encode, RequestOf;
  }

  lemma OneMessage(m: Message)
    ensures EncodeAll([m]) == Encode(m) && RequestsOf([m]) == [RequestOf(m)]
  {
    hide Encode, RequestOf;
    assert [m][1..] == [];
    assert Encode(m) + "" == Encode(m);
  }

  lemma {:induction false} OneRequestEach(ms: seq<Message>)
    ensures |RequestsOf(ms)| == |ms|
  {
    if ms != [] {
      OneRequestEach(ms[1..]);
    }
  }

  /** Only part of a message has arrived, so no empty body is due. */
  lemma NothingDue(m: Message, tail: string)
    requires WellFormed(m) && tail <= Encode(m) && tail != Encode(m)
    ensures !EmptyBodyDue(Serve(INITIAL, tail).parser)
  {
    hide Run, Clean, Serve, ServeClean, WellFormed, Encode, AnnouncesNone;
    var missing := Encode(m)[|tail|..];
    assert Encode(m) == tail + missing;
    CompleteExactlyWhen(m);
    RunSplits(INITIAL, tail, missing);
    var c := Run(INITIAL, tail);
    IncompleteWaits(m, tail) by { assert Unfinished(m, tail); }
    if tail == "" {
      ServeNothing(INITIAL);
    } else {
      ServeStep(INITIAL, tail);
      if EmptyBodyDue(c.parser) {
        DueIsDone(c.parser, c.unread + missing);
        assert false;
      }
    }
  }

  lemma DueIsDone(p: Parser, w: string)
    requires EmptyBodyDue(p) && w != ""
    ensures Run(p, w) == Config(Finish(p), w)
  {
    RunStep(p, w);
    assert w[0..] == w;
    RunTerminal(Finish(p), w);
  }

  /** Messages that reach past the first block: exactly those that end within it are handed
      over, however many more there are. */
  lemma HandedExactly(ms: seq<Message>, k: nat)
    requires forall i :: 0 <= i < |ms| ==> WellFormed(ms[i])
    requires k < |ms| && |EncodeAll(ms[..k])| <= BLOCK_SIZE < |EncodeAll(ms[..k + 1])|
    ensures var s := FirstBlock(EncodeAll(ms)); s.handed == RequestsOf(ms[..k]) && !s.failed
    ensures ServeClean(INITIAL, Upto(EncodeAll(ms), BLOCK_SIZE))
  {
    hide Run, Clean, Serve, ServeClean, WellFormed, Encode, AnnouncesNone, RequestOf, Upto, EncodeAll, RequestsOf;
    var all, front := EncodeAll(ms), EncodeAll(ms[..k]);
    var tail := FirstBlockOf(ms, k);
    var s := Serve(INITIAL, Upto(all, BLOCK_SIZE));
    if tail == "" && k > 0 && AnnouncesNone(ms[k - 1]) {
      LastWaits(ms[..k]);
      assert front + "" == front;
    } else {
      assert Followed(ms[..k], tail);
      IncompleteWaits(ms[k], tail) by { assert Unfinished(ms[k], tail); }
      NothingDue(ms[k], tail);
      ServeMessages(ms[..k], tail);
      assert RequestsOf(ms[..k]) + [] == RequestsOf(ms[..k]);
    }
  }

  /** What of the message after the first `k` is in the first block. */
  lemma FirstBlockOf(ms: seq<Message>, k: nat) returns (tail: string)
    requires k < |ms| && |EncodeAll(ms[..k])| <= BLOCK_SIZE < |EncodeAll(ms[..k + 1])|
    ensures tail <= Encode(ms[k]) && tail != Encode(ms[k])
    ensures Upto(EncodeAll(ms), BLOCK_SIZE) == EncodeAll(ms[..k]) + tail && |EncodeAll(ms)| > BLOCK_SIZE
  {
    hide Encode, EncodeAll;
    var front := EncodeAll(ms[..k]);
    EncodeAllSplit(ms, k + 1);
    EncodeAllSplit(ms[..k + 1], k);
    assert ms[..k + 1][..k] == ms[..k] && ms[..k + 1][k..] == [ms[k]];
    OneMessage(ms[k]);
    tail := Encode(ms[k])[..BLOCK_SIZE - |front|];
    var behind := Encode(ms[k])[BLOCK_SIZE - |front|..] + EncodeAll(ms[k + 1..]);
    assert EncodeAll(ms) == (front + tail) + behind;
  }

  /** A last message that announces an empty body is all there, and not yet handed over. */
  lemma LastWaits(ms: seq<Message>)
    requires ms != [] && forall i :: 0 <= i < |ms| ==> WellFormed(ms[i])
    requires AnnouncesNone(ms[|ms| - 1])
    ensures var s := Serve(INITIAL, EncodeAll(ms));
            && !s.failed && EmptyBodyDue(s.parser)
            && s.handed + [Finish(s.parser).request] == RequestsOf(ms)
    ensures ServeClean(INITIAL, EncodeAll(ms))
  {
    hide Run, Clean, Serve, ServeClean, WellFormed, Encode, EncodeAll, RequestsOf, RequestOf, AnnouncesNone;
    var front, m := ms[..|ms| - 1], ms[|ms| - 1];
    EncodeAllSplit(ms, |ms| - 1);
    assert ms[|ms| - 1..] == [m];
    OneMessage(m);
    NotNothing(m);
    CompleteExactlyWhen(m);
    ServeStep(INITIAL, Encode(m));
    CleanStep(INITIAL, Encode(m));
    ServeMessages(front, Encode(m));
    assert RequestsOf(front) + [] == RequestsOf(front);
  }

  lemma {:induction false} WhereItEnds(ms: seq<Message>, n: nat) returns (k: nat)
    requires n <= |ms| && |EncodeAll(ms[..n])| > BLOCK_SIZE
    ensures k < n && |EncodeAll(ms[..k])| <= BLOCK_SIZE < |EncodeAll(ms[..k + 1])|
    decreases n
  {
    if n == 0 || |EncodeAll(ms[..n - 1])| <= BLOCK_SIZE {
      k := n - 1;
    } else {
      k := WhereItEnds(ms, n - 1);
    }
  }

  /** All the requests of a connection are handed over if and only if they fit one block. */
  lemma AllHandedExactlyWhen(ms: seq<Message>)
    requires forall i :: 0 <= i < |ms| ==> WellFormed(ms[i])
    requires Followed(ms, "")
    ensures FirstBlock(EncodeAll(ms)).handed == RequestsOf(ms) <==> |EncodeAll(ms)| <= BLOCK_SIZE
  {
    hide Serve, ServeClean, WellFormed, FirstBlock, Followed, EncodeAll, RequestsOf;
    if |EncodeAll(ms)| <= BLOCK_SIZE {
      FirstBlockFits(EncodeAll(ms));
      CleanNothing(INITIAL);
      ServeMessages(ms, "");
      ServeNothing(INITIAL);
      assert EncodeAll(ms) + "" == EncodeAll(ms) && RequestsOf(ms) + [] == RequestsOf(ms);
    } else {
      assert ms[..|ms|] == ms;
      var k := WhereItEnds(ms, |ms|);
      HandedExactly(ms, k);
      OneRequestEach(ms[..k]);
      OneRequestEach(ms);
    }
  }

  // ---- two connections that stall ----

  /** A request padded to any length from 23 bytes on. */
  function Padded(n: nat): (m: Message) {
    Message("GET", "/", "HTTP/1.1", [Field("x", 1, seq(n, _ => 'a'))], "")
  }

  const PLAIN: Message := Message("GET", "/", "HTTP/1.1", [], "")

  lemma PaddedIs(n: nat)
    ensures WellFormed(Padded(n)) && !AnnouncesNone(Padded(n)) && |Encode(Padded(n))| == n + 23
  {
    var h := Padded(n).headers;
    assert h[1..] == [];
    assert EncodeHeaders(h) == FieldLine(h[0]) + CRLF + "";
    assert HeaderMap(map[], h) == map["x" := h[0].value];
    assert !Contains("", "chunked");
  }

  lemma PlainIs()
    ensures WellFormed(PLAIN) && !AnnouncesNone(PLAIN) && Encode(PLAIN) == "GET / HTTP/1.1\r\n\r\n"
  {
    assert !Contains("", "chunked");
  }

  lemma BlockIs()
    ensures BLOCK_SIZE == 4096
  {
  }

  /** One read that fills the first block, and another after it: the second is not looked at. */
  method TwoReads(a: string, b: string, memory: Memory, ghost left: string)
      returns (parser: HttpParser, buf: Buffer, first: seq<Request>, second: seq<Request>)
    requires |a| == BLOCK_SIZE && 0 < |b| <= BLOCK_SIZE
    requires var s := Serve(INITIAL, a, memory); !s.failed && s.parser == INITIAL && s.unread == left
    requires Step(INITIAL, left).Wait?
    ensures first == Serve(INITIAL, a, memory).handed && second == []
    ensures buf.Valid() && parser.View() == INITIAL && buf.Window() == left && buf.Contents() == left + b
  {
    hide *;
    BlockIs();
    parser := new HttpParser();
    buf := new Buffer();
    StartsAfresh();
    SharedIs(buf);
    assert "" + a == a && a[..|a|] == a && b[..|b|] == b;
    UptoLength(a, BLOCK_SIZE);
    UptoLength(b, BLOCK_SIZE);
    var taken, failed;
    var closing;
    taken, first, failed, closing := OnReadable(parser, buf, a, memory, _ => true);
    InOneBlock(buf, 0);
    SharedIs(buf);
    buf.LastWindow();
    taken, second, failed, closing := OnReadable(parser, buf, b, memory, _ => true);
  }

  /** Two requests in one read, and the response to the first cannot be written: the connection
      is closed, and the second request is handed over after that. */
  method ServedAfterClose(memory: Memory) returns (handed: seq<Request>, closing: Closing)
    ensures handed == [RequestOf(PLAIN), RequestOf(PLAIN)]
    ensures closing == Closing(true, [RequestOf(PLAIN)])
  {
    hide *;
    var parser := new HttpParser();
    var buf := new Buffer();
    PlainIs();
    BlockIs();
    StartsAfresh();
    SharedIs(buf);
    var input := Encode(PLAIN) + Encode(PLAIN);
    ServesTwo(PLAIN, memory);
    assert "" + input == input && input[..|input|] == input;
    UptoLength(input, BLOCK_SIZE);
    var writes: Writes := i => i != 0;
    var taken, failed;
    taken, handed, failed, closing := OnReadable(parser, buf, input, memory, writes);
    SecondIsLate(writes, handed);
  }

  lemma SecondIsLate(writes: Writes, handed: seq<Request>)
    requires |handed| == 2 && !writes(0)
    ensures Closes(writes, handed, INITIAL.phase) == Closing(true, [handed[1]])
  {
    assert FirstFailed(writes, 2) == 0;
  }

  lemma ServesTwo(m: Message, mem: Memory)
    requires WellFormed(m) && !AnnouncesNone(m)
    ensures Serve(INITIAL, Encode(m) + Encode(m), mem) == Served([RequestOf(m), RequestOf(m)], false, INITIAL, "")
  {
    hide Serve, ServeClean, WellFormed, Encode, RequestOf, AnnouncesNone;
    OneMessage(m);
    FirstMessage([m, m]);
    assert [m, m][1..] == [m];
    CleanNothing(INITIAL);
    ServeMessages([m, m], "");
    ServeNothing(INITIAL);
    assert EncodeAll([m, m]) + "" == Encode(m) + Encode(m);
    assert [RequestOf(m), RequestOf(m)] + [] == [RequestOf(m)] + [RequestOf(m)];
    ServeAnyMemory(INITIAL, Encode(m) + Encode(m), mem);
  }

  /** A request that fills the first block to the last byte is handed over and leaves it
      drained.  The next one goes to the next block and is not looked at. */
  method DrainedBlockStalls(memory: Memory)
      returns (parser: HttpParser, buf: Buffer, first: seq<Request>, second: seq<Request>)
    ensures first == [RequestOf(Padded(4073))] && second == []
    ensures buf.Valid() && parser.View() == INITIAL && buf.Window() == ""
    ensures buf.Contents() == Encode(PLAIN) && Run(INITIAL, buf.Contents()).parser.phase == Done
  {
    hide *;
    BlockIs();
    PaddedIs(4073);
    PlainIs();
    StartsAfresh();
    ServesOne(Padded(4073), memory);
    assert "" + Encode(PLAIN) == Encode(PLAIN);
    parser, buf, first, second := TwoReads(Encode(Padded(4073)), Encode(PLAIN), memory, "");
    CompleteExactlyWhen(PLAIN);
  }

  /** The end of the first block cuts a request line in two: the whole request is in the
      buffer, and it is never looked at again. */
  method StraddledLineStalls(memory: Memory)
      returns (parser: HttpParser, buf: Buffer, first: seq<Request>, second: seq<Request>)
    ensures first == [RequestOf(Padded(4067))] && second == []
    ensures buf.Valid() && parser.View() == INITIAL && buf.Window() == "GET / "
    ensures buf.Contents() == Encode(PLAIN) && Run(INITIAL, buf.Contents()).parser.phase == Done
  {
    hide *;
    BlockIs();
    PaddedIs(4067);
    PlainIs();
    HalfLine();
    var half, rest := "GET / ", "HTTP/1.1\r\n\r\n";
    ServesOneAndHalf(Padded(4067), half, memory);
    assert half + rest == Encode(PLAIN);
    parser, buf, first, second := TwoReads(Encode(Padded(4067)) + half, rest, memory, half);
    CompleteExactlyWhen(PLAIN);
  }

  lemma ServesOne(m: Message, mem: Memory)
    requires WellFormed(m) && !AnnouncesNone(m)
    ensures Serve(INITIAL, Encode(m), mem) == Served([RequestOf(m)], false, INITIAL, "")
  {
    hide Serve, ServeClean, WellFormed, Encode, RequestOf;
    OneMessage(m);
    CleanNothing(INITIAL);
    ServeMessages([m], "");
    ServeNothing(INITIAL);
    assert EncodeAll([m]) + "" == Encode(m) && [RequestOf(m)] + [] == [RequestOf(m)];
    ServeAnyMemory(INITIAL, Encode(m), mem);
  }

  lemma HalfLine()
    ensures Step(INITIAL, "GET / ").Wait?
  {
    var w := "GET / ";
    assert forall k :: 0 <= k < 6 ==> w[k] != '\r';
    assert forall k :: !CrlfAt(w, k);
  }

  lemma ServesOneAndHalf(m: Message, half: string, mem: Memory)
    requires WellFormed(m) && !AnnouncesNone(m) && half != "" && Step(INITIAL, half).Wait?
    ensures Serve(INITIAL, Encode(m) + half, mem) == Served([RequestOf(m)], false, INITIAL, half)
  {
    hide Serve, ServeClean, WellFormed, Encode, RequestOf, Run, Clean, Step;
    OneMessage(m);
    WaitsClean(half);
    ServeStep(INITIAL, half);
    StandsStill(INITIAL, half, NOTHING);
    CleanStep(INITIAL, half);
    StartsAfresh();
    ServeMessages([m], half);
    assert [RequestOf(m)] + [] == [RequestOf(m)];
    ServeAnyMemory(INITIAL, Encode(m) + half, mem);
  }

  lemma WaitsClean(half: string)
    requires Step(INITIAL, half).Wait?
    ensures Clean(INITIAL, half)
  {
  }
}
