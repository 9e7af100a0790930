/** The server's loop around the parser: one connection's bytes in, requests out, in order. */
module Pipelining {
  import opened Text
  import opened Strtoul
  import opened ParserSpec
  import opened Messages
  import opened Windows

  /** The requests handed over, and where the connection stands afterwards. */
  datatype Served = Served(handed: seq<Request>, failed: bool, parser: Parser, unread: string)

  /** What the loop makes of a parser and its unread bytes: hand over each finished request
      and start afresh; stop on an error, an exception, or when more bytes are needed. */
  function Serve(p: Parser, u: string, mem: Memory := NOTHING): (s: Served)
    decreases |u|, if p.phase == Start then 0 else 1
  {
    if u == "" then Served([], false, p, u)
    else
      var c := Run(p, u, mem);
      RunConsumes(p, u, mem);
      if c.parser.phase == Done then Before(c.parser.request, Serve(INITIAL, c.unread, mem))
      else Served([], Terminal(c.parser), c.parser, c.unread)
  }

  function Before(r: Request, s: Served): (t: Served) {
    s.(handed := [r] + s.handed)
  }

  function Behind(rs: seq<Request>, s: Served): (t: Served) {
    s.(handed := rs + s.handed)
  }

  /** Every request on the way is clean. */
  predicate ServeClean(p: Parser, u: string)
    decreases |u|, if p.phase == Start then 0 else 1
  {
    u == "" ||
    (RunConsumes(p, u);
     && Clean(p, u)
     && (Run(p, u).parser.phase == Done ==> ServeClean(INITIAL, Run(p, u).unread)))
  }

  lemma ServeStep(p: Parser, u: string, mem: Memory := NOTHING)
    requires u != ""
    ensures var c := Run(p, u, mem);
            Serve(p, u, mem) ==
              if c.parser.phase == Done then Before(c.parser.request, Serve(INITIAL, c.unread, mem))
              else Served([], Terminal(c.parser), c.parser, c.unread)
    ensures ServeClean(p, u) ==> Clean(p, u)
    ensures ServeClean(p, u) && Run(p, u).parser.phase == Done ==> ServeClean(INITIAL, Run(p, u).unread)
  {
  }

  /** Over a clean stream the memory behind the view does not matter. */
  lemma {:induction false} ServeAnyMemory(p: Parser, u: string, mem: Memory)
    requires ServeClean(p, u)
    ensures Serve(p, u, mem) == Serve(p, u)
    decreases |u|, if p.phase == Start then 0 else 1
  {
    hide Run, Clean, Serve, ServeClean;
    if u == "" {
      ServeNothing(p, mem);
      ServeNothing(p);
    } else {
      ServeStep(p, u, mem);
      ServeStep(p, u);
      RunAnyMemory(p, u, mem);
      RunConsumes(p, u);
      if Run(p, u).parser.phase == Done {
        ServeAnyMemory(INITIAL, Run(p, u).unread, mem);
      }
    }
  }

  /** Serving depends only on where the run ends. */
  lemma ServeSameRun(p: Parser, u: string, q: Parser, v: string)
    requires u != "" && Run(p, u) == Run(q, v) && (v == "" ==> !Terminal(q))
    ensures Serve(q, v) == Serve(p, u)
    ensures ServeClean(p, u) && Clean(q, v) ==> ServeClean(q, v)
  {
    hide Clean, Run;
    ServeStep(p, u);
    if v == "" {
      RunConsumes(q, v);
      RunNothing(q);
    } else {
      ServeStep(q, v);
    }
  }

  /** A connection that has not failed has a parser that can go on. */
  lemma {:induction false} ServeGoesOn(p: Parser, u: string, mem: Memory)
    requires !Terminal(p) && !Serve(p, u, mem).failed
    ensures var s := Serve(p, u, mem); !Terminal(s.parser) && (s.unread == "" || Step(s.parser, s.unread).Wait?)
    decreases |u|, if p.phase == Start then 0 else 1
  {
    hide Run, Step;
    if u != "" {
      var c := Run(p, u, mem);
      RunConsumes(p, u, mem);
      if c.parser.phase == Done {
        ServeGoesOn(INITIAL, c.unread, mem);
      } else {
        RunEndsWaiting(p, u, mem);
      }
    }
  }

  lemma {:induction false} RunEndsWaiting(p: Parser, u: string, mem: Memory)
    ensures var c := Run(p, u, mem); c.unread == "" || Step(c.parser, c.unread).Wait?
    decreases |u|, if Terminal(p) then 0 else 1
  {
    hide Step;
    WaitAnyMemory(p, u, mem(|u|));
    var m := Step(p, u, mem(|u|));
    if u != "" && m.Go? {
      RunEndsWaiting(m.parser, u[m.consumed..], mem);
    }
  }

  // ---- bytes that arrive later ----

  /** Serving a prefix and then the rest is serving the whole: the same requests, the same
      end.  After an error the connection is closed and the rest is never looked at. */
  lemma {:induction false} ServeSplits(p: Parser, a: string, b: string)
    requires ServeClean(p, a + b)
    ensures var s := Serve(p, a);
            if s.failed then Serve(p, a + b) == s.(unread := s.unread + b)
            else Serve(p, a + b) == Behind(s.handed, Serve(s.parser, s.unread + b))
                 && ServeClean(s.parser, s.unread + b)
    ensures ServeClean(p, a)
    decreases |a|, if p.phase == Start then 0 else 1
  {
    hide Run, Clean, Serve, ServeClean;
    if a == "" {
      ServeNothing(p);
      CleanNothing(p);
      assert a + b == b && [] + Serve(p, b).handed == Serve(p, b).handed;
    } else {
      var c := Run(p, a);
      ServeStep(p, a);
      ServeStep(p, a + b);
      RunSplits(p, a, b);
      RunConsumes(p, a);
      if c.parser.phase == Done {
        RunTerminal(c.parser, c.unread + b);
        ServeSplits(INITIAL, c.unread, b);
        CleanStep(p, a);
        var s := Serve(INITIAL, c.unread);
        if !s.failed {
          var t := Serve(s.parser, s.unread + b);
          assert [c.parser.request] + (s.handed + t.handed) == ([c.parser.request] + s.handed) + t.handed;
        }
      } else if Terminal(c.parser) {
        RunTerminal(c.parser, c.unread + b);
        CleanStep(p, a);
      } else {
        CleanStep(p, a);
        ServeSameRun(p, a + b, c.parser, c.unread + b);
        var t := Serve(c.parser, c.unread + b);
        assert [] + t.handed == t.handed;
      }
    }
  }

  lemma ServeNothing(p: Parser, mem: Memory := NOTHING)
    ensures Serve(p, "", mem) == Served([], false, p, "")
  {
  }

  lemma CleanNothing(p: Parser)
    ensures ServeClean(p, "")
  {
  }

  lemma CleanStep(p: Parser, u: string)
    requires Clean(p, u) && (Run(p, u).parser.phase == Done ==> ServeClean(INITIAL, Run(p, u).unread))
    ensures ServeClean(p, u)
  {
    hide Run, Clean;
  }

  /** Deliver the pieces one by one, as successive readable events do. */
  function ServePieces(s: Served, pieces: seq<Piece>): (t: Served)
    decreases |pieces|
  {
    if |pieces| == 0 || s.failed then s
    else ServePieces(Behind(s.handed, Serve(s.parser, s.unread + pieces[0].bytes, pieces[0].memory)), pieces[1..])
  }

  const FRESH := Served([], false, INITIAL, "")

  /** The same requests come out however the stream is cut, and, unless it fails, the same
      parser and unread bytes remain. */
  lemma {:induction false} ServePiecesTheorem(s: Served, pieces: seq<Piece>)
    requires !s.failed && Serve(s.parser, s.unread) == s.(handed := [])
    requires ServeClean(s.parser, s.unread + Bytes(pieces))
    ensures var t, whole := ServePieces(s, pieces), Behind(s.handed, Serve(s.parser, s.unread + Bytes(pieces)));
            && t.handed == whole.handed && t.failed == whole.failed && t.parser == whole.parser
            && (!t.failed ==> t.unread == whole.unread)
    decreases |pieces|
  {
    hide Serve, ServeClean;
    if |pieces| == 0 {
      assert s.unread + "" == s.unread && s.handed + [] == s.handed;
    } else {
      var a, b := s.unread + pieces[0].bytes, Bytes(pieces[1..]);
      assert s.unread + Bytes(pieces) == a + b;
      ServeSplits(s.parser, a, b);
      ServeAnyMemory(s.parser, a, pieces[0].memory);
      var s1 := Serve(s.parser, a);
      var next := Behind(s.handed, s1);
      if s1.failed {
        assert ServePieces(next, pieces[1..]) == next;
      } else {
        ServeSettles(s.parser, a);
        ServePiecesTheorem(next, pieces[1..]);
        var t := Serve(s1.parser, s1.unread + b);
        assert s.handed + (s1.handed + t.handed) == (s.handed + s1.handed) + t.handed;
      }
    }
  }

  /** What is left after serving has nothing more to hand over. */
  lemma {:induction false} ServeSettles(p: Parser, u: string)
    requires !Serve(p, u).failed
    ensures var s := Serve(p, u); Serve(s.parser, s.unread) == s.(handed := [])
    decreases |u|, if p.phase == Start then 0 else 1
  {
    hide Run, Clean;
    if u != "" {
      var c := Run(p, u);
      RunConsumes(p, u);
      if c.parser.phase == Done {
        ServeSettles(INITIAL, c.unread);
      } else {
        RunIdempotent(p, u);
      }
    }
  }

  // ---- pipelined messages ----

  function EncodeAll(ms: seq<Message>): (s: string) {
    if ms == [] then "" else Encode(ms[0]) + EncodeAll(ms[1..])
  }

  function RequestsOf(ms: seq<Message>): (rs: seq<Request>) {
    if ms == [] then [] else [RequestOf(ms[0])] + RequestsOf(ms[1..])
  }

  /** What follows the messages shows that the last one is over. */
  predicate Followed(ms: seq<Message>, tail: string) {
    ms == [] || tail != "" || !AnnouncesNone(ms[|ms| - 1])
  }

  lemma {:induction false} ServeMessages(ms: seq<Message>, tail: string)
    requires forall i :: 0 <= i < |ms| ==> WellFormed(ms[i])
    requires Followed(ms, tail) && ServeClean(INITIAL, tail)
    ensures Serve(INITIAL, EncodeAll(ms) + tail) == Behind(RequestsOf(ms), Serve(INITIAL, tail))
    ensures ServeClean(INITIAL, EncodeAll(ms) + tail)
    decreases |ms|
  {
    hide Run, Clean, Serve, ServeClean, WellFormed, Encode, RequestOf, AnnouncesNone;
    var s := Serve(INITIAL, tail);
    if ms == [] {
      assert "" + tail == tail && [] + s.handed == s.handed;
    } else {
      var rest := EncodeAll(ms[1..]) + tail;
      assert EncodeAll(ms) + tail == Encode(ms[0]) + rest;
      NotNothing(ms[0]);
      if |ms| > 1 {
        NotNothing(ms[1]);
        assert EncodeAll(ms[1..]) == Encode(ms[1]) + EncodeAll(ms[2..]);
      }
      MessageRoundTrip(ms[0], rest);
      ServeMessages(ms[1..], tail);
      ServeStep(INITIAL, Encode(ms[0]) + rest);
      CleanStep(INITIAL, Encode(ms[0]) + rest);
      assert [RequestOf(ms[0])] + (RequestsOf(ms[1..]) + s.handed) == RequestsOf(ms) + s.handed;
    }
  }

  lemma NotNothing(m: Message)
    ensures Encode(m) != ""
  {
  }

  /** The beginning of a message, or a whole one that announces an empty body and so waits
      for what comes next. */
  predicate Unfinished(m: Message, tail: string) {
    WellFormed(m) && tail <= Encode(m) && (tail != Encode(m) || AnnouncesNone(m))
  }

  /** A message that has not fully arrived is neither handed over nor rejected. */
  lemma IncompleteWaits(m: Message, tail: string)
    requires Unfinished(m, tail)
    ensures var s := Serve(INITIAL, tail); s.handed == [] && !s.failed
    ensures ServeClean(INITIAL, tail)
  {
    hide Run, Clean, Serve, ServeClean, WellFormed, Encode, AnnouncesNone;
    var missing := Encode(m)[|tail|..];
    CompleteExactlyWhen(m);
    assert Encode(m) == tail + missing;
    RunSplits(INITIAL, tail, missing);
    var c := Run(INITIAL, tail);
    if Terminal(c.parser) {
      RunTerminal(c.parser, c.unread + missing);
      assert false;
    }
    if tail == "" {
      ServeNothing(INITIAL);
      CleanNothing(INITIAL);
    } else {
      ServeStep(INITIAL, tail);
      CleanStep(INITIAL, tail);
    }
  }

  /** Pipelining: any number of well-formed messages and the beginning of one more, cut into
      any pieces, yield exactly those requests in order; the connection is then where the
      beginning of the last message alone would have left it. */
  lemma PipeliningTheorem(ms: seq<Message>, m: Message, tail: string, pieces: seq<Piece>)
    requires forall i :: 0 <= i < |ms| ==> WellFormed(ms[i])
    requires Unfinished(m, tail) && Followed(ms, tail)
    requires Bytes(pieces) == EncodeAll(ms) + tail
    ensures var t := ServePieces(FRESH, pieces);
            && t.handed == RequestsOf(ms) && !t.failed
            && t.parser == Serve(INITIAL, tail).parser && t.unread == Serve(INITIAL, tail).unread
  {
    hide Serve, ServeClean, ServePieces, WellFormed, Encode, EncodeAll, Unfinished, Followed;
    IncompleteWaits(m, tail);
    ServeMessages(ms, tail);
    ServeNothing(INITIAL);
    assert "" + Bytes(pieces) == Bytes(pieces);
    ServePiecesTheorem(FRESH, pieces);
    assert RequestsOf(ms) + [] == RequestsOf(ms);
    var whole := Serve(INITIAL, Bytes(pieces));
    assert [] + whole.handed == whole.handed;
  }

  /** For such a stream, the requests a server has handed over and those still in its buffer
      are together the ones sent, in order. */
  lemma HandedAndWaiting(ms: seq<Message>, m: Message, tail: string, handed: seq<Request>, q: Parser, u: string)
    requires forall i :: 0 <= i < |ms| ==> WellFormed(ms[i])
    requires Unfinished(m, tail) && Followed(ms, tail)
    requires Serve(INITIAL, EncodeAll(ms) + tail) == Behind(handed, Serve(q, u))
    ensures ServeClean(INITIAL, EncodeAll(ms) + tail)
    ensures handed + Serve(q, u).handed == RequestsOf(ms) && !Serve(q, u).failed
  {
    hide Serve, ServeClean, WellFormed, Encode, EncodeAll, Unfinished, Followed;
    IncompleteWaits(m, tail);
    ServeMessages(ms, tail);
    assert RequestsOf(ms) + [] == RequestsOf(ms);
  }

  /** A chunked message does not pipeline: the empty line that ends it is taken for the next
      request line, and the connection fails whatever follows. */
  lemma ChunkedThenFails(m: Message, chunks: seq<Chunk>, last: Numeral, rest: string)
    requires WellFormedChunked(m, chunks, last)
    ensures var s := Serve(INITIAL, EncodeHead(m) + EncodeChunks(chunks, last) + CRLF + rest);
            s.failed && s.handed == [RequestOf(m).(body := Joined(chunks))]
  {
    hide Run, Clean, EncodeHead, EncodeChunks;
    var u := EncodeHead(m) + EncodeChunks(chunks, last) + (CRLF + rest);
    assert EncodeHead(m) + EncodeChunks(chunks, last) + CRLF + rest == u;
    ChunkedMessage(m, chunks, last, CRLF + rest);
    assert u != "" && CRLF + rest != "";
    ServeStep(INITIAL, u);
    ServeStep(INITIAL, CRLF + rest);
    EmptyRequestLine(rest);
  }

  lemma EmptyRequestLine(rest: string)
    ensures Run(INITIAL, CRLF + rest).parser.phase == Error
  {
    assert CRLF + rest == "" + CRLF + rest;
    BadLineFails("", rest);
  }
}
