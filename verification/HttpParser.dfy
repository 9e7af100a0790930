/** The parser as the server runs it: an object whose fields are updated in loops over the
    bytes of the first readable block of a chain buffer. */
module HttpParsing {
  import opened Text
  import opened Strtoul
  import opened ParserSpec
  import opened ChainBuffer
  import opened Windows
  import M = Messages

  // ---- what several small steps at once amount to ----

  /** A call that goes on from here, or ends here. */
  function Going(p: Parser, w: string, mem: Memory, more: bool): (c: Config) {
    if more then PhaseRun(p, w, mem) else Config(p, w)
  }

  /** Reading part of a fixed-length body. */
  function BodyAfter(p: Parser, chunk: string): (q: Parser) {
    var q := p.(tempBody := p.tempBody + chunk, bodyRead := p.bodyRead + |chunk|);
    if q.contentLength <= q.bodyRead then Finish(q) else q
  }

  /** The step within a body. */
  lemma BodyStepIs(p: Parser, w: string, behind: string)
    requires p.phase == Body
    ensures Step(p, w, behind) ==
            if p.contentLength <= p.bodyRead then Go(BodyAfter(p, ""), 0)
            else if w == "" then Wait
            else Go(BodyAfter(p, [w[0]]), 1)
  {
    assert p.tempBody + "" == p.tempBody;
  }

  lemma BodyAfterMore(p: Parser, w: string, n: nat)
    requires 0 < n <= |w| && p.bodyRead + 1 < p.contentLength && p.phase == Body
    ensures BodyAfter(BodyAfter(p, [w[0]]), w[1..][..n - 1]) == BodyAfter(p, w[..n]) && w[1..][n - 1..] == w[n..]
  {
    assert w[..n] == [w[0]] + w[1..][..n - 1];
    assert p.tempBody + [w[0]] + w[1..][..n - 1] == p.tempBody + w[..n];
  }

  /** A call takes what is there of a body, but no more than is missing. */
  lemma {:induction false} BodyCall(p: Parser, w: string, mem: Memory)
    requires p.phase == Body && p.bodyRead <= p.contentLength
    ensures var n := if p.contentLength - p.bodyRead <= |w| then p.contentLength - p.bodyRead else |w|;
            PhaseRun(p, w, mem) == Config(BodyAfter(p, w[..n]), w[n..])
    decreases |w|
  {
    hide PhaseRun, Step;
    CallStep(p, w, mem);
    BodyStepIs(p, w, mem(|w|));
    assert w[0..] == w && w[..0] == "" && p.tempBody + "" == p.tempBody;
    if p.bodyRead + 1 < p.contentLength && w != "" {
      BodyCall(BodyAfter(p, [w[0]]), w[1..], mem);
      BodyAfterMore(p, w, if p.contentLength - p.bodyRead <= |w| then p.contentLength - p.bodyRead else |w|);
    } else if w != "" {
      assert w[..1] == [w[0]];
    }
  }

  function ChunkAfter(p: Parser, chunk: string): (q: Parser)
    requires |chunk| <= p.chunkSize
  {
    p.(tempBody := p.tempBody + chunk, chunkSize := p.chunkSize - |chunk|)
  }

  /** The step in the middle of a chunk. */
  lemma ChunkStepIs(p: Parser, w: string, behind: string)
    requires p.phase == ChunkedBody && !p.readingChunkSize
    ensures Step(p, w, behind) ==
            if w == "" then Wait
            else if TooLarge(p.chunkSize) then Go(p.(phase := Thrown), 0)
            else if p.chunkSize > 0 then Go(ChunkAfter(p, [w[0]]), 1)
            else if |w| < 2 then Wait
            else Go(p.(readingChunkSize := true), 2)
  {
  }

  lemma ChunkAfterMore(p: Parser, w: string, n: nat)
    requires 0 < n <= |w| && n <= p.chunkSize
    ensures ChunkAfter(ChunkAfter(p, [w[0]]), w[1..][..n - 1]) == ChunkAfter(p, w[..n]) && w[1..][n - 1..] == w[n..]
  {
    assert w[..n] == [w[0]] + w[1..][..n - 1];
    assert p.tempBody + [w[0]] + w[1..][..n - 1] == p.tempBody + w[..n];
  }

  lemma ChunkAfterNone(p: Parser, w: string)
    ensures ChunkAfter(p, w[..0]) == p && w[0..] == w
  {
    assert p.tempBody + w[..0] == p.tempBody;
  }

  /** Part of a chunk's data, taken at once. */
  lemma {:induction false} ChunkCall(p: Parser, w: string, n: nat, mem: Memory)
    requires p.phase == ChunkedBody && !p.readingChunkSize && !TooLarge(p.chunkSize)
    requires n <= |w| && n <= p.chunkSize
    ensures PhaseRun(p, w, mem) == PhaseRun(ChunkAfter(p, w[..n]), w[n..], mem)
    decreases n
  {
    hide PhaseRun, Step;
    if n == 0 {
      ChunkAfterNone(p, w);
    } else {
      CallStep(p, w, mem);
      ChunkStepIs(p, w, mem(|w|));
      ChunkCall(ChunkAfter(p, [w[0]]), w[1..], n - 1, mem);
      ChunkAfterMore(p, w, n);
    }
  }

  lemma ChunkAfterIs(p: Parser, chunk: string)
    requires |chunk| <= p.chunkSize
    ensures var q := ChunkAfter(p, chunk);
            q.phase == p.phase && q.readingChunkSize == p.readingChunkSize && q.chunkSize == p.chunkSize - |chunk|
  {
  }

  /** A whole chunk and the two bytes behind it. */
  lemma WholeChunk(p: Parser, w: string, mem: Memory)
    requires p.phase == ChunkedBody && !p.readingChunkSize && !TooLarge(p.chunkSize) && p.chunkSize + 2 <= |w|
    ensures var n := p.chunkSize;
            PhaseRun(p, w, mem) == PhaseRun(ChunkAfter(p, w[..n]).(readingChunkSize := true), w[n + 2..], mem)
  {
    hide PhaseRun, Step;
    var n := p.chunkSize;
    ChunkCall(p, w, n, mem);
    var q := ChunkAfter(p, w[..n]);
    CallStep(q, w[n..], mem);
    ChunkStepIs(q, w[n..], mem(|w[n..]|));
    assert w[n..][2..] == w[n + 2..];
  }

  /** Part of a chunk, with too little behind it for the whole. */
  lemma PartOfChunk(p: Parser, w: string, mem: Memory)
    requires p.phase == ChunkedBody && !p.readingChunkSize && !TooLarge(p.chunkSize) && |w| < p.chunkSize + 2
    ensures var n := if |w| <= p.chunkSize then |w| else p.chunkSize;
            PhaseRun(p, w, mem) == Config(ChunkAfter(p, w[..n]), w[n..])
  {
    hide PhaseRun, Step, ChunkAfter;
    var n := if |w| <= p.chunkSize then |w| else p.chunkSize;
    ChunkCall(p, w, n, mem);
    ChunkAfterIs(p, w[..n]);
    CallStep(ChunkAfter(p, w[..n]), w[n..], mem);
    ChunkStepIs(ChunkAfter(p, w[..n]), w[n..], mem(|w[n..]|));
  }

  lemma NothingInView(p: Parser, behind: string)
    requires p.phase in {Headers, ChunkedBody}
    ensures Step(p, "", behind).Wait?
  {
  }

  lemma RequestLineIs(p: Parser, line: string)
    ensures var sp1 := IndexOf(line, ' ');
            if sp1 == -1 then RequestLineOf(p, line) == p.(phase := Error)
            else
              var sp2 := IndexOf(line, ' ', sp1 + 1);
              RequestLineOf(p, line) ==
                if sp2 == -1 then p.(phase := Error)
                else p.(phase := Headers, request := WithRequestLine(p.request, line, sp1, sp2))
  {
    hide IndexOf, WithRequestLine;
  }

  /** The step on a request line. */
  lemma RequestStepIs(p: Parser, w: string)
    requires p.phase == Start || p.phase == RequestLine
    ensures Step(p, w) ==
            var i := CrlfIndex(w);
            if i == -1 then Wait
            else
              var q := RequestLineOf(p, w[..i]);
              Go(q, if q.phase == Headers then i + 2 else 0)
  {
  }

  /** The step on a header line. */
  lemma HeaderStepIs(p: Parser, w: string, behind: string)
    requires p.phase == Headers
    ensures Step(p, w, behind) ==
            var i := CrlfIndex(w);
            if i == -1 then Wait
            else if i == 0 then Go(EndOfHeaders(p), 2)
            else Go(p.(request := p.request.(headers := WithHeaderLine(p.request.headers, w[..i]))), i + 2)
  {
  }

  /** Two more, in 64 bits. */
  function Plus2(size: nat): (n: nat)
    requires size <= ULONG_MAX
    ensures n == if TooLarge(size) then size - (ULONG_MAX - 1) else size + 2
  {
    (size + 2) % (ULONG_MAX + 1)
  }

  /** A scan for CRLF, as the parser does it. */
  method FindCrlf(data: string) returns (i: int)
    ensures i == CrlfIndex(data)
  {
    i := 0;
    while i + 1 < |data|
      invariant 0 <= i <= |data|
      invariant CrlfIndex(data) == CrlfIndex(data, i)
    {
      if data[i] == '\r' && data[i + 1] == '\n' {
        return;
      }
      i := i + 1;
    }
    return -1;
  }

  class HttpParser {
    var state: Phase
    var request: Request
    var contentLength: nat
    var bodyRead: nat
    var tempBody: string
    var chunkSize: nat
    var readingChunkSize: bool
    var chunked: bool

    /** The machine state these fields stand for: a chunk size is dead while the next size
        line is awaited. */
    ghost function View(): (p: Parser)
      reads this
    {
      Parser(state, request, contentLength, bodyRead, tempBody,
             if readingChunkSize then 0 else chunkSize, readingChunkSize, chunked)
    }

    /** No more of a body has been read than was announced. */
    ghost predicate Ok()
      reads this
    {
      && bodyRead <= contentLength && (state in {Start, RequestLine, Headers} ==> bodyRead == 0)
      && chunkSize <= ULONG_MAX
    }

    constructor ()
      ensures View() == INITIAL && Ok()
    {
      state, request, contentLength, bodyRead := Start, EMPTY_REQUEST, 0, 0;
      tempBody, chunkSize, readingChunkSize, chunked := "", 0, true, false;
    }

    method Reset()
      modifies this
      ensures View() == INITIAL && Ok()
    {
      state, request, contentLength, bodyRead := Start, EMPTY_REQUEST, 0, 0;
      tempBody, chunkSize, readingChunkSize, chunked := "", 0, true, false;
    }

    /** One step: the request line, an error, or nothing yet. */
    method ParseRequestLine(data: string) returns (consumed: nat)
      requires Ok() && (state == Start || state == RequestLine)
      modifies this
      ensures Ok()
      ensures match Step(old(View()), data)
              case Wait => consumed == 0 && View() == old(View())
              case Go(q, n) => View() == q && consumed == n
    {
      hide RequestLineOf;
      RequestStepIs(View(), data);
      var crlf := FindCrlf(data);
      if crlf == -1 {
        return 0;
      }
      var line := data[..crlf];
      var ok := ReadRequestLine(line);
      return if ok then |line| + 2 else 0;
    }

    /** Method, path and version of a line with two spaces. */
    method ReadRequestLine(line: string) returns (ok: bool)
      requires Ok() && (state == Start || state == RequestLine)
      modifies this
      ensures Ok() && View() == RequestLineOf(old(View()), line) && (ok <==> state == Headers)
    {
      hide RequestLineOf, IndexOf, WithRequestLine;
      ghost var p := View();
      RequestLineIs(p, line);
      var sp1 := IndexOf(line, ' ');
      if sp1 == -1 {
        state := Error;
        assert View() == p.(phase := Error);
        return false;
      }
      var sp2 := IndexOf(line, ' ', sp1 + 1);
      if sp2 == -1 {
        state := Error;
        assert View() == p.(phase := Error);
        return false;
      }
      request := WithRequestLine(request, line, sp1, sp2);
      state := Headers;
      assert View() == p.(phase := Headers, request := request);
      return true;
    }

    /** Put one header line into the map: the key up to the colon, and behind all the spaces
        after it the value; a line without a colon is dropped. */
    method AddHeaderLine(line: string)
      modifies this`request
      ensures request == old(request).(headers := WithHeaderLine(old(request.headers), line))
      ensures forall f: M.Field :: M.PlainField(f) && M.FieldLine(f) == line ==>
                request.headers == M.Adding(old(request.headers), f)
    {
      var colon := IndexOf(line, ':');
      if colon != -1 {
        var valueStart := colon + 1;
        while valueStart < |line| && line[valueStart] == ' '
          invariant colon + 1 <= valueStart <= |line|
          invariant SkipSpaces(line, colon + 1) == SkipSpaces(line, valueStart)
        {
          valueStart := valueStart + 1;
        }
        request := request.(headers := request.headers[line[..colon] := line[valueStart..]]);
      }
      forall f: M.Field | M.PlainField(f) && M.FieldLine(f) == line
        ensures request.headers == M.Adding(old(request.headers), f)
      {
        M.FieldRead(old(request.headers), f);
      }
    }

    /** Decide what follows the empty line. */
    method FinishHeaders()
      requires Ok() && state == Headers
      modifies this
      ensures Ok() && View() == EndOfHeaders(old(View()))
    {
      if Contains(request.Header("Transfer-Encoding"), "chunked") {
        chunked := true;
        state := ChunkedBody;
      } else {
        var cl := request.Header("Content-Length");
        if cl != "" {
          contentLength := StrToUl(cl, 10);
          state := Body;
        } else {
          state := Done;
        }
      }
    }

    /** One header line, the empty line, or nothing yet; `more` while headers go on. */
    method ParseHeaderLine(current: string, ghost memory: Memory) returns (consumed: nat, more: bool)
      requires Ok() && state == Headers
      modifies this
      ensures Ok() && consumed <= |current| && (more ==> state == Headers && consumed > 0)
      ensures PhaseRun(old(View()), current, memory) == Going(View(), current[consumed..], memory, more)
    {
      hide PhaseRun, Step, EndOfHeaders, WithHeaderLine;
      CallStep(View(), current, memory);
      HeaderStepIs(View(), current, memory(|current|));
      var crlf := FindCrlf(current);
      if |current| >= 2 && current[0] == '\r' && current[1] == '\n' {
        assert CrlfAt(current, 0);
        FinishHeaders();
        return 2, false;
      }
      if crlf == -1 {
        assert current[0..] == current;
        return 0, false;
      }
      assert !CrlfAt(current, 0);
      AddHeaderLine(current[..crlf]);
      return crlf + 2, true;
    }

    /** All complete header lines in view, and the empty line if it is there. */
    method ParseHeaders(data: string, ghost memory: Memory) returns (consumed: nat)
      requires Ok() && state == Headers
      modifies this
      ensures Ok() && consumed <= |data|
      ensures PhaseRun(old(View()), data, memory) == Config(View(), data[consumed..])
    {
      hide PhaseRun, Step;
      consumed := 0;
      assert data[0..] == data;
      while consumed < |data|
        invariant consumed <= |data| && Ok() && state == Headers
        invariant PhaseRun(old(View()), data, memory) == PhaseRun(View(), data[consumed..], memory)
      {
        var n, more := ParseHeaderLine(data[consumed..], memory);
        DropMore(data, consumed, n);
        consumed := consumed + n;
        if !more {
          return;
        }
      }
      CallStep(View(), data[consumed..], memory);
      NothingInView(View(), memory(0));
    }

    /** As much of the body as is in view. */
    method ParseBody(data: string, ghost memory: Memory) returns (consumed: nat)
      requires Ok() && state == Body
      modifies this
      ensures Ok() && consumed <= |data|
      ensures PhaseRun(old(View()), data, memory) == Config(View(), data[consumed..])
    {
      hide PhaseRun;
      BodyCall(View(), data, memory);
      var needed := contentLength - bodyRead;
      consumed := if needed <= |data| then needed else |data|;
      tempBody := tempBody + data[..consumed];
      bodyRead := bodyRead + consumed;
      if bodyRead >= contentLength {
        request := request.(body := tempBody);
        state := Done;
      }
    }

    /** One size line: the size is read from the start of the line on, into whatever memory
        follows; zero ends the body. */
    method ReadChunkSize(current: string, behind: string) returns (consumed: nat)
      requires Ok() && state == ChunkedBody && readingChunkSize
      modifies this
      ensures Ok() && (state == ChunkedBody || state == Done)
      ensures match Step(old(View()), current, behind)
              case Wait => consumed == 0 && View() == old(View())
              case Go(q, n) => View() == q && consumed == n > 0
      ensures consumed > 0 ==>
                forall t: Numeral :: Proper(t, 16) && t.Text() == current + behind ==> chunkSize == Denotes(t, 16)
    {
      var crlf := FindCrlf(current);
      if crlf == -1 {
        return 0;
      }
      chunkSize := StrToUl(current + behind, 16);
      forall t: Numeral | Proper(t, 16) && t.Text() == current + behind ensures chunkSize == Denotes(t, 16) {
        StrToUlReads(t, 16);
      }
      if chunkSize == 0 {
        state := Done;
        request := request.(body := tempBody);
      } else {
        readingChunkSize := false;
      }
      return crlf + 2;
    }

    /** Chunk data and the two bytes after it, as far as they are in view.  The sum of size
        and two is taken modulo 2^64; where it wraps around, appending the chunk throws. */
    method ReadChunk(current: string, ghost memory: Memory) returns (consumed: nat, more: bool)
      requires Ok() && state == ChunkedBody && !readingChunkSize && current != ""
      modifies this
      ensures Ok() && consumed <= |current| && (more ==> state == ChunkedBody && consumed > 0)
      ensures PhaseRun(old(View()), current, memory) == Going(View(), current[consumed..], memory, more)
    {
      hide PhaseRun, Step, Plus2;
      var available := |current|;
      var needed := Plus2(chunkSize);
      ghost var p := View();
      if available < needed {
        PartOfChunk(p, current, memory);
        consumed := if available <= chunkSize then available else chunkSize;
        tempBody := tempBody + current[..consumed];
        chunkSize := chunkSize - consumed;
        assert View() == ChunkAfter(p, current[..consumed]);
        return consumed, false;
      }
      if TooLarge(chunkSize) {
        CallStep(p, current, memory);
        ChunkStepIs(p, current, memory(|current|));
        state := Thrown;
        assert View() == p.(phase := Thrown) && current[0..] == current;
        return 0, false;
      }
      WholeChunk(p, current, memory);
      tempBody := tempBody + current[..chunkSize];
      readingChunkSize := true;
      assert View() == ChunkAfter(p, current[..chunkSize]).(readingChunkSize := true);
      return chunkSize + 2, true;
    }

    /** Size lines, chunk data and the two bytes after each chunk, as far as they are in view. */
    method ParseChunkedBody(data: string, memory: Memory) returns (consumed: nat)
      requires Ok() && state == ChunkedBody
      modifies this
      ensures Ok() && consumed <= |data|
      ensures PhaseRun(old(View()), data, memory) == Config(View(), data[consumed..])
    {
      hide PhaseRun, Step;
      consumed := 0;
      assert data[0..] == data;
      while consumed < |data|
        invariant consumed <= |data| && Ok() && state == ChunkedBody
        invariant PhaseRun(old(View()), data, memory) == PhaseRun(View(), data[consumed..], memory)
      {
        var current := data[consumed..];
        var n: nat, more: bool;
        if readingChunkSize {
          CallStep(View(), current, memory);
          n := ReadChunkSize(current, memory(|current|));
          more := n > 0 && state != Done;
        } else {
          n, more := ReadChunk(current, memory);
        }
        DropMore(data, consumed, n);
        consumed := consumed + n;
        if !more {
          return;
        }
      }
      CallStep(View(), data[consumed..], memory);
      NothingInView(View(), memory(0));
    }

    /** The switch: one call on the bytes in view. */
    method ParseWindow(data: string, memory: Memory) returns (consumed: nat)
      requires Ok() && !Terminal(View())
      modifies this
      ensures Ok() && consumed <= |data|
      ensures PhaseRun(old(View()), data, memory) == Config(View(), data[consumed..])
    {
      hide PhaseRun, HeaderStep, BodyStep, ChunkStep, RequestLineOf;
      match state {
        case Start | RequestLine =>
          CallStep(View(), data, memory);
          assert data[0..] == data;
          consumed := ParseRequestLine(data);
        case Headers => consumed := ParseHeaders(data, memory);
        case Body => consumed := ParseBody(data, memory);
        case ChunkedBody => consumed := ParseChunkedBody(data, memory);
      }
    }

    /** One turn of the parse loop: look, work, retrieve. */
    method ParseRound(buf: Buffer, memory: Memory) returns (consumed: nat)
      requires Ok() && buf.Valid() && this !in buf.Repr
      requires buf.Contents() != "" && !Terminal(View())
      modifies this, buf.Repr
      ensures Ok() && buf.Valid() && fresh(buf.Repr - old(buf.Repr))
      ensures consumed <= old(|buf.Window()|) && Sound(old(Seen(buf)))
      ensures PhaseRun(old(View()), old(buf.Window()), memory) == Config(View(), old(buf.Window())[consumed..])
      ensures Seen(buf) == if consumed == 0 then old(Seen(buf)) else Retrieved(old(Seen(buf)), consumed)
      ensures old(buf.readBlock == buf.writeBlock == buf.head) ==> OneBlock(buf, old(buf.writeBlock.Writable()))
    {
      hide *;
      SeenIs(buf);
      SeenSound(buf);
      ghost var room := buf.writeBlock.Writable();
      InOneBlock(buf, room);
      var data := buf.Peek();
      consumed := ParseWindow(data, memory);
      if consumed > 0 {
        RetrievedIs(Seen(buf), consumed);
        buf.SizeIsLength();
        buf.Retrieve(consumed);
        SeenIs(buf);
        InOneBlock(buf, room);
      }
    }

    /** Parse as far as the view allows, retrieving what was used: exactly the rounds of
        `Rounds`, for every layout of the blocks, every stream, and whatever memory lies
        behind the view. */
    method Parse(buf: Buffer, memory: Memory) returns (total: nat)
      requires Ok() && buf.Valid() && this !in buf.Repr
      modifies this, buf.Repr
      ensures Ok() && buf.Valid() && fresh(buf.Repr - old(buf.Repr))
      ensures total <= old(|buf.Contents()|) && buf.Contents() == old(buf.Contents())[total..]
      ensures Sound(old(Seen(buf))) && Stop(View(), Seen(buf)) == Rounds(old(View()), old(Seen(buf)), memory)
      ensures old(buf.readBlock == buf.writeBlock == buf.head) ==> OneBlock(buf, old(buf.writeBlock.Writable()))
    {
      hide *;
      total := 0;
      ghost var all := buf.Contents();
      ghost var end := SeenRounds(this, buf, memory);
      ghost var one, room := buf.readBlock == buf.writeBlock == buf.head, buf.writeBlock.Writable();
      InOneBlock(buf, room);
      SuffixSelf(all);
      while buf.size > 0
        invariant Ok() && buf.Valid() && this !in buf.Repr && fresh(buf.Repr - old(buf.Repr))
        invariant total + |buf.Contents()| == |all| && Suffix(buf.Contents(), all)
        invariant Sound(Seen(buf)) && Rounds(View(), Seen(buf), memory) == end
        invariant one ==> OneBlock(buf, room)
        decreases |all| - total
      {
        InOneBlock(buf, room);
        ghost var before := buf.Contents();
        SuffixIs(before, all);
        var consumed, over := ParseTurn(buf, memory);
        if over {
          return;
        }
        SuffixOf(buf.Contents(), before, all);
        total := total + consumed;
      }
      SuffixIs(buf.Contents(), all);
      NothingLeft(this, buf, memory);
    }

    /** The body of the parse loop; `over` when it leaves the loop. */
    method ParseTurn(buf: Buffer, memory: Memory) returns (consumed: nat, over: bool)
      requires Ok() && buf.Valid() && this !in buf.Repr && buf.size > 0
      modifies this, buf.Repr
      ensures Ok() && buf.Valid() && fresh(buf.Repr - old(buf.Repr))
      ensures consumed + |buf.Contents()| == old(|buf.Contents()|) && Suffix(buf.Contents(), old(buf.Contents()))
      ensures Sound(old(Seen(buf))) && Sound(Seen(buf)) && (over <==> consumed == 0)
      ensures over ==> buf.Contents() == old(buf.Contents())
      ensures Rounds(old(View()), old(Seen(buf)), memory) ==
              if over then Stop(View(), Seen(buf)) else Rounds(View(), Seen(buf), memory)
      ensures old(buf.readBlock == buf.writeBlock == buf.head) ==> OneBlock(buf, old(buf.writeBlock.Writable()))
    {
      hide *;
      ghost var p, v, room := View(), Seen(buf), buf.writeBlock.Writable();
      buf.SizeIsLength();
      SeenIs(buf);
      SeenSound(buf);
      InOneBlock(buf, room);
      if state == Done || state == Error || state == Thrown {
        AtEnd(this);
        RoundsTerminal(p, v, memory);
        SuffixSelf(v.contents);
        return 0, true;
      }
      NotAtEnd(this);
      consumed := ParseRound(buf, memory);
      over := consumed == 0;
      SeenIs(buf);
      OneRound(p, v, memory, View(), consumed);
      SoundIs(v);
      if over {
        SuffixSelf(v.contents);
      } else {
        RetrievedIs(v, consumed);
        SuffixDrop(v.contents, consumed);
      }
    }
  }

  lemma NothingLeft(h: HttpParser, buf: Buffer, memory: Memory)
    requires buf.Valid() && buf.size == 0 && Sound(Seen(buf))
    ensures Rounds(h.View(), Seen(buf), memory) == Stop(h.View(), Seen(buf))
  {
    hide *;
    buf.SizeIsLength();
    SeenIs(buf);
    RoundsOfNothing(h.View(), Seen(buf), memory);
  }

  /** What a reader of the buffer sees.  With nothing to read it does not matter where. */
  ghost function Seen(buf: Buffer): (v: Sight)
    requires buf.Valid()
    reads buf, buf.Repr
  {
    Sight(buf.Window(), buf.Contents(), buf.Contents() == "" || buf.readBlock == buf.head)
  }

  lemma SeenIs(buf: Buffer)
    requires buf.Valid()
    ensures Seen(buf) == Sight(buf.Window(), buf.Contents(), buf.Contents() == "" || buf.readBlock == buf.head)
  {
  }

  lemma SeenSound(buf: Buffer)
    requires buf.Valid()
    ensures Sound(Seen(buf))
  {
    hide *;
    buf.WindowIsPrefix();
    buf.WindowFits();
    SeenIs(buf);
    SoundIs(Seen(buf));
  }

  lemma SoundIs(v: Sight)
    ensures Sound(v) <==> v.window <= v.contents && |v.window| <= BLOCK_SIZE
  {
  }

  ghost function SeenRounds(h: HttpParser, buf: Buffer, memory: Memory): (e: Stop)
    requires buf.Valid()
    reads h, buf, buf.Repr
    ensures Sound(Seen(buf)) && e == Rounds(h.View(), Seen(buf), memory)
  {
    SeenSound(buf);
    Rounds(h.View(), Seen(buf), memory)
  }

  /** One turn of the loop, in terms of where it ends. */
  lemma OneRound(p: Parser, v: Sight, mem: Memory, q: Parser, n: nat)
    requires Sound(v) && v.contents != "" && !Terminal(p) && n <= |v.window|
    requires PhaseRun(p, v.window, mem) == Config(q, v.window[n..])
    ensures Rounds(p, v, mem) == if n == 0 then Stop(q, v) else Rounds(q, Retrieved(v, n), mem)
  {
    hide PhaseRun, Rounds, Retrieved;
    RoundsOnce(p, v, mem);
  }

  lemma RetrievedIs(v: Sight, n: nat)
    requires Sound(v) && 0 < n <= |v.window|
    ensures n <= |v.contents|
    ensures Retrieved(v, n) == Sight(Shown(v.window, v.contents, v.atHead, n), v.contents[n..], true)
  {
  }

  /** Reader and writer are in the head block, with so much room behind them. */
  ghost predicate OneBlock(buf: Buffer, room: nat)
    requires buf.Valid()
    reads buf, buf.Repr
  {
    buf.readBlock == buf.writeBlock == buf.head && buf.writeBlock.Writable() == room
  }

  lemma InOneBlock(buf: Buffer, room: nat)
    requires buf.Valid()
    ensures OneBlock(buf, room) <==> buf.readBlock == buf.writeBlock == buf.head && buf.writeBlock.Writable() == room
  {
  }

  lemma AtEnd(h: HttpParser)
    requires h.state == Done || h.state == Error || h.state == Thrown
    ensures Terminal(h.View())
  {
  }

  lemma NotAtEnd(h: HttpParser)
    requires h.state != Done && h.state != Error && h.state != Thrown
    ensures !Terminal(h.View())
  {
  }
}
