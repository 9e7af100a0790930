/** The HTTP parser as a machine that takes the smallest possible steps over the unread
    bytes: one line, one body byte, or one CRLF at a time.  The class `HttpParser` is
    proved to follow it; the theorems about cutting a stream into feeds live here. */
module ParserSpec {
  import opened Text
  import opened Strtoul

  datatype Method = GET | POST | PUT | DELETE | HEAD | OPTIONS | PATCH | UNKNOWN

  function MethodFromStr(s: string): (m: Method) {
    if s == "GET" then GET
    else if s == "POST" then POST
    else if s == "PUT" then PUT
    else if s == "DELETE" then DELETE
    else if s == "HEAD" then HEAD
    else if s == "OPTIONS" then OPTIONS
    else if s == "PATCH" then PATCH
    else UNKNOWN
  }

  function MethodStr(m: Method): (s: string) {
    match m
    case GET => "GET"
    case POST => "POST"
    case PUT => "PUT"
    case DELETE => "DELETE"
    case HEAD => "HEAD"
    case OPTIONS => "OPTIONS"
    case PATCH => "PATCH"
    case UNKNOWN => "UNKNOWN"
  }

  /** Names and methods belong together, both ways; any other name is UNKNOWN. */
  lemma MethodRoundTrip(m: Method, s: string)
    ensures MethodFromStr(MethodStr(m)) == m
    ensures MethodFromStr(s) == m && m != UNKNOWN ==> s == MethodStr(m)
  {
    assert forall a, b :: MethodStr(a) == MethodStr(b) ==> a == b;
  }

  datatype Request = Request(verb: Method, path: string, version: string,
                             headers: map<string, string>, body: string)
  {
    /** A missing header reads as the empty string. */
    function Header(key: string): (v: string) {
      if key in headers then headers[key] else ""
    }
  }

  const EMPTY_REQUEST := Request(UNKNOWN, "", "HTTP/1.1", map[], "")

  /** `Thrown` stands for the exception that leaves the parser when a chunk's size wraps
      around; nothing is read after it. */
  datatype Phase = Start | RequestLine | Headers | Body | ChunkedBody | Done | Error | Thrown

  datatype Parser = Parser(
    phase: Phase,
    request: Request,
    contentLength: nat,
    bodyRead: nat,
    tempBody: string,
    chunkSize: nat,
    readingChunkSize: bool,
    chunked: bool)

  const INITIAL := Parser(Start, EMPTY_REQUEST, 0, 0, "", 0, true, false)

  predicate Terminal(p: Parser) {
    p.phase == Done || p.phase == Error || p.phase == Thrown
  }

  /** Wait for more bytes, or move on having consumed some of those in view. */
  datatype Move = Wait | Go(parser: Parser, consumed: nat)

  // ---- one step in each phase ----

  /** Method, path and version around the two spaces. */
  function WithRequestLine(r: Request, line: string, sp1: nat, sp2: nat): (r': Request)
    requires sp1 < sp2 < |line|
  {
    r.(verb := MethodFromStr(line[..sp1]), path := line[sp1 + 1..sp2], version := line[sp2 + 1..])
  }

  function RequestLineOf(p: Parser, line: string): (q: Parser)
    ensures q.phase == Headers || q == p.(phase := Error)
  {
    var sp1 := IndexOf(line, ' ');
    if sp1 == -1 then p.(phase := Error)
    else
      var sp2 := IndexOf(line, ' ', sp1 + 1);
      if sp2 == -1 then p.(phase := Error)
      else
        p.(phase := Headers, request := WithRequestLine(p.request, line, sp1, sp2))
  }

  /** A line without a colon is dropped; spaces after the colon are trimmed. */
  function WithHeaderLine(headers: map<string, string>, line: string): (r: map<string, string>) {
    var colon := IndexOf(line, ':');
    if colon == -1 then headers
    else headers[line[..colon] := line[SkipSpaces(line, colon + 1)..]]
  }

  function EndOfHeaders(p: Parser): (q: Parser)
    ensures q.phase in {Body, ChunkedBody, Done}
  {
    if Contains(p.request.Header("Transfer-Encoding"), "chunked") then
      p.(phase := ChunkedBody, chunked := true)
    else
      var cl := p.request.Header("Content-Length");
      if cl != "" then p.(phase := Body, contentLength := StrToUl(cl, 10))
      else p.(phase := Done)
  }

  function Finish(p: Parser): (q: Parser)
    ensures Terminal(q)
  {
    p.(phase := Done, request := p.request.(body := p.tempBody))
  }

  function RequestLineStep(p: Parser, w: string): (m: Move) {
    var i := CrlfIndex(w);
    if i == -1 then Wait
    else
      var q := RequestLineOf(p, w[..i]);
      Go(q, if q.phase == Headers then i + 2 else 0)
  }

  function HeaderStep(p: Parser, w: string): (m: Move) {
    var i := CrlfIndex(w);
    if i == -1 then Wait
    else if i == 0 then Go(EndOfHeaders(p), 2)
    else Go(p.(request := p.request.(headers := WithHeaderLine(p.request.headers, w[..i]))), i + 2)
  }

  function BodyStep(p: Parser, w: string): (m: Move) {
    if p.contentLength <= p.bodyRead then Go(Finish(p), 0)
    else if w == "" then Wait
    else
      var q := p.(tempBody := p.tempBody + [w[0]], bodyRead := p.bodyRead + 1);
      Go(if q.contentLength <= q.bodyRead then Finish(q) else q, 1)
  }

  /** A size line: `strtoul` is given the address of the line, not its length, so it is
      free to read on through everything in view and into the memory behind it. */
  function SizeLineStep(p: Parser, w: string, behind: string): (m: Move) {
    var i := CrlfIndex(w);
    if i == -1 then Wait
    else
      var size := StrToUl(w + behind, 16);
      Go(if size == 0 then Finish(p.(chunkSize := 0)) else p.(chunkSize := size, readingChunkSize := false), i + 2)
  }

  /** Two bytes more than these wrap around, and the chunk is appended whole at once: more
      than a string can hold. */
  predicate TooLarge(size: nat) {
    size > ULONG_MAX - 2
  }

  function ChunkStep(p: Parser, w: string, behind: string): (m: Move) {
    if p.readingChunkSize then SizeLineStep(p, w, behind)
    else if w == "" then Wait
    else if TooLarge(p.chunkSize) then Go(p.(phase := Thrown), 0)
    else if p.chunkSize > 0 then Go(p.(tempBody := p.tempBody + [w[0]], chunkSize := p.chunkSize - 1), 1)
    else if |w| < 2 then Wait
    else Go(p.(readingChunkSize := true), 2)
  }

  /** One step, with the bytes `w` in view and the memory `behind` them. */
  function Step(p: Parser, w: string, behind: string := ""): (m: Move)
    ensures m.Go? ==> m.consumed <= |w|
    ensures m.Go? ==> !Terminal(p)
    ensures m.Go? && m.consumed == 0 ==> Terminal(m.parser)
  {
    match p.phase
    case Start | RequestLine => RequestLineStep(p, w)
    case Headers => HeaderStep(p, w)
    case Body => BodyStep(p, w)
    case ChunkedBody => ChunkStep(p, w, behind)
    case Done | Error | Thrown => Wait
  }

  // ---- running to a standstill ----

  datatype Config = Config(parser: Parser, unread: string)

  /** What lies behind the view when so many bytes are left in it: anything at all. */
  type Memory = nat -> string

  const NOTHING: Memory := _ => ""

  /** What `parse` does to a parser and a flat buffer: step while bytes remain and steps exist. */
  function Run(p: Parser, w: string, mem: Memory := NOTHING): (c: Config)
    decreases |w|, if Terminal(p) then 0 else 1
  {
    if w == "" then Config(p, w)
    else
      match Step(p, w, mem(|w|))
      case Wait => Config(p, w)
      case Go(q, n) => Run(q, w[n..], mem)
  }

  /** A run removes a prefix; a run from the start that ends in Done removes something. */
  lemma {:induction false} RunConsumes(p: Parser, w: string, mem: Memory := NOTHING)
    ensures |Run(p, w, mem).unread| <= |w| && Suffix(Run(p, w, mem).unread, w)
    ensures p.phase == Start && Run(p, w, mem).parser.phase == Done ==> |Run(p, w, mem).unread| < |w|
    decreases |w|, if Terminal(p) then 0 else 1
  {
    hide Step, Suffix;
    var m := Step(p, w, mem(|w|));
    SuffixSelf(w);
    if w != "" && m.Go? {
      RunConsumes(m.parser, w[m.consumed..], mem);
      SuffixDrop(w, m.consumed);
      SuffixOf(Run(p, w, mem).unread, w[m.consumed..], w);
      if p.phase == Start {
        StartStep(p, w, mem(|w|));
      }
    }
  }

  lemma StartStep(p: Parser, w: string, behind: string)
    requires p.phase == Start && Step(p, w, behind).Go?
    ensures var m := Step(p, w, behind); m.parser.phase == Error || (m.parser.phase == Headers && m.consumed > 0)
  {
  }

  lemma {:induction false} RunIdempotent(p: Parser, w: string, mem: Memory := NOTHING)
    ensures Run(Run(p, w, mem).parser, Run(p, w, mem).unread, mem) == Run(p, w, mem)
    decreases |w|, if Terminal(p) then 0 else 1
  {
    var m := Step(p, w, mem(|w|));
    if w != "" && m.Go? {
      RunIdempotent(m.parser, w[m.consumed..], mem);
    }
  }

  lemma RunTerminal(p: Parser, w: string, mem: Memory := NOTHING)
    requires Terminal(p)
    ensures Run(p, w, mem) == Config(p, w)
  {
  }

  lemma RunNothing(p: Parser)
    ensures Run(p, "") == Config(p, "") && Clean(p, "")
  {
  }

  lemma RunStep(p: Parser, w: string, mem: Memory := NOTHING)
    requires w != "" && Step(p, w, mem(|w|)).Go?
    ensures var m := Step(p, w, mem(|w|)); Run(p, w, mem) == Run(m.parser, w[m.consumed..], mem)
  {
  }

  // ---- streams whose size lines stand for themselves ----

  /** A size line is not blank. */
  predicate Solid(p: Parser, w: string) {
    p.phase == ChunkedBody && p.readingChunkSize && CrlfIndex(w) != -1 ==> !Blank(w[..CrlfIndex(w)])
  }

  /** A chunk whose data has begun has a size that does not wrap around. */
  predicate Fits(p: Parser, w: string) {
    p.phase == ChunkedBody && !p.readingChunkSize && w != "" ==> !TooLarge(p.chunkSize)
  }

  /** No size line met on the way is blank, and no size too large. */
  predicate Clean(p: Parser, w: string)
    decreases |w|, if Terminal(p) then 0 else 1
  {
    w == "" || (
      && Solid(p, w) && Fits(p, w)
      && match Step(p, w)
         case Wait => true
         case Go(q, n) => Clean(q, w[n..]))
  }

  /** A size line that is not blank has its value whatever comes after it. */
  lemma SolidSize(w: string, behind: string)
    requires CrlfIndex(w) != -1 && !Blank(w[..CrlfIndex(w)])
    ensures StrToUl(w + behind, 16) == StrToUl(w[..CrlfIndex(w)], 16)
  {
    var line := w[..CrlfIndex(w)];
    assert w + behind == line + (w[CrlfIndex(w)..] + behind);
    StrToUlLocal(line, w[CrlfIndex(w)..] + behind, 16);
  }

  lemma StepAnyMemory(p: Parser, w: string, behind: string, behind': string := "")
    requires Solid(p, w)
    ensures Step(p, w, behind) == Step(p, w, behind')
  {
    if CrlfIndex(w) != -1 && p.phase == ChunkedBody && p.readingChunkSize {
      SolidSize(w, behind);
      SolidSize(w, behind');
    }
  }

  /** On a clean stream the memory behind the view does not matter. */
  lemma {:induction false} RunAnyMemory(p: Parser, w: string, mem: Memory)
    requires Clean(p, w)
    ensures Run(p, w, mem) == Run(p, w)
    decreases |w|, if Terminal(p) then 0 else 1
  {
    if w != "" {
      StepAnyMemory(p, w, mem(|w|));
      if Step(p, w).Go? {
        RunAnyMemory(Step(p, w).parser, w[Step(p, w).consumed..], mem);
      }
    }
  }

  // ---- bytes that arrive later ----

  /** A step that is possible now is still the same step when more bytes are in view. */
  lemma StepExtends(p: Parser, a: string, b: string)
    requires Step(p, a).Go? && Solid(p, a + b)
    ensures Step(p, a + b) == Step(p, a)
    ensures Solid(p, a)
  {
    CrlfIndexPrefix(a, b);
    if CrlfIndex(a) != -1 {
      assert (a + b)[..CrlfIndex(a)] == a[..CrlfIndex(a)];
      if p.phase == ChunkedBody && p.readingChunkSize {
        SolidSize(a, "");
        SolidSize(a + b, "");
      }
    }
  }

  /** A step that consumes bytes needs no more than those bytes in view. */
  lemma StepShrinks(p: Parser, a: string, b: string)
    requires Step(p, a + b).Go? && 0 < Step(p, a + b).consumed <= |a|
    requires Solid(p, a + b)
    ensures Step(p, a) == Step(p, a + b)
    ensures Solid(p, a)
  {
    CrlfIndexPrefix(a, b);
    if CrlfIndex(a) != -1 {
      assert (a + b)[..CrlfIndex(a)] == a[..CrlfIndex(a)];
      if p.phase == ChunkedBody && p.readingChunkSize {
        SolidSize(a, "");
        SolidSize(a + b, "");
      }
    }
  }

  /** Running on a prefix first and on the rest afterwards ends where one run ends. */
  lemma {:induction false} RunSplits(p: Parser, a: string, b: string)
    requires Clean(p, a + b)
    ensures var c := Run(p, a);
            Run(c.parser, c.unread + b) == Run(p, a + b) && Clean(c.parser, c.unread + b)
    ensures Clean(p, a)
    decreases |a|, if Terminal(p) then 0 else 1
  {
    if a == "" {
      assert a + b == b;
    } else if Step(p, a).Go? {
      var n := Step(p, a).consumed;
      StepExtends(p, a, b);
      assert (a + b)[n..] == a[n..] + b;
      RunSplits(Step(p, a).parser, a[n..], b);
    } else {
      CrlfIndexPrefix(a, b);
      assert CrlfIndex(a) != -1 ==> (a + b)[..CrlfIndex(a)] == a[..CrlfIndex(a)];
    }
  }

  // ---- any way of cutting the stream ----

  /** What one read delivers, and what the memory behind the view holds while it is parsed. */
  datatype Piece = Piece(bytes: string, memory: Memory)

  function Bytes(pieces: seq<Piece>): (s: string) {
    if |pieces| == 0 then "" else pieces[0].bytes + Bytes(pieces[1..])
  }

  /** Deliver the pieces one by one, running the parser after each. */
  function Feed(c: Config, pieces: seq<Piece>): (r: Config)
    decreases |pieces|
  {
    if |pieces| == 0 then c
    else Feed(Run(c.parser, c.unread + pieces[0].bytes, pieces[0].memory), pieces[1..])
  }

  lemma {:induction false} FeedIsRun(c: Config, pieces: seq<Piece>)
    requires Run(c.parser, c.unread) == c
    requires Clean(c.parser, c.unread + Bytes(pieces))
    ensures Feed(c, pieces) == Run(c.parser, c.unread + Bytes(pieces))
    decreases |pieces|
  {
    if |pieces| == 0 {
      assert c.unread + "" == c.unread;
    } else {
      var a, b := c.unread + pieces[0].bytes, Bytes(pieces[1..]);
      assert c.unread + Bytes(pieces) == a + b;
      RunSplits(c.parser, a, b);
      RunAnyMemory(c.parser, a, pieces[0].memory);
      RunIdempotent(c.parser, a);
      FeedIsRun(Run(c.parser, a), pieces[1..]);
    }
  }

  predicate Throws(p: Parser, s: string) {
    p.phase != Thrown && Run(p, s).parser.phase == Thrown
  }

  /** Nothing is thrown, and every way of cutting `s` into pieces, with anything at all in the
      memory behind each of them, ends in the configuration of one run over `s`. */
  ghost predicate SegmentationIndependent(p: Parser, s: string) {
    !Throws(p, s) &&
    forall pieces: seq<Piece> :: Bytes(pieces) == s ==> Feed(Config(p, ""), pieces) == Run(p, s)
  }

  /** From any parser state and for any stream, the result is independent of the cuts and of
      the memory exactly when no size line met is blank and no size wraps around. */
  lemma SegmentationTheorem(p: Parser, s: string)
    ensures SegmentationIndependent(p, s) <==> Clean(p, s)
  {
    hide Run, Step, Feed, Clean;
    if Clean(p, s) {
      CleanThrowsNothing(p, s);
      CleanIsIndependent(p, s);
    } else if !Throws(p, s) {
      var pieces := TellingPieces(p, s);
      assert Bytes(pieces) == s && Feed(Config(p, ""), pieces) != Run(p, s);
    }
  }

  lemma {:induction false} CleanThrowsNothing(p: Parser, s: string)
    requires Clean(p, s)
    ensures !Throws(p, s)
    decreases |s|, if Terminal(p) then 0 else 1
  {
    if s != "" && Step(p, s).Go? {
      CleanThrowsNothing(Step(p, s).parser, s[Step(p, s).consumed..]);
    }
  }

  lemma CleanIsIndependent(p: Parser, s: string)
    requires Clean(p, s)
    ensures forall pieces: seq<Piece> :: Bytes(pieces) == s ==> Feed(Config(p, ""), pieces) == Run(p, s)
  {
    assert "" + s == s;
    forall pieces: seq<Piece> | Bytes(pieces) == s
      ensures Feed(Config(p, ""), pieces) == Run(p, s)
    {
      FeedIsRun(Config(p, ""), pieces);
    }
  }

  lemma FeedOne(c: Config, x: Piece)
    ensures Feed(c, [x]) == Run(c.parser, c.unread + x.bytes, x.memory) && Bytes([x]) == x.bytes
  {
    assert [x][1..] == [];
  }

  lemma FeedTwo(p: Parser, x: Piece, y: Piece)
    ensures var c := Run(p, x.bytes, x.memory);
            Feed(Config(p, ""), [x, y]) == Run(c.parser, c.unread + y.bytes, y.memory)
    ensures Bytes([x, y]) == x.bytes + y.bytes
  {
    assert "" + x.bytes == x.bytes;
    assert [x, y][1..] == [y];
    FeedOne(Run(p, x.bytes, x.memory), y);
  }

  /** Cutting right after the first blank size line leaves its value to the memory behind it:
      with nothing there the message ends, with a digit there it goes on. */
  lemma {:induction false} TellingPieces(p: Parser, s: string) returns (pieces: seq<Piece>)
    requires !Clean(p, s) && !Throws(p, s)
    ensures Bytes(pieces) == s && Feed(Config(p, ""), pieces) != Run(p, s)
    decreases |s|, if Terminal(p) then 0 else 1
  {
    hide Run, Feed, Bytes;
    if !Fits(p, s) {
      RunStep(p, s);
      RunTerminal(Step(p, s).parser, s[0..]);
      assert false;
    } else if !Solid(p, s) {
      var i := CrlfIndex(s);
      var a, b := s[..i + 2], s[i + 2..];
      assert s == a + b;
      var quiet := BlankEnds(p, a, b);
      var loud := BlankGoesOn(p, a, b);
      pieces := if Feed(Config(p, ""), quiet) != Run(p, s) then quiet else loud;
    } else {
      var q, n := Step(p, s).parser, Step(p, s).consumed;
      RunStep(p, s);
      StepMovesOn(p, s);
      var rest := TellingPieces(q, s[n..]);
      pieces := Lengthen(p, s[..n], q, rest, s);
    }
  }

  lemma StepMovesOn(p: Parser, s: string)
    requires s != "" && Solid(p, s) && Fits(p, s) && !Clean(p, s)
    ensures Step(p, s).Go? && Step(p, s).consumed > 0 && Step(p, s).parser.phase != Thrown
    ensures !Clean(Step(p, s).parser, s[Step(p, s).consumed..]) && s[Step(p, s).consumed..] != ""
  {
  }

  /** The bytes of a step may come in one piece with those after it. */
  lemma Lengthen(p: Parser, a: string, q: Parser, rest: seq<Piece>, s: string) returns (pieces: seq<Piece>)
    requires a != "" && s == a + Bytes(rest) && Bytes(rest) != ""
    requires Step(p, s) == Go(q, |a|) && Solid(p, s)
    ensures Bytes(pieces) == s && Feed(Config(p, ""), pieces) == Feed(Config(q, ""), rest)
  {
    hide Run, Step, Solid, Feed, Bytes;
    FirstPiece(Config(q, ""), rest);
    var x, more := rest[0], rest[1..];
    var y := Piece(a + x.bytes, x.memory);
    pieces := [y] + more;
    FirstPiece(Config(p, ""), pieces);
    assert pieces[1..] == more && "" + y.bytes == y.bytes && "" + x.bytes == x.bytes;
    assert s == (a + x.bytes) + Bytes(more);
    StepShrinks(p, a + x.bytes, Bytes(more));
    StepAnyMemory(p, a + x.bytes, x.memory(|a + x.bytes|));
    RunStep(p, a + x.bytes, x.memory);
    assert (a + x.bytes)[|a|..] == x.bytes;
  }

  lemma FirstPiece(c: Config, pieces: seq<Piece>)
    ensures |pieces| == 0 ==> Bytes(pieces) == ""
    ensures |pieces| > 0 ==>
              && Bytes(pieces) == pieces[0].bytes + Bytes(pieces[1..])
              && Feed(c, pieces) == Feed(Run(c.parser, c.unread + pieces[0].bytes, pieces[0].memory), pieces[1..])
  {
    hide Run;
  }

  lemma BlankThenCrlf(a: string, behind: string)
    requires CrlfIndex(a) != -1 && |a| == CrlfIndex(a) + 2
    requires Blank(a[..CrlfIndex(a)])
    ensures StrToUl(a + behind, 16) == StrToUl(behind, 16)
  {
    assert forall k :: 0 <= k < CrlfIndex(a) ==> a[k] == a[..CrlfIndex(a)][k];
    SkipSpaceBlank(a, behind);
  }

  lemma BlankEnds(p: Parser, a: string, b: string) returns (pieces: seq<Piece>)
    requires p.phase == ChunkedBody && p.readingChunkSize
    requires CrlfIndex(a + b) != -1 && |a| == CrlfIndex(a + b) + 2 && Blank((a + b)[..CrlfIndex(a + b)])
    ensures Bytes(pieces) == a + b
    ensures var c := Feed(Config(p, ""), pieces); c.parser.phase == Done && c.unread == b
  {
    pieces := [Piece(a, NOTHING), Piece(b, NOTHING)];
    FeedTwo(p, pieces[0], pieces[1]);
    CrlfIndexPrefix(a, b);
    assert (a + b)[..CrlfIndex(a)] == a[..CrlfIndex(a)];
    BlankThenCrlf(a, "");
    StrToUlBlank("", 16);
    RunStep(p, a);
    assert a[CrlfIndex(a) + 2..] == "";
    RunTerminal(Step(p, a).parser, "");
    assert "" + b == b;
    RunTerminal(Step(p, a).parser, b);
  }

  lemma BlankGoesOn(p: Parser, a: string, b: string) returns (pieces: seq<Piece>)
    requires p.phase == ChunkedBody && p.readingChunkSize
    requires CrlfIndex(a + b) != -1 && |a| == CrlfIndex(a + b) + 2 && Blank((a + b)[..CrlfIndex(a + b)])
    ensures Bytes(pieces) == a + b
    ensures var c := Feed(Config(p, ""), pieces); c.parser.phase != Done || |c.unread| < |b|
  {
    var five: Memory := _ => "5";
    pieces := [Piece(a, five), Piece(b, NOTHING)];
    FeedTwo(p, pieces[0], pieces[1]);
    CrlfIndexPrefix(a, b);
    assert (a + b)[..CrlfIndex(a)] == a[..CrlfIndex(a)];
    BlankThenCrlf(a, "5");
    assert StrToUl("5", 16) == 5 by { assert "5"[1..] == ""; assert Accumulate("5", 16, 0) == 5; }
    assert Step(p, a, five(|a|)) == Go(p.(chunkSize := 5, readingChunkSize := false), |a|);
    RunStep(p, a, five);
    assert a[|a|..] == "";
    var q := p.(chunkSize := 5, readingChunkSize := false);
    assert Run(q, "", five) == Config(q, "");
    assert "" + b == b;
    if b != "" {
      RunStep(q, b);
      RunConsumes(Step(q, b).parser, b[1..]);
    }
  }

  /** A blank line where a size is expected: the result depends on the cut in one stream, and
      on the memory behind the view in another. */
  lemma BlankSizeLineMatters()
    ensures !SegmentationIndependent(INITIAL.(phase := ChunkedBody), "\r\n2")
    ensures !SegmentationIndependent(INITIAL.(phase := ChunkedBody), "\r\nzz")
  {
    forall w | w in {"\r\n2", "\r\nzz"} ensures !SegmentationIndependent(INITIAL.(phase := ChunkedBody), w) {
      assert CrlfAt(w, 0);
      assert CrlfIndex(w) == 0;
      assert Blank(w[..0]);
      SegmentationTheorem(INITIAL.(phase := ChunkedBody), w);
    }
  }
}
