/** What the parser makes of well-formed messages: the encodings of sections 3 and 4.1 of
    RFC 7230, and what comes out of them whatever follows and however they are cut. */
module Messages {
  import opened Text
  import opened Strtoul
  import opened ParserSpec

  /** A line of the head: a key and a value with any number of spaces between them, or a line
      without a colon. */
  datatype Field = Field(key: string, gap: nat, value: string) | Stray(text: string)

  datatype Message = Message(verb: string, path: string, version: string, headers: seq<Field>, body: string)

  function FieldLine(f: Field): (s: string) {
    match f
    case Field(key, gap, value) => key + ":" + Spaces(gap) + value
    case Stray(text) => text
  }

  function EncodeHeaders(fs: seq<Field>): (s: string) {
    if fs == [] then "" else FieldLine(fs[0]) + CRLF + EncodeHeaders(fs[1..])
  }

  function StartLine(m: Message): (s: string) {
    m.verb + " " + m.path + " " + m.version
  }

  /** Start line, headers and the empty line. */
  function EncodeHead(m: Message): (s: string) {
    StartLine(m) + CRLF + EncodeHeaders(m.headers) + CRLF
  }

  function Encode(m: Message): (s: string) {
    EncodeHead(m) + m.body
  }

  predicate PlainField(f: Field) {
    match f
    case Field(key, _, value) => OneLine(key) && ':' !in key && OneLine(value) && (value != "" ==> value[0] != ' ')
    case Stray(text) => text != "" && OneLine(text) && ':' !in text
  }

  predicate PlainHead(m: Message) {
    && OneLine(m.verb) && ' ' !in m.verb
    && OneLine(m.path) && ' ' !in m.path
    && OneLine(m.version)
    && forall i :: 0 <= i < |m.headers| ==> PlainField(m.headers[i])
  }

  /** A field sets its key and nothing else; a line without a colon sets nothing. */
  function Adding(headers: map<string, string>, f: Field): (r: map<string, string>) {
    if f.Stray? then headers else headers[f.key := f.value]
  }

  /** Later headers replace earlier ones with the same key. */
  function HeaderMap(init: map<string, string>, fs: seq<Field>): (r: map<string, string>)
    decreases |fs|
  {
    if fs == [] then init else HeaderMap(Adding(init, fs[0]), fs[1..])
  }

  function RequestOf(m: Message): (r: Request) {
    Request(MethodFromStr(m.verb), m.path, m.version, HeaderMap(map[], m.headers), m.body)
  }

  /** No chunked coding, and a Content-Length that tells the size of the body, or none and
      no body. */
  predicate PlainBody(m: Message) {
    && !Contains(RequestOf(m).Header("Transfer-Encoding"), "chunked")
    && var cl := RequestOf(m).Header("Content-Length");
       if cl == "" then m.body == "" else StrToUl(cl, 10) == |m.body|
  }

  /** A body is announced, and it is empty. */
  predicate AnnouncesNone(m: Message) {
    m.body == "" && RequestOf(m).Header("Content-Length") != ""
  }

  predicate WellFormed(m: Message) {
    PlainHead(m) && PlainBody(m)
  }

  // ---- leading from one configuration to another ----

  /** Both configurations run to the same end, and the first is clean if the second is. */
  predicate Leads(p: Parser, w: string, q: Parser, v: string) {
    Run(p, w) == Run(q, v) && (Clean(q, v) ==> Clean(p, w))
  }

  lemma StepLeads(p: Parser, w: string)
    requires w != "" && Step(p, w).Go? && Solid(p, w) && Fits(p, w)
    ensures Leads(p, w, Step(p, w).parser, w[Step(p, w).consumed..])
  {
  }

  lemma StartLineStep(p: Parser, m: Message, rest: string)
    requires p.phase == Start && PlainHead(m)
    ensures Leads(p, StartLine(m) + CRLF + rest,
                  p.(phase := Headers,
                     request := p.request.(verb := MethodFromStr(m.verb), path := m.path, version := m.version)),
                  rest)
  {
    var line := StartLine(m);
    var w := line + CRLF + rest;
    StartLineParts(m);
    CrlfIndexOfLine(line, rest);
    assert w[..|line|] == line && w[|line| + 2..] == rest;
    StartLineRead(p, m);
    StepLeads(p, w) by {
      assert Step(p, w) == RequestLineStep(p, w);
    }
    hide Run, Clean;
  }

  lemma StartLineRead(p: Parser, m: Message)
    requires PlainHead(m)
    ensures RequestLineOf(p, StartLine(m)) ==
            p.(phase := Headers,
               request := p.request.(verb := MethodFromStr(m.verb), path := m.path, version := m.version))
  {
    StartLineParts(m);
  }

  lemma StartLineParts(m: Message)
    requires PlainHead(m)
    ensures var line := StartLine(m);
            && OneLine(line)
            && IndexOf(line, ' ') == |m.verb|
            && IndexOf(line, ' ', |m.verb| + 1) == |m.verb| + 1 + |m.path|
            && line[..|m.verb|] == m.verb
            && line[|m.verb| + 1..|m.verb| + 1 + |m.path|] == m.path
            && line[|m.verb| + 1 + |m.path| + 1..] == m.version
  {
    var line := StartLine(m);
    var a, b := |m.verb|, |m.verb| + 1 + |m.path|;
    assert line[a] == ' ' && line[b] == ' ';
    assert forall k :: 0 <= k < a ==> line[k] == m.verb[k];
    assert forall k :: a + 1 <= k < b ==> line[k] == m.path[k - a - 1];
    OneLineJoin(m.verb, " ");
    OneLineJoin(m.verb + " ", m.path);
    OneLineJoin(m.verb + " " + m.path, " ");
    OneLineJoin(m.verb + " " + m.path + " ", m.version);
  }

  lemma FieldIsOneLine(f: Field)
    requires PlainField(f)
    ensures OneLine(FieldLine(f)) && FieldLine(f) != ""
  {
    if f.Field? {
      OneLineJoin(f.key, ":");
      OneLineJoin(f.key + ":", Spaces(f.gap));
      OneLineJoin(f.key + ":" + Spaces(f.gap), f.value);
    }
  }

  /** The key ends at the first colon, and the value begins behind all the spaces after it. */
  lemma FieldRead(headers: map<string, string>, f: Field)
    requires PlainField(f)
    ensures WithHeaderLine(headers, FieldLine(f)) == Adding(headers, f)
  {
    if f.Field? {
      var line, colon := FieldLine(f), |f.key|;
      var start := colon + 1 + f.gap;
      assert forall k :: 0 <= k < colon ==> line[k] == f.key[k];
      assert line[colon] == ':' && line[..colon] == f.key && line[start..] == f.value;
      assert IndexOf(line, ':') == colon;
      assert forall k :: colon < k < start ==> line[k] == Spaces(f.gap)[k - colon - 1];
      assert start < |line| ==> line[start] == f.value[0];
      assert SkipSpaces(line, colon + 1) == start;
    }
  }

  /** Every line but the empty one is a field's. */
  lemma EveryLine(line: string) returns (f: Field)
    requires line != "" && OneLine(line)
    ensures PlainField(f) && FieldLine(f) == line
  {
    var colon := IndexOf(line, ':');
    if colon == -1 {
      f := Stray(line);
    } else {
      var start := SkipSpaces(line, colon + 1);
      f := Field(line[..colon], start - colon - 1, line[start..]);
      OneLineCut(line, colon);
      OneLineCut(line, start);
      hide OneLine;
      assert line[colon + 1..start] == Spaces(f.gap);
      assert line == line[..colon] + [line[colon]] + line[colon + 1..start] + line[start..];
    }
  }

  lemma OneLineCut(line: string, i: nat)
    requires OneLine(line) && i <= |line|
    ensures OneLine(line[..i]) && OneLine(line[i..])
  {
    assert forall k :: CrlfAt(line[..i], k) ==> CrlfAt(line, k);
    assert forall k :: CrlfAt(line[i..], k) ==> CrlfAt(line, k + i);
  }

  lemma FieldStep(p: Parser, f: Field, rest: string)
    requires p.phase == Headers && PlainField(f)
    ensures Leads(p, FieldLine(f) + CRLF + rest,
                  p.(request := p.request.(headers := Adding(p.request.headers, f))), rest)
  {
    hide Run, Clean, FieldLine, WithHeaderLine;
    var line := FieldLine(f);
    var w := line + CRLF + rest;
    FieldIsOneLine(f);
    CrlfIndexOfLine(line, rest);
    assert w[..|line|] == line && w[|line| + 2..] == rest;
    FieldRead(p.request.headers, f);
    StepLeads(p, w);
  }

  lemma {:induction false} HeadersLead(p: Parser, fs: seq<Field>, rest: string)
    requires p.phase == Headers
    requires forall i :: 0 <= i < |fs| ==> PlainField(fs[i])
    ensures Leads(p, EncodeHeaders(fs) + CRLF + rest,
                  EndOfHeaders(p.(request := p.request.(headers := HeaderMap(p.request.headers, fs)))), rest)
    decreases |fs|
  {
    if fs == [] {
      var w := EncodeHeaders(fs) + CRLF + rest;
      assert w == "" + CRLF + rest;
      CrlfIndexOfLine("", rest);
      assert w[2..] == rest;
      StepLeads(p, w);
    } else {
      var tail := EncodeHeaders(fs[1..]) + CRLF + rest;
      assert EncodeHeaders(fs) + CRLF + rest == FieldLine(fs[0]) + CRLF + tail;
      FieldStep(p, fs[0], tail);
      HeadersLead(p.(request := p.request.(headers := Adding(p.request.headers, fs[0]))), fs[1..], rest);
    }
  }

  /** A first line with fewer than two spaces is an error, and nothing is consumed. */
  lemma BadLineFails(line: string, rest: string)
    requires OneLine(line) && forall i, j :: 0 <= i < j < |line| ==> line[i] != ' ' || line[j] != ' '
    ensures Run(INITIAL, line + CRLF + rest) == Config(INITIAL.(phase := Error), line + CRLF + rest)
  {
    var w := line + CRLF + rest;
    CrlfIndexOfLine(line, rest);
    assert w[..|line|] == line && w[0..] == w;
    var sp := IndexOf(line, ' ');
    assert sp != -1 ==> IndexOf(line, ' ', sp + 1) == -1;
    RunStep(INITIAL, w);
    RunTerminal(INITIAL.(phase := Error), w);
  }

  /** The head of a message leads to its headers, whatever comes after. */
  lemma HeadLeads(m: Message, rest: string)
    requires PlainHead(m)
    ensures Leads(INITIAL, EncodeHead(m) + rest,
                  EndOfHeaders(INITIAL.(phase := Headers, request := RequestOf(m).(body := ""))), rest)
  {
    var tail := EncodeHeaders(m.headers) + CRLF + rest;
    assert EncodeHead(m) + rest == StartLine(m) + CRLF + tail;
    StartLineStep(INITIAL, m, tail);
    var p := INITIAL.(phase := Headers,
                      request := EMPTY_REQUEST.(verb := MethodFromStr(m.verb), path := m.path, version := m.version));
    HeadersLead(p, m.headers, rest);
  }

  lemma {:induction false} BodyLeads(p: Parser, body: string, rest: string)
    requires p.phase == Body && body != "" && p.contentLength == p.bodyRead + |body|
    ensures Leads(p, body + rest,
                  Finish(p.(tempBody := p.tempBody + body, bodyRead := p.contentLength)), rest)
    decreases |body|
  {
    var w := body + rest;
    assert w[1..] == body[1..] + rest && p.tempBody + body == p.tempBody + [w[0]] + body[1..];
    StepLeads(p, w);
    if |body| == 1 {
      assert body[1..] + rest == rest;
      assert p.tempBody + [w[0]] == p.tempBody + body;
    } else {
      BodyLeads(p.(tempBody := p.tempBody + [w[0]], bodyRead := p.bodyRead + 1), body[1..], rest);
    }
  }

  /** A well-formed message is read back exactly, and the bytes after it are left alone; one
      that announces an empty body needs at least one byte after it. */
  lemma MessageRoundTrip(m: Message, rest: string)
    requires WellFormed(m) && (AnnouncesNone(m) ==> rest != "")
    ensures var c := Run(INITIAL, Encode(m) + rest);
            c.parser.phase == Done && c.parser.request == RequestOf(m) && c.unread == rest
    ensures Clean(INITIAL, Encode(m) + rest)
  {
    hide Run, Clean, Contains, HeaderMap, StrToUl;
    assert Encode(m) + rest == EncodeHead(m) + (m.body + rest);
    HeadLeads(m, m.body + rest);
    var p := EndOfHeaders(INITIAL.(phase := Headers, request := RequestOf(m).(body := "")));
    if m.body == "" {
      assert m.body + rest == rest;
      EmptyBodyLeads(p, rest);
    } else {
      BodyLeads(p, m.body, rest);
      assert p.tempBody + m.body == m.body;
      LeadsToEnd(Finish(p.(tempBody := m.body, bodyRead := p.contentLength)), rest);
    }
  }

  lemma LeadsToEnd(p: Parser, rest: string)
    requires Terminal(p)
    ensures Run(p, rest) == Config(p, rest) && Clean(p, rest)
  {
  }

  lemma EmptyBodyLeads(p: Parser, rest: string)
    requires p.phase == Done || (p.phase == Body && p.contentLength == p.bodyRead == 0 && rest != "")
    requires p.tempBody == "" && p.request.body == ""
    ensures var c := Run(p, rest); c.parser.phase == Done && c.parser.request == p.request && c.unread == rest
    ensures Clean(p, rest)
  {
    hide Run, Clean;
    if p.phase == Body {
      StepLeads(p, rest);
      assert rest[0..] == rest;
      LeadsToEnd(Finish(p), rest);
    } else {
      LeadsToEnd(p, rest);
    }
  }

  /** On its own a well-formed message is read to its end exactly when it does not announce
      an empty body: after `Content-Length: 0` the parser waits for one more byte. */
  lemma CompleteExactlyWhen(m: Message)
    requires WellFormed(m)
    ensures var c := Run(INITIAL, Encode(m));
            && (c.parser.phase == Done <==> !AnnouncesNone(m))
            && (AnnouncesNone(m) ==> c.parser.phase == Body && c.parser.contentLength == c.parser.bodyRead == 0)
            && (AnnouncesNone(m) ==> Finish(c.parser).request == RequestOf(m))
            && c.unread == ""
    ensures Clean(INITIAL, Encode(m))
  {
    hide Run, Clean, Contains, HeaderMap, StrToUl, Encode;
    assert Encode(m) + "" == Encode(m);
    if AnnouncesNone(m) {
      AnnouncedNone(m);
    } else {
      MessageRoundTrip(m, "");
    }
  }

  lemma AnnouncedNone(m: Message)
    requires WellFormed(m) && AnnouncesNone(m)
    ensures var c := Run(INITIAL, Encode(m));
            && c.parser.phase == Body && c.parser.contentLength == c.parser.bodyRead == 0 && c.unread == ""
            && Finish(c.parser).request == RequestOf(m)
    ensures Clean(INITIAL, Encode(m))
  {
    hide Run, Clean, Contains, HeaderMap, StrToUl;
    HeadLeads(m, "");
    assert EncodeHead(m) + "" == Encode(m);
    RunNothing(EndOfHeaders(INITIAL.(phase := Headers, request := RequestOf(m).(body := ""))));
  }

  // ---- chunked bodies ----

  /** A chunk: its size, spelled in any way that denotes it and followed by anything on its
      line, the data, and the two bytes after it, which nobody looks at. */
  datatype Chunk = Chunk(size: Numeral, data: string, end: string)

  /** Each chunk behind its size; then a line that denotes 0.  The empty line that section 4.1
      puts after it is not part of what the parser consumes. */
  function EncodeChunks(chunks: seq<Chunk>, last: Numeral): (s: string) {
    if chunks == [] then last.Text() + CRLF
    else chunks[0].size.Text() + CRLF + (chunks[0].data + chunks[0].end + EncodeChunks(chunks[1..], last))
  }

  function Joined(chunks: seq<Chunk>): (s: string) {
    if chunks == [] then "" else chunks[0].data + Joined(chunks[1..])
  }

  /** A line that is not blank and denotes `n` in hex. */
  predicate SizeLine(size: Numeral, n: nat) {
    OneLine(size.Text()) && !WhiteOnly(size.Text()) && Proper(size, 16) && Denotes(size, 16) == n
  }

  /** Sizes to which the two bytes can be added without wrapping around. */
  predicate ChunkSizes(chunks: seq<Chunk>) {
    forall i :: 0 <= i < |chunks| ==>
      && SizeLine(chunks[i].size, |chunks[i].data|) && |chunks[i].end| == 2
      && 0 < |chunks[i].data| && !TooLarge(|chunks[i].data|)
  }

  lemma SizeLineRead(size: Numeral, n: nat, rest: string)
    requires SizeLine(size, n)
    ensures var line := size.Text();
            var w := line + CRLF + rest;
            && CrlfIndex(w) == |line| && w[..|line|] == line && w[|line| + 2..] == rest && !Blank(line)
            && StrToUl(w, 16) == n
  {
    hide StrToUl, CrlfIndex, Proper, Denotes;
    var line := size.Text();
    var w := line + CRLF + rest;
    BlankIsWhite(line);
    CrlfIndexOfLine(line, rest);
    assert w == line + (CRLF + rest) && w[..|line|] == line && w[|line| + 2..] == rest;
    StrToUlLocal(line, CRLF + rest, 16);
    StrToUlReads(size, 16);
  }

  lemma SizeLineLeads(p: Parser, size: Numeral, n: nat, rest: string)
    requires p.phase == ChunkedBody && p.readingChunkSize && SizeLine(size, n)
    ensures Leads(p, size.Text() + CRLF + rest,
                  if n == 0 then Finish(p.(chunkSize := 0)) else p.(chunkSize := n, readingChunkSize := false), rest)
  {
    hide Run, Clean, StrToUl, CrlfIndex, Blank, SizeLine;
    var w := size.Text() + CRLF + rest;
    SizeLineRead(size, n, rest);
    assert w + "" == w;
    StepLeads(p, w);
  }

  lemma {:induction false} ChunkDataLeads(p: Parser, data: string, end: string, rest: string)
    requires p.phase == ChunkedBody && !p.readingChunkSize && p.chunkSize == |data| && !TooLarge(|data|) && |end| == 2
    ensures Leads(p, data + end + rest,
                  p.(tempBody := p.tempBody + data, chunkSize := 0, readingChunkSize := true), rest)
    decreases |data|
  {
    var w := data + end + rest;
    StepLeads(p, w);
    if data == "" {
      assert w[2..] == rest && p.tempBody + data == p.tempBody;
    } else {
      assert w[1..] == data[1..] + end + rest;
      assert p.tempBody + data == p.tempBody + [w[0]] + data[1..];
      ChunkDataLeads(p.(tempBody := p.tempBody + [w[0]], chunkSize := p.chunkSize - 1), data[1..], end, rest);
    }
  }

  lemma {:induction false} ChunksLead(p: Parser, chunks: seq<Chunk>, last: Numeral, rest: string)
    requires p.phase == ChunkedBody && p.readingChunkSize && p.chunkSize == 0
    requires ChunkSizes(chunks) && SizeLine(last, 0)
    ensures Leads(p, EncodeChunks(chunks, last) + rest, Finish(p.(tempBody := p.tempBody + Joined(chunks))), rest)
    decreases |chunks|
  {
    hide Run, Clean, Finish, EncodeChunks, Joined, SizeLine;
    if chunks == [] {
      NoChunks(p.tempBody, last, rest);
      SizeLineLeads(p, last, 0, rest);
    } else {
      var c := chunks[0];
      var tail := EncodeChunks(chunks[1..], last) + rest;
      FirstChunk(p.tempBody, chunks, last, rest);
      SizeLineLeads(p, c.size, |c.data|, c.data + c.end + tail);
      ChunkDataLeads(p.(chunkSize := |c.data|, readingChunkSize := false), c.data, c.end, tail);
      ChunksLead(p.(tempBody := p.tempBody + c.data), chunks[1..], last, rest);
    }
  }

  lemma NoChunks(body: string, last: Numeral, rest: string)
    ensures EncodeChunks([], last) + rest == last.Text() + CRLF + rest && body + Joined([]) == body
  {
  }

  lemma FirstChunk(body: string, chunks: seq<Chunk>, last: Numeral, rest: string)
    requires chunks != []
    ensures var c, tail := chunks[0], EncodeChunks(chunks[1..], last) + rest;
            EncodeChunks(chunks, last) + rest == c.size.Text() + CRLF + (c.data + c.end + tail)
    ensures body + Joined(chunks) == body + chunks[0].data + Joined(chunks[1..])
  {
  }

  predicate WellFormedChunked(m: Message, chunks: seq<Chunk>, last: Numeral) {
    && PlainHead(m)
    && Contains(RequestOf(m).Header("Transfer-Encoding"), "chunked")
    && ChunkSizes(chunks) && SizeLine(last, 0)
  }

  lemma ChunkedMessage(m: Message, chunks: seq<Chunk>, last: Numeral, rest: string)
    requires WellFormedChunked(m, chunks, last)
    ensures var c := Run(INITIAL, EncodeHead(m) + EncodeChunks(chunks, last) + rest);
            && c.parser.phase == Done
            && c.parser.request == RequestOf(m).(body := Joined(chunks))
            && c.unread == rest
    ensures Clean(INITIAL, EncodeHead(m) + EncodeChunks(chunks, last) + rest)
  {
    hide SizeLine;
    var body := EncodeChunks(chunks, last);
    assert EncodeHead(m) + body + rest == EncodeHead(m) + (body + rest);
    HeadLeads(m, body + rest);
    var p := EndOfHeaders(INITIAL.(phase := Headers, request := RequestOf(m).(body := "")));
    ChunksLead(p, chunks, last, rest);
    assert "" + Joined(chunks) == Joined(chunks);
    RunTerminal(Finish(p.(tempBody := Joined(chunks))), rest);
  }

  /** The chunked round trip: with sizes spelled in any way that denotes them, delivered in any
      pieces and with anything behind them, the body is the chunks joined, the parser is done,
      and the unread bytes begin right after the line that denotes 0. */
  lemma ChunkedRoundTrip(m: Message, chunks: seq<Chunk>, last: Numeral, rest: string, pieces: seq<Piece>)
    requires WellFormedChunked(m, chunks, last)
    requires Bytes(pieces) == EncodeHead(m) + EncodeChunks(chunks, last) + rest
    ensures var c := Feed(Config(INITIAL, ""), pieces);
            && c.parser.phase == Done
            && c.parser.request == RequestOf(m).(body := Joined(chunks))
            && c.unread == rest
  {
    hide Run, Clean, Feed, EncodeHead, EncodeChunks;
    ChunkedMessage(m, chunks, last, rest);
    SegmentationTheorem(INITIAL, Bytes(pieces));
  }

  /** A size that wraps around throws as soon as a byte of the chunk is there. */
  lemma LargeSizeThrows(p: Parser, size: Numeral, n: nat, rest: string)
    requires p.phase == ChunkedBody && p.readingChunkSize && SizeLine(size, n) && TooLarge(n) && rest != ""
    ensures Throws(p, size.Text() + CRLF + rest)
  {
    hide Run, Clean, SizeLine;
    SizeLineLeads(p, size, n, rest);
    var q := p.(chunkSize := n, readingChunkSize := false);
    RunStep(q, rest);
    assert rest[0..] == rest;
    RunTerminal(Step(q, rest).parser, rest);
  }
}
