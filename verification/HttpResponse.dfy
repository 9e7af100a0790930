/** The response builder and its printer, read back by the parser. */
module Responses {
  import opened Text
  import opened Strtoul
  import opened ParserSpec
  import opened Messages
  import opened Requests

  function ToDecimal(n: int): (s: string) {
    if n < 0 then "-" + ToDigits(-n, 10) else ToDigits(n, 10)
  }

  function CookieHeaders(cookies: seq<string>): (hs: seq<Field>)
    ensures |hs| == |cookies|
    ensures forall i :: 0 <= i < |hs| ==> hs[i] == Field("Set-Cookie", 1, cookies[i])
  {
    if cookies == [] then [] else [Field("Set-Cookie", 1, cookies[0])] + CookieHeaders(cookies[1..])
  }

  class HttpResponse {
    var statusCode: int
    var statusMessage: string
    var headers: map<string, string>
    var body: string
    var cookies: seq<string>

    constructor ()
      ensures statusCode == 200 && statusMessage == "OK" && headers == map[] && body == "" && cookies == []
    {
      statusCode, statusMessage, headers, body, cookies := 200, "OK", map[], "", [];
    }

    /** Content-Length tells the size of the body. */
    ghost predicate Framed()
      reads this
    {
      "Content-Length" in headers && headers["Content-Length"] == ToDigits(|body|, 10)
    }

    method SetStatus(code: int, message: string)
      modifies this`statusCode, this`statusMessage
      ensures statusCode == code && statusMessage == message
    {
      statusCode, statusMessage := code, message;
    }

    method SetHeader(key: string, value: string)
      modifies this`headers
      ensures headers == old(headers)[key := value]
      ensures key != "Content-Length" ==> (Framed() <==> old(Framed()))
      ensures key == "Content-Length" ==> (Framed() <==> value == ToDigits(|body|, 10))
    {
      headers := headers[key := value];
    }

    method SetBody(text: string)
      modifies this`headers, this`body
      ensures Framed() && body == text
      ensures headers == old(headers)["Content-Length" := ToDigits(|text|, 10)]
    {
      body := text;
      SetHeader("Content-Length", ToDigits(|body|, 10));
    }

    method AppendBody(chunk: string)
      modifies this`headers, this`body
      ensures Framed() && body == old(body) + chunk
      ensures headers == old(headers)["Content-Length" := ToDigits(|body|, 10)]
    {
      body := body + chunk;
      SetHeader("Content-Length", ToDigits(|body|, 10));
    }

    method SetCookie(name: string, value: string, path: string, maxAge: int, httpOnly: bool)
      modifies this`cookies
      ensures cookies == old(cookies) + [CookieText(name, value, path, maxAge, httpOnly)]
    {
      var cookie := name + "=" + value + "; Path=" + path;
      assert cookie + "" == cookie;
      if maxAge > 0 {
        cookie := cookie + ("; Max-Age=" + ToDecimal(maxAge));
      }
      assert cookie + "" == cookie;
      if httpOnly {
        cookie := cookie + "; HttpOnly";
      }
      cookies := cookies + [cookie];
    }

    /** The response as a message, with the headers in a given order. */
    ghost function AsMessage(order: seq<Field>): (m: Message)
      reads this
    {
      Message("HTTP/1.1", ToDecimal(statusCode), statusMessage, order + CookieHeaders(cookies), body)
    }

    method PrintHeaders() returns (lines: string, ghost order: seq<Field>)
      ensures Lists(order, headers) && lines == EncodeHeaders(order)
    {
      hide Lists, EncodeHeaders, HeaderMap, Except;
      var keys := headers.Keys;
      lines, order := "", [];
      NoneListed(headers);
      while keys != {}
        invariant keys <= headers.Keys
        invariant lines == EncodeHeaders(order) && Lists(order, Except(headers, keys))
        decreases |keys|
      {
        var k :| k in keys;
        lines := lines + (k + ": " + headers[k] + CRLF);
        EncodeHeadersAppend(order, k, headers[k]);
        ExceptNext(headers, keys, k);
        ListsAppend(order, Except(headers, keys), k, headers[k]);
        order := order + [Field(k, 1, headers[k])];
        keys := keys - {k};
      }
    }

    method PrintCookies(before: string, ghost order: seq<Field>) returns (lines: string)
      requires before == EncodeHeaders(order)
      ensures lines == EncodeHeaders(order + CookieHeaders(cookies))
    {
      hide EncodeHeaders;
      lines := before;
      var i := 0;
      ghost var cs := CookieHeaders(cookies);
      assert order + cs[..0] == order;
      while i < |cookies|
        invariant 0 <= i <= |cookies|
        invariant lines == EncodeHeaders(order + cs[..i])
      {
        EncodeHeadersAppend(order + cs[..i], "Set-Cookie", cookies[i]);
        assert order + cs[..i] + [cs[i]] == order + cs[..i + 1];
        assert "Set-Cookie" + ": " == "Set-Cookie: ";
        lines := lines + ("Set-Cookie: " + cookies[i] + CRLF);
        i := i + 1;
      }
      assert cs[..i] == cs;
    }

    /** Print the response.  The header map is walked in an order nobody promises. */
    method Serialize() returns (s: string, ghost order: seq<Field>)
      ensures Lists(order, headers)
      ensures s == Encode(AsMessage(order))
    {
      hide Lists, EncodeHeaders;
      var lines;
      lines, order := PrintHeaders();
      lines := PrintCookies(lines, order);
      s := "HTTP/1.1 " + ToDecimal(statusCode) + " " + statusMessage + CRLF + lines + CRLF + body;
      assert "HTTP/1.1" + " " == "HTTP/1.1 ";
    }
  }

  function CookieText(name: string, value: string, path: string, maxAge: int, httpOnly: bool): (c: string) {
    name + "=" + value + "; Path=" + path
    + (if maxAge > 0 then "; Max-Age=" + ToDecimal(maxAge) else "")
    + (if httpOnly then "; HttpOnly" else "")
  }

  /** The attributes of a cookie, as items of a cookie header. */
  function CookieItems(name: string, value: string, path: string, maxAge: int, httpOnly: bool): (items: seq<Crumb>) {
    [Crumb(0, name, value), Crumb(1, "Path", path)]
    + (if maxAge > 0 then [Crumb(1, "Max-Age", ToDecimal(maxAge))] else [])
    + (if httpOnly then [Bare(1, "HttpOnly")] else [])
  }

  lemma CookieTextIs(name: string, value: string, path: string, maxAge: int, httpOnly: bool)
    ensures CookieText(name, value, path, maxAge, httpOnly)
         == CookieHeader(CookieItems(name, value, path, maxAge, httpOnly))
  {
    hide ToDecimal, CookieHeader, CrumbText;
    var first, second := Crumb(0, name, value), Crumb(1, "Path", path);
    var age, only := Crumb(1, "Max-Age", ToDecimal(maxAge)), Bare(1, "HttpOnly");
    var rest := (if maxAge > 0 then [age] else []) + (if httpOnly then [only] else []);
    assert CookieItems(name, value, path, maxAge, httpOnly) == [first] + ([second] + rest);
    ItemThen(first, [second] + rest);
    ItemThen(second, rest);
    Attributes(age, only, maxAge > 0, httpOnly);
    ItemTexts(name, value, path, ToDecimal(maxAge));
    Assembled(name + "=" + value, "; Path=", path, CrumbText(second), if rest == [] then "" else CookieHeader(rest),
              if maxAge > 0 then "; Max-Age=" + ToDecimal(maxAge) else "", if httpOnly then "; HttpOnly" else "");
  }

  lemma Assembled(first: string, lit: string, path: string, second: string, rest: string, a: string, b: string)
    requires ";" + second == lit + path && a + b == if rest == "" then "" else ";" + rest
    ensures first + lit + path + a + b
         == first + ";" + if rest == "" then second else second + ";" + rest
  {
    assert first + lit + path + a + b == first + (lit + path) + (a + b);
    assert first + ";" + second == first + (";" + second);
    assert rest != "" ==> first + ";" + (second + ";" + rest) == first + (";" + second) + (";" + rest);
  }

  /** The optional attributes, each behind its semicolon. */
  lemma Attributes(age: Crumb, only: Crumb, aged: bool, httpOnly: bool)
    ensures var rest := (if aged then [age] else []) + (if httpOnly then [only] else []);
            (if rest == [] then "" else ";" + CookieHeader(rest))
            == (if aged then ";" + CrumbText(age) else "") + (if httpOnly then ";" + CrumbText(only) else "")
  {
    hide CookieHeader, CrumbText;
    ItemThen(only, []);
    ItemThen(age, []);
    ItemThen(age, [only]);
    assert [only] + [] == [only] && [age] + [] == [age] && [] + [only] == [only];
  }

  lemma ItemTexts(name: string, value: string, path: string, age: string)
    ensures CrumbText(Crumb(0, name, value)) == name + "=" + value
    ensures ";" + CrumbText(Crumb(1, "Path", path)) == "; Path=" + path
    ensures ";" + CrumbText(Crumb(1, "Max-Age", age)) == "; Max-Age=" + age
    ensures ";" + CrumbText(Bare(1, "HttpOnly")) == "; HttpOnly"
  {
    hide CrumbText;
    CrumbTexts(name, value, "HttpOnly");
    CrumbTexts("Path", path, "");
    CrumbTexts("Max-Age", age, "");
    Literals();
  }

  lemma CrumbTexts(name: string, value: string, text: string)
    ensures CrumbText(Crumb(0, name, value)) == name + "=" + value
    ensures ";" + CrumbText(Crumb(1, name, value)) == ";" + (" " + (name + "=")) + value
    ensures ";" + CrumbText(Bare(1, text)) == ";" + (" " + text)
  {
    assert Spaces(0) == "" && Spaces(1) == " ";
  }

  lemma Literals()
    ensures ";" + (" " + ("Path" + "=")) == "; Path="
    ensures ";" + (" " + ("Max-Age" + "=")) == "; Max-Age="
    ensures ";" + (" " + "HttpOnly") == "; HttpOnly"
  {
  }

  lemma ItemThen(c: Crumb, rest: seq<Crumb>)
    ensures CookieHeader([c] + rest) == if rest == [] then CrumbText(c) else CrumbText(c) + ";" + CookieHeader(rest)
  {
    assert ([c] + rest)[1..] == rest;
  }

  /** What a cookie was set to can be read back from it by name: the value, and under names it
      does not have itself the path and the age. */
  lemma CookieSurvives(name: string, value: string, path: string, maxAge: int, httpOnly: bool)
    requires PlainCrumb(Crumb(0, name, value)) && ';' !in path
    ensures var c := CookieText(name, value, path, maxAge, httpOnly);
            && CookieIn(c, name) == value
            && (name != "Path" ==> CookieIn(c, "Path") == path)
            && (name != "Max-Age" ==> CookieIn(c, "Max-Age") == if maxAge > 0 then ToDecimal(maxAge) else "")
  {
    hide ToDecimal, CookieIn, CookieText, CookieHeader;
    var items := CookieItems(name, value, path, maxAge, httpOnly);
    CookieTextIs(name, value, path, maxAge, httpOnly);
    DecimalIsPlain(maxAge);
    assert PlainCrumbs(items);
    CookieReadBack(items, name);
    CookieReadBack(items, "Path");
    CookieReadBack(items, "Max-Age");
    ItemsNamed(name, value, path, maxAge, httpOnly);
  }

  lemma ItemsNamed(name: string, value: string, path: string, maxAge: int, httpOnly: bool)
    ensures var items := CookieItems(name, value, path, maxAge, httpOnly);
            && FirstNamed(items, name) == value
            && (name != "Path" ==> FirstNamed(items, "Path") == path)
            && (name != "Max-Age" ==> FirstNamed(items, "Max-Age") == if maxAge > 0 then ToDecimal(maxAge) else "")
  {
    hide ToDecimal;
    var age, only := Crumb(1, "Max-Age", ToDecimal(maxAge)), Bare(1, "HttpOnly");
    var flags := if httpOnly then [only] else [];
    var rest := (if maxAge > 0 then [age] else []) + flags;
    var first, second := Crumb(0, name, value), Crumb(1, "Path", path);
    assert CookieItems(name, value, path, maxAge, httpOnly) == [first] + ([second] + rest);
    assert "Path" != "Max-Age" by {
      assert |"Path"| != |"Max-Age"|;
    }
    assert FirstNamed(flags, "Max-Age") == "";
    assert [] + flags == flags;
    hide FirstNamed;
    ItemNamed(first, [second] + rest, name);
    ItemNamed(first, [second] + rest, "Path");
    ItemNamed(second, rest, "Path");
    ItemNamed(first, [second] + rest, "Max-Age");
    ItemNamed(second, rest, "Max-Age");
    ItemNamed(age, flags, "Max-Age");
  }

  lemma ItemNamed(c: Crumb, rest: seq<Crumb>, key: string)
    ensures FirstNamed([c] + rest, key) == if c.Crumb? && c.name == key then c.value else FirstNamed(rest, key)
  {
    assert ([c] + rest)[1..] == rest;
  }

  /** A cookie made of plain parts survives as a header value. */
  lemma CookieIsPlain(name: string, value: string, path: string, maxAge: int, httpOnly: bool)
    requires OneLine(name) && OneLine(value) && OneLine(path)
    requires name != "" ==> name[0] != ' '
    ensures PlainField(Field("Set-Cookie", 1, CookieText(name, value, path, maxAge, httpOnly)))
  {
    DecimalIsPlain(maxAge);
    var front := name + "=" + value + "; Path=" + path;
    var age := if maxAge > 0 then "; Max-Age=" + ToDecimal(maxAge) else "";
    var only := if httpOnly then "; HttpOnly" else "";
    OneLineJoin(name, "=");
    OneLineJoin(name + "=", value);
    OneLineJoin(name + "=" + value, "; Path=");
    OneLineJoin(name + "=" + value + "; Path=", path);
    OneLineJoin("; Max-Age=", ToDecimal(maxAge));
    OneLineJoin(front, age);
    OneLineJoin(front + age, only);
    assert (front + age + only)[0] == front[0] == (name + "=")[0];
  }

  function Except(m: map<string, string>, keys: set<string>): (r: map<string, string>) {
    map k | k in m && k !in keys :: m[k]
  }

  lemma NoneListed(m: map<string, string>)
    ensures Lists([], Except(m, m.Keys)) && EncodeHeaders([]) == "" && Except(m, {}) == m
  {
  }

  lemma ExceptNext(m: map<string, string>, keys: set<string>, k: string)
    requires k in keys && keys <= m.Keys
    ensures k !in Except(m, keys) && Except(m, keys - {k}) == Except(m, keys)[k := m[k]]
  {
  }

  /** `order` puts each entry of `m` on exactly one line. */
  ghost predicate Lists(order: seq<Field>, m: map<string, string>) {
    && (forall i :: 0 <= i < |order| ==>
          order[i].Field? && order[i].key in m && order[i] == Field(order[i].key, 1, m[order[i].key]))
    && (forall i, j :: 0 <= i < j < |order| ==> order[i].key != order[j].key)
    && HeaderMap(map[], order) == m
  }

  lemma ListsAppend(order: seq<Field>, m: map<string, string>, k: string, v: string)
    requires Lists(order, m) && k !in m
    ensures Lists(order + [Field(k, 1, v)], m[k := v])
  {
    HeaderMapConcat(map[], order, [Field(k, 1, v)]);
    assert [Field(k, 1, v)][1..] == [];
    assert HeaderMap(m, [Field(k, 1, v)]) == m[k := v];
  }

  lemma OneSpace(k: string, v: string)
    ensures FieldLine(Field(k, 1, v)) == k + ": " + v
  {
    assert ":" + Spaces(1) == ": ";
  }

  lemma {:induction false} EncodeHeadersAppend(hs: seq<Field>, k: string, v: string)
    ensures EncodeHeaders(hs + [Field(k, 1, v)]) == EncodeHeaders(hs) + (k + ": " + v + CRLF)
  {
    var h := Field(k, 1, v);
    if hs == [] {
      OneSpace(k, v);
      assert [h][1..] == [];
      assert EncodeHeaders([h]) == FieldLine(h) + CRLF + "";
    } else {
      assert (hs + [h])[1..] == hs[1..] + [h];
      EncodeHeadersAppend(hs[1..], k, v);
    }
  }

  lemma {:induction false} HeaderMapConcat(init: map<string, string>, a: seq<Field>, b: seq<Field>)
    ensures HeaderMap(init, a + b) == HeaderMap(HeaderMap(init, a), b)
    decreases |a|
  {
    if a == [] {
      assert a + b == b;
    } else {
      assert (a + b)[1..] == a[1..] + b;
      HeaderMapConcat(Adding(init, a[0]), a[1..], b);
    }
  }

  /** Of several cookies only the last is left under the one key. */
  lemma {:induction false} CookiesCollapse(init: map<string, string>, cookies: seq<string>)
    ensures HeaderMap(init, CookieHeaders(cookies))
         == if cookies == [] then init else init["Set-Cookie" := cookies[|cookies| - 1]]
    decreases |cookies|
  {
    if cookies != [] {
      var hs := CookieHeaders(cookies);
      assert hs[1..] == CookieHeaders(cookies[1..]);
      CookiesCollapse(init["Set-Cookie" := cookies[0]], cookies[1..]);
    }
  }

  /** The headers a reader of the response gets to see. */
  function Received(headers: map<string, string>, cookies: seq<string>): (m: map<string, string>) {
    if cookies == [] then headers else headers["Set-Cookie" := cookies[|cookies| - 1]]
  }

  predicate PlainResponse(message: string, headers: map<string, string>, cookies: seq<string>) {
    && OneLine(message)
    && (forall k :: k in headers ==> PlainField(Field(k, 1, headers[k])))
    && (forall i :: 0 <= i < |cookies| ==> PlainField(Field("Set-Cookie", 1, cookies[i])))
    && ("Transfer-Encoding" in headers ==> !Contains(headers["Transfer-Encoding"], "chunked"))
  }

  lemma DecimalIsPlain(n: int)
    ensures OneLine(ToDecimal(n)) && ' ' !in ToDecimal(n) && ';' !in ToDecimal(n)
  {
    hide ToDigits;
    PrintedPlain(if n < 0 then -n else n, 10);
    assert '\r' !in ToDecimal(n);
  }

  /** A printed number is the decimal numeral: read back it is the same number, taken from 2^64 if
      negative, and it has no superfluous zero. */
  lemma DecimalReadBack(n: int)
    requires -n <= ULONG_MAX && n <= ULONG_MAX
    ensures StrToUl(ToDecimal(n), 10) == if n < 0 then ULONG_MAX + 1 + n else n
    ensures ToDecimal(n) != "" && (ToDecimal(n)[0] == '-' <==> n < 0)
    ensures ToDecimal(n)[0] == '0' ==> n == 0 && ToDecimal(n) == "0"
  {
    hide StrToUl, ToDigits;
    NoSuperfluousZero(if n < 0 then -n else n, 10);
    if n < 0 {
      PrintedReads("-", -n, 10);
    } else {
      StrToUlToDigits(n, 10);
    }
  }

  lemma ResponseHead(code: int, message: string, headers: map<string, string>, cookies: seq<string>, body: string,
                     order: seq<Field>)
    requires Lists(order, headers) && PlainResponse(message, headers, cookies)
    ensures var m := Message("HTTP/1.1", ToDecimal(code), message, order + CookieHeaders(cookies), body);
            PlainHead(m) && RequestOf(m).headers == Received(headers, cookies)
            && !Contains(RequestOf(m).Header("Transfer-Encoding"), "chunked")
  {
    hide HeaderMap, ToDecimal, Contains, PlainField;
    var cs := CookieHeaders(cookies);
    DecimalIsPlain(code);
    HeaderMapConcat(map[], order, cs);
    CookiesCollapse(headers, cookies);
    assert OneLine("HTTP/1.1") && ' ' !in "HTTP/1.1";
    EmptyHasNothing();
    forall i | 0 <= i < |order + cs| ensures PlainField((order + cs)[i]) {
      if i < |order| {
        var k := order[i].key;
        assert order[i] == Field(k, 1, headers[k]);
      } else {
        assert (order + cs)[i] == Field("Set-Cookie", 1, cookies[i - |order|]);
      }
    }
  }

  lemma EmptyHasNothing()
    ensures !Contains("", "chunked")
  {
  }

  /** Printer and parser agree: a response with a body, printed in any header order, is read
      back with its headers (the last cookie standing for all) and exactly its body. */
  lemma ResponseRoundTrip(code: int, message: string, headers: map<string, string>, cookies: seq<string>, body: string,
                          order: seq<Field>, rest: string)
    requires Lists(order, headers) && PlainResponse(message, headers, cookies)
    requires "Content-Length" in headers && headers["Content-Length"] == ToDigits(|body|, 10)
    requires body != "" && |body| <= ULONG_MAX
    ensures var m := Message("HTTP/1.1", ToDecimal(code), message, order + CookieHeaders(cookies), body);
            var c := Run(INITIAL, Encode(m) + rest);
            && c.parser.phase == Done && c.unread == rest
            && c.parser.request == Request(UNKNOWN, ToDecimal(code), message, Received(headers, cookies), body)
  {
    hide Run, Clean, Encode, HeaderMap, PlainHead, Lists, Contains, ToDecimal, StrToUl;
    var m := Message("HTTP/1.1", ToDecimal(code), message, order + CookieHeaders(cookies), body);
    ResponseHead(code, message, headers, cookies, body, order);
    StrToUlToDigits(|body|, 10);
    MessageRoundTrip(m, rest);
  }

  /** A framed response is complete on its own exactly when its body is not empty: after
      `Content-Length: 0` a reader waits in the body until another byte comes. */
  lemma FramedCompleteIff(code: int, message: string, headers: map<string, string>, cookies: seq<string>, body: string,
                          order: seq<Field>)
    requires Lists(order, headers) && PlainResponse(message, headers, cookies)
    requires "Content-Length" in headers && headers["Content-Length"] == ToDigits(|body|, 10)
    requires |body| <= ULONG_MAX
    ensures var m := Message("HTTP/1.1", ToDecimal(code), message, order + CookieHeaders(cookies), body);
            Run(INITIAL, Encode(m)).parser.phase == Done <==> body != ""
  {
    hide Run, Encode, HeaderMap, PlainHead, Lists, Contains, ToDecimal;
    var m := Message("HTTP/1.1", ToDecimal(code), message, order + CookieHeaders(cookies), body);
    ResponseHead(code, message, headers, cookies, body, order);
    StrToUlToDigits(|body|, 10);
    CompleteExactlyWhen(m);
  }
}
