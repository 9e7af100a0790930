/** Reading cookies out of a request, and back out of what the response builder prints. */
module Requests {
  import opened Text
  import opened ParserSpec

  /** One item of a cookie header: spaces, then a name and a value or something without an
      equals sign. */
  datatype Crumb = Crumb(gap: nat, name: string, value: string) | Bare(gap: nat, text: string)

  function CrumbText(c: Crumb): (s: string) {
    match c
    case Crumb(gap, name, value) => Spaces(gap) + (name + "=" + value)
    case Bare(gap, text) => Spaces(gap) + text
  }

  /** The items one after the other, with semicolons between them. */
  function CookieHeader(crumbs: seq<Crumb>): (s: string) {
    if crumbs == [] then ""
    else if |crumbs| == 1 then CrumbText(crumbs[0])
    else CrumbText(crumbs[0]) + ";" + CookieHeader(crumbs[1..])
  }

  predicate PlainCrumb(c: Crumb) {
    match c
    case Crumb(_, name, value) =>
      ';' !in name && '=' !in name && ';' !in value && (name != "" ==> name[0] != ' ')
    case Bare(_, text) => ';' !in text && '=' !in text && (text != "" ==> text[0] != ' ')
  }

  predicate PlainCrumbs(crumbs: seq<Crumb>) {
    forall i :: 0 <= i < |crumbs| ==> PlainCrumb(crumbs[i])
  }

  /** The value of the first item with that name; none reads as the empty string. */
  function FirstNamed(crumbs: seq<Crumb>, name: string): (v: string) {
    if crumbs == [] then ""
    else if crumbs[0].Crumb? && crumbs[0].name == name then crumbs[0].value
    else FirstNamed(crumbs[1..], name)
  }

  /** What the scan of a header finds: items up to a semicolon, spaces trimmed, cut at the
      first equals sign. */
  function CookieIn(header: string, name: string): (v: string)
    decreases |header|
  {
    if header == "" then ""
    else
      var end := IndexOf(header, ';');
      var item := if end == -1 then header else header[..end];
      var trimmed := item[SkipSpaces(item, 0)..];
      var pos := IndexOf(trimmed, '=');
      if pos != -1 && trimmed[..pos] == name then trimmed[pos + 1..]
      else if end == -1 then ""
      else CookieIn(header[end + 1..], name)
  }

  method Cookie(request: Request, name: string) returns (value: string)
    ensures value == CookieIn(request.Header("Cookie"), name)
  {
    var rest := request.Header("Cookie");
    while rest != ""
      invariant CookieIn(rest, name) == CookieIn(request.Header("Cookie"), name)
      decreases |rest|
    {
      var end := IndexOf(rest, ';');
      var item := if end == -1 then rest else rest[..end];
      var start := 0;
      while start < |item| && item[start] == ' '
        invariant start <= |item| && SkipSpaces(item, start) == SkipSpaces(item, 0)
      {
        start := start + 1;
      }
      item := item[start..];
      var pos := IndexOf(item, '=');
      if pos != -1 && item[..pos] == name {
        return item[pos + 1..];
      }
      rest := if end == -1 then "" else rest[end + 1..];
    }
    value := "";
  }

  lemma CrumbItem(c: Crumb)
    requires PlainCrumb(c)
    ensures ';' !in CrumbText(c)
    ensures var trimmed := CrumbText(c)[SkipSpaces(CrumbText(c), 0)..];
            trimmed == if c.Crumb? then c.name + "=" + c.value else c.text
  {
    var item := CrumbText(c);
    var inner := if c.Crumb? then c.name + "=" + c.value else c.text;
    assert item == Spaces(c.gap) + inner && item[c.gap..] == inner;
    assert inner != "" ==> inner[0] != ' ';
    assert SkipSpaces(item, 0) == c.gap;
  }

  lemma CrumbPair(c: Crumb)
    requires PlainCrumb(c)
    ensures var trimmed := if c.Crumb? then c.name + "=" + c.value else c.text;
            var pos := IndexOf(trimmed, '=');
            if c.Crumb? then pos == |c.name| && trimmed[..pos] == c.name && trimmed[pos + 1..] == c.value else pos == -1
  {
    if c.Crumb? {
      var trimmed := c.name + "=" + c.value;
      assert forall k :: 0 <= k < |c.name| ==> trimmed[k] == c.name[k];
      assert trimmed[|c.name|] == '=';
    }
  }

  /** The scan on one item and what follows it. */
  lemma FirstCrumb(c: Crumb, rest: string, name: string)
    requires PlainCrumb(c)
    ensures CookieIn(CrumbText(c), name) == if c.Crumb? && c.name == name then c.value else ""
    ensures CookieIn(CrumbText(c) + ";" + rest, name)
         == if c.Crumb? && c.name == name then c.value else CookieIn(rest, name)
  {
    hide SkipSpaces, CrumbText;
    CrumbItem(c);
    CrumbPair(c);
    var item := CrumbText(c);
    var h := item + ";" + rest;
    assert IndexOf(h, ';') == |item| by {
      assert forall k :: 0 <= k < |item| ==> h[k] == item[k];
      assert h[|item|] == ';';
    }
    assert h[..|item|] == item && h[|item| + 1..] == rest;
    assert IndexOf(item, ';') == -1;
  }

  /** Items in, values out: the first of that name wins. */
  lemma {:induction false} CookieReadBack(crumbs: seq<Crumb>, name: string)
    requires PlainCrumbs(crumbs)
    ensures CookieIn(CookieHeader(crumbs), name) == FirstNamed(crumbs, name)
  {
    hide CookieIn, CrumbText;
    if crumbs == [] {
      NoCookies(name);
    } else {
      CookieReadBack(crumbs[1..], name);
      FirstCrumb(crumbs[0], CookieHeader(crumbs[1..]), name);
    }
  }

  lemma NoCookies(name: string)
    ensures CookieIn("", name) == ""
  {
  }

  lemma EveryItem(item: string) returns (c: Crumb)
    requires ';' !in item
    ensures PlainCrumb(c) && CrumbText(c) == item
  {
    var gap := SkipSpaces(item, 0);
    var inner := item[gap..];
    assert item == Spaces(gap) + inner;
    var pos := IndexOf(inner, '=');
    if pos == -1 {
      c := Bare(gap, inner);
    } else {
      c := Crumb(gap, inner[..pos], inner[pos + 1..]);
      assert inner == c.name + "=" + c.value;
    }
  }

  /** Every header is made of such items, so the scan is determined on all of them. */
  lemma {:induction false} EveryCookieHeader(header: string) returns (crumbs: seq<Crumb>)
    ensures crumbs != [] && PlainCrumbs(crumbs) && CookieHeader(crumbs) == header
    decreases |header|
  {
    hide CrumbText;
    var end := IndexOf(header, ';');
    if end == -1 {
      var c := EveryItem(header);
      crumbs := [c];
    } else {
      var c := EveryItem(header[..end]);
      crumbs := EveryCookieHeader(header[end + 1..]);
      assert header == header[..end] + ";" + header[end + 1..];
      assert ([c] + crumbs)[1..] == crumbs;
      crumbs := [c] + crumbs;
    }
  }
}
