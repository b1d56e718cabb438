/**
 * The reader of an e-mail's HTML body, `mailHtmlTokens`, and the printer its tokens are rendered by. The token lists it
 * answers are exactly the well-nested ones, and each is read back from what it prints.
 */
module MailHtml {
  import opened Wrappers
  import opened Seqs
  import opened Text

  datatype Token = Text(text: string) | Open(name: string, href: Option<string>) | Close(name: string)

  datatype Problem =
    | BareAmpersand | Comment | UnendedTag | Misclosed | NoElement | ElementNotAllowed
    | AttributeNotAllowed | TargetNotAllowed | SelfClosed | LinkWithoutTarget | LinkInLink | LeftOpen

  datatype Reading = Tokens(tokens: seq<Token>) | Refused(problem: Problem)

  const ELEMENTS: seq<string> :=
    ["a", "b", "blockquote", "br", "div", "em", "h1", "h2", "h3", "hr", "i", "li", "ol", "p", "span", "strong", "u", "ul"]

  const ACTION_URL := "{{actionUrl}}"
  const APP_URL := "{{appUrl}}"

  predicate IsVoid(name: string) {
    name == "br" || name == "hr"
  }

  /** `/\s/`. */
  predicate IsSpace(c: char) {
    var n := c as int;
    || 9 <= n <= 13 || n == 0x20 || n == 0xA0 || n == 0x1680 || 0x2000 <= n <= 0x200A
    || n == 0x2028 || n == 0x2029 || n == 0x202F || n == 0x205F || n == 0x3000 || n == 0xFEFF
  }

  predicate IsNameChar(c: char) {
    'a' <= c <= 'z' || IsDigit(c)
  }

  /** How many characters at the start of `s` satisfy `p`. */
  function Run(p: char -> bool, s: string): (n: nat)
    ensures n <= |s|
    ensures forall i :: 0 <= i < n ==> p(s[i])
    ensures n < |s| ==> !p(s[n])
  {
    if s == [] || !p(s[0]) then 0 else 1 + Run(p, s[1..])
  }

  // ----- character references

  /** `/^&(?:[A-Za-z][A-Za-z0-9]{1,31}|#[0-9]{1,7}|#x[0-9A-Fa-f]{1,6});/`. */
  predicate IsReference(s: string) {
    && |s| >= 2 && s[0] == '&'
    && if s[1] != '#' then
         IsLetter(s[1]) && EndsRun(s[2..], Run((c: char) => IsLetter(c) || IsDigit(c), s[2..]), 31)
       else
         || EndsRun(s[2..], Run(IsDigit, s[2..]), 7)
         || (|s| >= 3 && s[2] == 'x' && EndsRun(s[3..], Run(IsHex, s[3..]), 6))
  }

  /** A run of one to `most` characters, then `;`. */
  predicate EndsRun(s: string, run: nat, most: nat)
    requires run <= |s|
  {
    1 <= run <= most && run < |s| && s[run] == ';'
  }

  /** Every `&` of the text starts a character reference. */
  predicate ReferencesOnly(text: string) {
    text == [] || ((text[0] == '&' ==> IsReference(text)) && ReferencesOnly(text[1..]))
  }

  // ----- one element

  /** `{{actionUrl}}`, `{{appUrl}}`, or `/^mailto:[^\s"'<>{}&]+$/`. */
  predicate IsTarget(value: string) {
    || value == ACTION_URL || value == APP_URL
    || (StartsWith(value, "mailto:") && |value| > 7 && forall i :: 7 <= i < |value| ==> IsAddressChar(value[i]))
  }

  predicate IsAddressChar(c: char) {
    !IsSpace(c) && c != '"' && c != '\'' && c != '<' && c != '>' && c != '{' && c != '}' && c != '&'
  }

  /** The attribute `name="value"` at the start of `s`, and what follows it. */
  function ReadAttribute(s: string): (r: Option<(string, string, string)>)
    ensures r.Some? ==> |r.value.2| < |s|
  {
    var n := Run((c: char) => !IsSpace(c) && c != '=', s);
    if n == 0 || n + 1 >= |s| || s[n] != '=' || s[n + 1] != '"' then None
    else
      var k := FirstIndex(s[n + 2..], '"');
      if k == |s[n + 2..]| then None else Some((s[..n], s[n + 2..][..k], s[n + 2..][k + 1..]))
  }

  /** `((?:\s+[^\s=]+="[^"]*")*)\s*(\/?)$`: the attributes, and whether the tag closes itself. */
  function ReadAttributes(s: string): Option<(seq<(string, string)>, bool)>
    decreases |s|
  {
    var space := Run(IsSpace, s);
    var t := s[space..];
    match if space > 0 then ReadAttribute(t) else None
    case None => if t == "" then Some(([], false)) else if t == "/" then Some(([], true)) else None
    case Some(read) =>
      match ReadAttributes(read.2)
      case None => None
      case Some(more) => Some(([(read.0, read.1)] + more.0, more.1))
  }

  /** The link target the first `n` attributes give an element, or why they may not. */
  datatype Target = Target(href: Option<string>) | BadTarget(problem: Problem)

  function ReadTarget(name: string, attributes: seq<(string, string)>, n: nat): Target
    requires n <= |attributes|
  {
    if n == 0 then Target(None)
    else
      var before := ReadTarget(name, attributes, n - 1);
      if before.BadTarget? then before
      else if name != "a" || attributes[n - 1].0 != "href" || before.href.Some? then BadTarget(AttributeNotAllowed)
      else if !IsTarget(attributes[n - 1].1) then BadTarget(TargetNotAllowed)
      else Target(Some(attributes[n - 1].1))
  }

  datatype Element = Element(token: Token, open: seq<string>) | BadElement(problem: Problem)

  /** The name a closing tag's source gives: `/^\/([a-z0-9]+)\s*$/`. */
  function ClosingName(source: string): Option<string> {
    if source == [] || source[0] != '/' then None
    else
      var n := Run(IsNameChar, source[1..]);
      var rest := source[1..][n..];
      if n > 0 && Run(IsSpace, rest) == |rest| then Some(source[1..][..n]) else None
  }

  function ReadOpening(source: string, open: seq<string>): Element {
    var n := Run(IsNameChar, source);
    var name := source[..n];
    match if n > 0 then ReadAttributes(source[n..]) else None
    case None => BadElement(NoElement)
    case Some(read) =>
      if name !in ELEMENTS then BadElement(ElementNotAllowed)
      else match ReadTarget(name, read.0, |read.0|)
        case BadTarget(problem) => BadElement(problem)
        case Target(href) =>
          if read.1 && !IsVoid(name) then BadElement(SelfClosed)
          else if name == "a" && href == None then BadElement(LinkWithoutTarget)
          else if name == "a" && "a" in open then BadElement(LinkInLink)
          else Element(Open(name, href), if IsVoid(name) then open else open + [name])
  }

  function ReadElement(source: string, open: seq<string>): Element {
    match ClosingName(source)
    case Some(name) =>
      if open == [] || open[|open| - 1] != name then BadElement(Misclosed) else Element(Close(name), open[..|open| - 1])
    case None => ReadOpening(source, open)
  }

  // ----- the reader, on what is left of the body

  function Prepend(first: seq<Token>, rest: Reading): Reading {
    match rest
    case Refused(_) => rest
    case Tokens(tokens) => Tokens(first + tokens)
  }

  function ReadEnd(open: seq<string>): Reading {
    if open != [] then Refused(LeftOpen) else Tokens([])
  }

  /** The element `s` starts with, and the rest of the body. */
  function ReadTag(s: string, open: seq<string>): Reading
    requires s != [] && s[0] == '<'
    decreases |s|, 0
  {
    if StartsWith(s, "<!--") then Refused(Comment)
    else
      var close := FirstIndex(s, '>');
      if close == |s| then Refused(UnendedTag)
      else match ReadElement(s[1..close], open)
        case BadElement(problem) => Refused(problem)
        case Element(token, after) => Prepend([token], Read(s[close + 1..], after))
  }

  function Read(s: string, open: seq<string>): Reading
    decreases |s|, 1
  {
    var k := FirstIndex(s, '<');
    if k == 0 then
      if s == [] then ReadEnd(open) else ReadTag(s, open)
    else if !ReferencesOnly(s[..k]) then
      Refused(BareAmpersand)
    else
      Prepend([Text(s[..k])], if k == |s| then ReadEnd(open) else ReadTag(s[k..], open))
  }

  // ----- what is accepted

  ghost predicate ElementsOnly(open: seq<string>) {
    forall i :: 0 <= i < |open| ==> open[i] in ELEMENTS && !IsVoid(open[i])
  }

  /** Well nested inside `open`: void elements never closed, no link inside a link, no two adjacent texts. */
  ghost predicate WellNested(tokens: seq<Token>, open: seq<string>) {
    if tokens == [] then open == []
    else match tokens[0]
      case Text(text) =>
        && text != "" && '<' !in text && ReferencesOnly(text)
        && (|tokens| > 1 ==> !tokens[1].Text?)
        && WellNested(tokens[1..], open)
      case Open(name, href) =>
        && name in ELEMENTS && (name == "a" <==> href.Some?) && (href.Some? ==> IsTarget(href.value))
        && (name == "a" ==> "a" !in open)
        && WellNested(tokens[1..], if IsVoid(name) then open else open + [name])
      case Close(name) =>
        open != [] && open[|open| - 1] == name && !IsVoid(name) && WellNested(tokens[1..], open[..|open| - 1])
  }

  lemma {:induction false} TargetIsAllowed(name: string, attributes: seq<(string, string)>, n: nat)
    requires n <= |attributes|
    ensures ReadTarget(name, attributes, n).Target? && ReadTarget(name, attributes, n).href.Some? ==>
              name == "a" && IsTarget(ReadTarget(name, attributes, n).href.value)
  {
    if n > 0 {
      TargetIsAllowed(name, attributes, n - 1);
    }
  }

  /** An element read keeps the stack of open elements and is what a well-nested list may hold next. */
  lemma ElementNests(source: string, open: seq<string>, rest: seq<Token>)
    requires ElementsOnly(open) && ReadElement(source, open).Element?
    ensures ElementsOnly(ReadElement(source, open).open) && !ReadElement(source, open).token.Text?
    ensures WellNested(rest, ReadElement(source, open).open) ==> WellNested([ReadElement(source, open).token] + rest, open)
  {
    var e := ReadElement(source, open);
    if ClosingName(source) == None {
      OpeningNests(source, open);
    }
    TokenNests(e.token, open, e.open, rest);
  }

  /** A token that may stand inside `open`, and the elements open after it. */
  ghost predicate Nests(t: Token, open: seq<string>, after: seq<string>) {
    match t
    case Text(_) => false
    case Open(name, href) =>
      && name in ELEMENTS && (name == "a" <==> href.Some?) && (href.Some? ==> IsTarget(href.value))
      && (name == "a" ==> "a" !in open) && after == if IsVoid(name) then open else open + [name]
    case Close(name) => open != [] && open[|open| - 1] == name && !IsVoid(name) && after == open[..|open| - 1]
  }

  lemma OpeningNests(source: string, open: seq<string>)
    requires ReadOpening(source, open).Element?
    ensures Nests(ReadOpening(source, open).token, open, ReadOpening(source, open).open)
  {
    hide ReadAttributes, IsTarget, IsVoid, ReadTarget;
    var n := Run(IsNameChar, source);
    var read := ReadAttributes(source[n..]).value;
    TargetIsAllowed(source[..n], read.0, |read.0|);
  }

  lemma TokenNests(t: Token, open: seq<string>, after: seq<string>, rest: seq<Token>)
    requires ElementsOnly(open) && Nests(t, open, after)
    ensures ElementsOnly(after) && (WellNested(rest, after) ==> WellNested([t] + rest, open))
  {
    hide IsTarget, ReferencesOnly;
    assert ([t] + rest)[1..] == rest;
  }

  /** Every body the reader accepts gives a well-nested list. */
  lemma {:induction false} ReadNests(s: string, open: seq<string>)
    requires ElementsOnly(open)
    ensures Read(s, open).Tokens? ==> WellNested(Read(s, open).tokens, open)
    decreases |s|
  {
    var k := FirstIndex(s, '<');
    if k < |s| {
      TagNests(s[k..], open);
    }
    if k > 0 && Read(s, open).Tokens? {
      var rest := if k == |s| then ReadEnd(open) else ReadTag(s[k..], open);
      assert ([Text(s[..k])] + rest.tokens)[1..] == rest.tokens;
    }
    assert s[0..] == s;
  }

  lemma {:induction false} TagNests(s: string, open: seq<string>)
    requires ElementsOnly(open) && s != [] && s[0] == '<'
    ensures ReadTag(s, open).Tokens? ==> WellNested(ReadTag(s, open).tokens, open) && ReadTag(s, open).tokens != [] && !ReadTag(s, open).tokens[0].Text?
    decreases |s|, 0
  {
    var close := FirstIndex(s, '>');
    if ReadTag(s, open).Tokens? {
      var e := ReadElement(s[1..close], open);
      var rest := Read(s[close + 1..], e.open).tokens;
      ElementNests(s[1..close], open, rest);
      ReadNests(s[close + 1..], e.open);
    }
  }

  // ----- printing

  /** A token as it is rendered. */
  function Written(t: Token): string {
    match t
    case Text(text) => text
    case Open(name, href) => "<" + OpeningSource(name, href) + ">"
    case Close(name) => "<" + ("/" + name) + ">"
  }

  function OpeningSource(name: string, href: Option<string>): string {
    match href
    case None => name
    case Some(value) => name + HrefSource(value)
  }

  function HrefSource(value: string): string {
    " href=\"" + value + "\""
  }

  function Print(tokens: seq<Token>): string {
    if tokens == [] then [] else Written(tokens[0]) + Print(tokens[1..])
  }

  lemma {:induction false} RunIs(p: char -> bool, first: string, rest: string)
    requires forall i :: 0 <= i < |first| ==> p(first[i])
    requires rest != [] ==> !p(rest[0])
    ensures Run(p, first + rest) == |first|
  {
    if first == [] {
      assert first + rest == rest;
    } else {
      RunIs(p, first[1..], rest);
      assert (first + rest)[1..] == first[1..] + rest;
    }
  }

  lemma ElementName(name: string)
    requires name in ELEMENTS
    ensures |name| > 0 && forall i :: 0 <= i < |name| ==> IsNameChar(name[i])
  {
  }

  lemma TargetChars(value: string)
    requires IsTarget(value)
    ensures '"' !in value && '>' !in value
  {
    if value != ACTION_URL && value != APP_URL {
      assert value[..7] == "mailto:";
      assert forall i :: 0 <= i < 7 ==> value[i] == value[..7][i];
    }
  }

  lemma SourceName(name: string, tail: string)
    requires name in ELEMENTS && (tail != [] ==> !IsNameChar(tail[0]))
    ensures Run(IsNameChar, name + tail) == |name| && (name + tail)[..|name|] == name && (name + tail)[|name|..] == tail
    ensures ClosingName(name + tail) == None
  {
    ElementName(name);
    RunIs(IsNameChar, name, tail);
    assert IsNameChar((name + tail)[0]);
  }

  lemma AttributeReads(name: string, value: string, rest: string)
    requires |name| > 0 && forall i :: 0 <= i < |name| ==> !IsSpace(name[i]) && name[i] != '='
    requires '"' !in value
    ensures ReadAttribute(name + "=" + "\"" + value + "\"" + rest) == Some((name, value, rest))
  {
    var close := "\"" + rest;
    var tail := "=" + "\"" + value + close;
    var s := name + tail;
    assert s == name + "=" + "\"" + value + "\"" + rest;
    RunIs((c: char) => !IsSpace(c) && c != '=', name, tail);
    var n := |name|;
    assert s[..n] == name && s[n..] == tail && s[n] == tail[0] && s[n + 1] == tail[1];
    assert s[n + 2..] == value + close;
    FirstIndexIs(value, '"', close);
    assert (value + close)[..|value|] == value && (value + close)[|value| + 1..] == rest;
  }

  /** One attribute, and no more. */
  lemma HrefReads(value: string)
    requires IsTarget(value)
    ensures ReadAttributes(HrefSource(value)) == Some(([("href", value)], false))
  {
    hide IsTarget;
    var t := "href" + "=" + "\"" + value + "\"" + "";
    TargetChars(value);
    AttributeReads("href", value, "");
    assert HrefSource(value) == " " + t;
    RunIs(IsSpace, " ", t);
    assert HrefSource(value)[1..] == t;
    NoAttributes();
    assert [("href", value)] + [] == [("href", value)];
  }

  lemma NoAttributes()
    ensures ReadAttributes("") == Some(([], false))
  {
    assert Run(IsSpace, "") == 0;
  }

  lemma OpeningReads(name: string, href: Option<string>, open: seq<string>)
    requires name in ELEMENTS && (name == "a" <==> href.Some?) && (href.Some? ==> IsTarget(href.value)) && (name == "a" ==> "a" !in open)
    ensures ReadElement(OpeningSource(name, href), open) == Element(Open(name, href), if IsVoid(name) then open else open + [name])
  {
    var tail := if href.Some? then HrefSource(href.value) else "";
    assert OpeningSource(name, href) == name + tail;
    SourceName(name, tail);
    if href.Some? {
      HrefReads(href.value);
      TargetOfOne(name, href.value);
    } else {
      NoAttributes();
      assert ReadTarget(name, [], 0) == Target(None);
    }
    OpeningOf(name, tail, href, open);
  }

  lemma TargetOfOne(name: string, value: string)
    requires name == "a" && IsTarget(value)
    ensures ReadTarget(name, [("href", value)], 1) == Target(Some(value))
  {
  }

  lemma OpeningOf(name: string, tail: string, href: Option<string>, open: seq<string>)
    requires name in ELEMENTS && (name == "a" <==> href.Some?) && (name == "a" ==> "a" !in open)
    requires Run(IsNameChar, name + tail) == |name| && (name + tail)[..|name|] == name && (name + tail)[|name|..] == tail
    requires ClosingName(name + tail) == None
    requires ReadAttributes(tail).Some? && !ReadAttributes(tail).value.1
    requires ReadTarget(name, ReadAttributes(tail).value.0, |ReadAttributes(tail).value.0|) == Target(href)
    ensures ReadElement(name + tail, open) == Element(Open(name, href), if IsVoid(name) then open else open + [name])
  {
    hide ReadAttributes, ReadTarget, ClosingName, Run;
    ElementName(name);
  }

  lemma OpeningChars(name: string, href: Option<string>)
    requires name in ELEMENTS && (href.Some? ==> IsTarget(href.value))
    ensures '>' !in OpeningSource(name, href) && OpeningSource(name, href) != "" && OpeningSource(name, href)[0] != '!'
  {
    ElementName(name);
    if href.Some? {
      TargetChars(href.value);
    }
  }

  lemma ClosingReads(name: string, open: seq<string>)
    requires name in ELEMENTS && open != [] && open[|open| - 1] == name
    ensures ReadElement("/" + name, open) == Element(Close(name), open[..|open| - 1])
    ensures '>' !in "/" + name
  {
    ElementName(name);
    var source := "/" + name;
    assert source[1..] == name && name + "" == name;
    RunIs(IsNameChar, name, "");
    assert name[|name|..] == "" && name[..|name|] == name;
    assert ClosingName(source) == Some(name);
  }

  /** A tag is read as the element its source gives, and what follows it is read after. */
  lemma TagReads(source: string, token: Token, open: seq<string>, after: seq<string>, rest: string)
    requires '>' !in source && source != "" && source[0] != '!' && ReadElement(source, open) == Element(token, after)
    ensures Read("<" + source + ">" + rest, open) == Prepend([token], Read(rest, after))
  {
    hide ReadElement;
    var s := "<" + source + ">" + rest;
    assert s == "" + s;
    FirstIndexIs("", '<', s);
    assert s == ("<" + source) + (">" + rest);
    FirstIndexIs("<" + source, '>', ">" + rest);
    var close := |source| + 1;
    assert s[1..close] == source && s[close + 1..] == rest;
    NotComment(s, source[0]);
  }

  lemma NotComment(s: string, c: char)
    requires |s| >= 2 && s[1] == c && c != '!'
    ensures !StartsWith(s, "<!--")
  {
    if |s| >= 4 {
      assert s[..4][1] == c;
    }
  }

  lemma TextReads(text: string, open: seq<string>, rest: string)
    requires text != "" && '<' !in text && ReferencesOnly(text) && (rest != [] ==> rest[0] == '<')
    ensures Read(text + rest, open) == Prepend([Text(text)], Read(rest, open))
  {
    var s := text + rest;
    FirstIndexIs(text, '<', rest);
    assert s[..|text|] == text && s[|text|..] == rest;
    assert rest == "" + rest;
    FirstIndexIs("", '<', rest);
  }

  lemma PrintStartsTag(tokens: seq<Token>)
    requires tokens != [] && !tokens[0].Text?
    ensures Print(tokens) != [] && Print(tokens)[0] == '<'
  {
  }

  /** Every well-nested list is read back from what it prints. */
  lemma {:induction false} PrintReads(tokens: seq<Token>, open: seq<string>)
    requires ElementsOnly(open) && WellNested(tokens, open)
    ensures Read(Print(tokens), open) == Tokens(tokens)
    decreases |tokens|
  {
    if tokens == [] {
      assert FirstIndex("", '<') == 0;
    } else {
      var rest := tokens[1..];
      assert tokens == [tokens[0]] + rest;
      match tokens[0]
      case Text(text) =>
        PrintReads(rest, open);
        if rest != [] {
          PrintStartsTag(rest);
        }
        TextReads(text, open, Print(rest));
      case Open(name, href) =>
        var after := if IsVoid(name) then open else open + [name];
        PrintReads(rest, after);
        OpeningReads(name, href, open);
        OpeningChars(name, href);
        TagReads(OpeningSource(name, href), tokens[0], open, after, Print(rest));
      case Close(name) =>
        PrintReads(rest, open[..|open| - 1]);
        ClosingReads(name, open);
        TagReads("/" + name, tokens[0], open, open[..|open| - 1], Print(rest));
    }
  }

  /** `mailHtmlTokens`. */
  function MailTokens(html: string): Reading {
    Read(html, [])
  }

  /** A list is the reading of some body exactly when it is well nested; then it is the reading of what it prints. */
  lemma ReadingsAreWellNested(tokens: seq<Token>)
    ensures (exists html :: MailTokens(html) == Tokens(tokens)) <==> WellNested(tokens, [])
    ensures WellNested(tokens, []) ==> MailTokens(Print(tokens)) == Tokens(tokens)
  {
    hide Read, WellNested;
    if WellNested(tokens, []) {
      PrintReads(tokens, []);
      assert MailTokens(Print(tokens)) == Tokens(tokens);
    }
    if exists html :: MailTokens(html) == Tokens(tokens) {
      var html :| MailTokens(html) == Tokens(tokens);
      ReadNests(html, []);
    }
  }

  // ----- the loop

  lemma PrependTwice(a: seq<Token>, b: seq<Token>, rest: Reading)
    ensures Prepend(a, Prepend(b, rest)) == Prepend(a + b, rest)
    ensures Prepend([], rest) == rest
  {
    if rest.Tokens? {
      assert a + (b + rest.tokens) == a + b + rest.tokens;
      assert [] + rest.tokens == rest.tokens;
    }
  }

  /** The text up to the next tag, and where it ends. */
  method NextText(html: string, at: nat) returns (found: seq<Token>, end: nat, refused: bool)
    requires at < |html|
    ensures at <= end <= |html| && end == at + FirstIndex(html[at..], '<')
    ensures refused <==> end > at && !ReferencesOnly(html[at..end])
    ensures !refused ==> found == if end > at then [Text(html[at..end])] else []
  {
    end := at + FirstIndex(html[at..], '<');
    found := [];
    refused := false;
    if end > at {
      var text := html[at..end];
      var amp := 0;
      while amp < |text|
        invariant 0 <= amp <= |text|
        invariant ReferencesOnly(text) == ReferencesOnly(text[amp..])
      {
        assert text[amp..][1..] == text[amp + 1..];
        if text[amp] == '&' && !IsReference(text[amp..]) {
          return [], end, true;
        }
        amp := amp + 1;
      }
      found := [Text(text)];
    }
  }

  /** What is left of the body is read as its text, then its tag. */
  lemma ReadSplits(html: string, at: nat, end: nat, open: seq<string>)
    requires at < |html| && at <= end <= |html| && end == at + FirstIndex(html[at..], '<')
    ensures end > at && !ReferencesOnly(html[at..end]) ==> Read(html[at..], open) == Refused(BareAmpersand)
    ensures end == at || ReferencesOnly(html[at..end]) ==>
              Read(html[at..], open) ==
                Prepend(if end > at then [Text(html[at..end])] else [], if end == |html| then ReadEnd(open) else ReadTag(html[end..], open))
  {
    hide ReadTag, ReferencesOnly;
    DropTwice(html, at, end - at);
    PrependTwice([], [], if end == |html| then ReadEnd(open) else ReadTag(html[end..], open));
  }

  /** The tag at `tag`, and the index after it. */
  method NextTag(html: string, tag: nat, open: seq<string>) returns (element: Element, end: nat)
    requires tag < |html| && html[tag] == '<'
    ensures tag < end <= |html|
    ensures ReadTag(html[tag..], open) ==
              match element case BadElement(problem) => Refused(problem)
                            case Element(token, after) => Prepend([token], Read(html[end..], after))
  {
    hide Read, ReadElement;
    end := |html|;
    if StartsWith(html[tag..], "<!--") {
      return BadElement(Comment), end;
    }
    var close := tag + FirstIndex(html[tag..], '>');
    if close == |html| {
      return BadElement(UnendedTag), end;
    }
    DropTwice(html, tag, close + 1 - tag);
    assert html[tag..][1..close - tag] == html[tag + 1..close];
    element := ReadElement(html[tag + 1..close], open);
    end := close + 1;
  }

  method MailHtmlTokens(html: string) returns (r: Reading)
    ensures r == MailTokens(html)
  {
    var tokens: seq<Token> := [];
    var open: seq<string> := [];
    var at := 0;
    PrependTwice([], [], Read(html, []));
    assert html[0..] == html;
    while at < |html|
      invariant 0 <= at <= |html|
      invariant MailTokens(html) == Prepend(tokens, Read(html[at..], open))
    {
      hide Read, ReadTag;
      var found, tag, refused := NextText(html, at);
      ReadSplits(html, at, tag, open);
      if refused {
        return Refused(BareAmpersand);
      }
      PrependTwice(tokens, found, if tag == |html| then ReadEnd(open) else ReadTag(html[tag..], open));
      tokens := tokens + found;
      if tag == |html| {
        return FinishReading(tokens, open);
      }
      assert html[tag] == html[at..][tag - at];
      var element, end := NextTag(html, tag, open);
      if element.BadElement? {
        return Refused(element.problem);
      }
      PrependTwice(tokens, [element.token], Read(html[end..], element.open));
      tokens, open := tokens + [element.token], element.open;
      at := end;
    }
    assert html[at..] == "" && FirstIndex("", '<') == 0;
    return FinishReading(tokens, open);
  }

  function FinishReading(tokens: seq<Token>, open: seq<string>): (r: Reading)
    ensures r == Prepend(tokens, ReadEnd(open))
  {
    assert tokens + [] == tokens;
    if open != [] then Refused(LeftOpen) else Tokens(tokens)
  }
}
