/**
 * The bodies that `mailHtmlTokens` accepts, spelled out: a tag may hold white space before its `href` and before its end,
 * and a void element may close itself. A body reads as a token list exactly when the list is well nested and the body
 * spells it.
 */
module MailSpelling {
  import opened Wrappers
  import opened Seqs
  import opened Text
  import opened MailHtml

  predicate AllSpace(s: string) {
    forall i :: 0 <= i < |s| ==> IsSpace(s[i])
  }

  /** How an opening tag is written between its angle brackets. */
  datatype Spelling = Spelling(before: string, after: string, slash: bool)

  /** A name, a link's `href` after white space, more white space, and a slash. */
  function Spelled(name: string, href: Option<string>, how: Spelling): string {
    name + Tail(href, how)
  }

  /** What follows the name. */
  function Tail(href: Option<string>, how: Spelling): string {
    match href
    case None => End(how)
    case Some(value) => how.before + HrefThen(value, End(how))
  }

  function HrefThen(value: string, rest: string): string {
    AttributeThen("href", value, rest)
  }

  function End(how: Spelling): string {
    how.after + (if how.slash then "/" else "")
  }

  predicate IsSpelling(href: Option<string>, how: Spelling) {
    AllSpace(how.before) && AllSpace(how.after) && (href.Some? ==> how.before != "")
  }

  /** An element of the subset: a link with its target, or another element without one. */
  predicate IsElement(name: string, href: Option<string>) {
    name in ELEMENTS && (name == "a" <==> href.Some?) && (href.Some? ==> IsTarget(href.value))
  }

  // ----- a spelled tag reads as the plain one

  lemma EndReads(how: Spelling)
    requires AllSpace(how.after)
    ensures ReadAttributes(End(how)) == Some(([], how.slash))
  {
    var t := if how.slash then "/" else "";
    assert End(how) == how.after + t;
    RunIs(IsSpace, how.after, t);
    assert End(how)[|how.after|..] == t;
    assert ReadAttribute(t) == None;
    assert "/" != "" by { assert |"/"| == 1; }
  }

  lemma HrefEndReads(value: string, how: Spelling)
    requires IsTarget(value) && AllSpace(how.before) && AllSpace(how.after) && how.before != ""
    ensures ReadAttributes(how.before + HrefThen(value, End(how))) == Some(([("href", value)], how.slash))
  {
    var end := End(how);
    var t := HrefThen(value, end);
    var s := how.before + t;
    assert t[0] == 'h';
    TargetChars(value);
    AttributeReads("href", value, end);
    RunIs(IsSpace, how.before, t);
    assert s[|how.before|..] == t;
    EndReads(how);
    hide IsTarget, ReadAttribute, Run;
    assert [("href", value)] + [] == [("href", value)];
  }

  lemma TailReads(href: Option<string>, how: Spelling)
    requires IsSpelling(href, how) && (href.Some? ==> IsTarget(href.value))
    ensures ReadAttributes(Tail(href, how)) == Some((if href.Some? then [("href", href.value)] else [], how.slash))
    ensures Tail(href, how) != "" ==> !IsNameChar(Tail(href, how)[0])
  {
    match href
    case None => EndReads(how);
    case Some(value) =>
      HrefEndReads(value, how);
      assert Tail(href, how)[0] == how.before[0];
  }

  /** The plain spelling. */
  const PLAIN: Spelling := Spelling(" ", "", false)

  lemma PlainIsPlain(name: string, href: Option<string>)
    ensures Spelled(name, href, PLAIN) == OpeningSource(name, href)
    ensures IsSpelling(href, PLAIN)
  {
    if href.Some? {
      assert End(PLAIN) == "";
      assert " " + HrefThen(href.value, "") == HrefSource(href.value);
    }
  }

  /** What an opening tag becomes, whatever its spelling. */
  function Opened(name: string, href: Option<string>, slash: bool, open: seq<string>): Element {
    if slash && !IsVoid(name) then BadElement(SelfClosed)
    else if name == "a" && "a" in open then BadElement(LinkInLink)
    else Element(Open(name, href), if IsVoid(name) then open else open + [name])
  }

  lemma SpelledReads(name: string, href: Option<string>, how: Spelling, open: seq<string>)
    requires IsElement(name, href) && IsSpelling(href, how)
    ensures ReadElement(Spelled(name, href, how), open) == Opened(name, href, how.slash, open)
  {
    var tail := Tail(href, how);
    TailReads(href, how);
    SourceName(name, tail);
    if href.Some? {
      TargetOfOne(name, href.value);
    } else {
      assert ReadTarget(name, [], 0) == Target(None);
    }
    SpelledOpening(name, tail, href, how.slash, open);
  }

  lemma SpelledOpening(name: string, tail: string, href: Option<string>, slash: bool, open: seq<string>)
    requires name in ELEMENTS && (name == "a" <==> href.Some?)
    requires Run(IsNameChar, name + tail) == |name| && (name + tail)[..|name|] == name && (name + tail)[|name|..] == tail
    requires ClosingName(name + tail) == None
    requires ReadAttributes(tail).Some? && ReadAttributes(tail).value.1 == slash
    requires ReadTarget(name, ReadAttributes(tail).value.0, |ReadAttributes(tail).value.0|) == Target(href)
    ensures ReadElement(name + tail, open) == Opened(name, href, slash, open)
  {
    hide ReadAttributes, ReadTarget, ClosingName, Run, IsVoid;
    ElementName(name);
  }

  // ----- the tag in its body

  /** A tag's source ends at its `>` and starts no comment. */
  predicate IsSource(source: string) {
    '>' !in source && source != "" && source[0] != '!'
  }

  /** The reading of a tag's element and what follows it. */
  function GoOn(element: Element, rest: string): Reading {
    match element
    case BadElement(problem) => Refused(problem)
    case Element(token, after) => Prepend([token], Read(rest, after))
  }

  /** A tag is read as its element, then what follows it. */
  lemma TagIs(source: string, open: seq<string>, rest: string)
    requires IsSource(source)
    ensures Read("<" + source + ">" + rest, open) == GoOn(ReadElement(source, open), rest)
  {
    hide ReadElement;
    var s := "<" + source + ">" + rest;
    assert s == "" + s;
    FirstIndexIs("", '<', s);
    assert s == ("<" + source) + (">" + rest);
    FirstIndexIs("<" + source, '>', ">" + rest);
    var close := |source| + 1;
    assert s[1..close] == source && s[close + 1..] == rest;
    NotComment(s, source[0]);
  }

  lemma SpelledIsSource(name: string, href: Option<string>, how: Spelling)
    requires IsElement(name, href) && IsSpelling(href, how)
    ensures IsSource(Spelled(name, href, how))
  {
    ElementName(name);
    if href.Some? {
      TargetChars(href.value);
    }
    hide IsTarget;
    var s := Spelled(name, href, how);
    assert s[0] == name[0];
    assert '>' !in End(how);
  }

  /** Spacing changes nothing of what a body reads as, nor does the slash of a void element; that of any other is refused. */
  lemma SpacingReads(name: string, href: Option<string>, how: Spelling, open: seq<string>, rest: string)
    requires IsElement(name, href) && IsSpelling(href, how)
    ensures Read("<" + Spelled(name, href, how) + ">" + rest, open) ==
              if how.slash && !IsVoid(name) then Refused(SelfClosed) else Read("<" + OpeningSource(name, href) + ">" + rest, open)
  {
    PlainIsPlain(name, href);
    SpelledIsSource(name, href, how);
    SpelledIsSource(name, href, PLAIN);
    SpelledReads(name, href, how, open);
    SpelledReads(name, href, PLAIN, open);
    hide ReadElement, Read, Spelled, OpeningSource, IsSource, IsVoid, IsElement;
    TagIs(Spelled(name, href, how), open, rest);
    TagIs(Spelled(name, href, PLAIN), open, rest);
  }

  // ----- an accepted tag is spelled so

  function AttributeThen(name: string, value: string, rest: string): string {
    name + "=" + "\"" + value + "\"" + rest
  }

  lemma AttributeIsWritten(s: string)
    requires ReadAttribute(s).Some?
    ensures s == AttributeThen(ReadAttribute(s).value.0, ReadAttribute(s).value.1, ReadAttribute(s).value.2)
  {
    var n := Run((c: char) => !IsSpace(c) && c != '=', s);
    var t := s[n + 2..];
    var k := FirstIndex(t, '"');
    assert ReadAttribute(s).value == (s[..n], t[..k], t[k + 1..]);
    hide ReadAttribute, Run, FirstIndex;
    AttributeSplits(s, n, k);
  }

  lemma AttributeSplits(s: string, n: nat, k: nat)
    requires n + 1 < |s| && s[n] == '=' && s[n + 1] == '"' && n + 2 + k < |s| && s[n + 2..][k] == '"'
    ensures s == AttributeThen(s[..n], s[n + 2..][..k], s[n + 2..][k + 1..])
  {
    var t := s[n + 2..];
    assert t == t[..k] + "\"" + t[k + 1..];
    assert s == s[..n] + "=" + "\"" + t;
  }

  /** No attribute: white space and a slash. */
  lemma EndIsSpelled(s: string)
    requires ReadAttributes(s).Some? && ReadAttributes(s).value.0 == []
    ensures var n := Run(IsSpace, s);
            AllSpace(s[..n]) && s == End(Spelling("", s[..n], ReadAttributes(s).value.1))
  {
    var n := Run(IsSpace, s);
    assert s == s[..n] + s[n..];
    assert "/" != "" by { assert |"/"| == 1; }
  }

  /** At least one attribute: white space, the attribute, and the others. */
  lemma AttributeFirst(s: string) returns (before: string, rest: string)
    requires ReadAttributes(s).Some? && ReadAttributes(s).value.0 != []
    ensures AllSpace(before) && before != "" && ReadAttributes(rest).Some? && |rest| < |s|
    ensures var (attributes, slash) := ReadAttributes(s).value;
            && s == before + AttributeThen(attributes[0].0, attributes[0].1, rest)
            && ReadAttributes(rest).value == (attributes[1..], slash)
  {
    var n := Run(IsSpace, s);
    hide AttributeThen, ReadAttribute;
    AttributesUnfold(s, n);
    var read := ReadAttribute(s[n..]).value;
    AttributeIsWritten(s[n..]);
    before, rest := s[..n], read.2;
    hide ReadAttributes;
    assert s == s[..n] + s[n..];
  }

  lemma AttributesUnfold(s: string, n: nat)
    requires ReadAttributes(s).Some? && ReadAttributes(s).value.0 != [] && n == Run(IsSpace, s)
    ensures n > 0 && ReadAttribute(s[n..]).Some?
    ensures var read := ReadAttribute(s[n..]).value;
            && ReadAttributes(read.2).Some? && ReadAttributes(read.2).value.1 == ReadAttributes(s).value.1
            && ReadAttributes(s).value.0[0] == (read.0, read.1) && ReadAttributes(s).value.0[1..] == ReadAttributes(read.2).value.0
  {
    hide ReadAttribute;
  }

  /** An element takes no attribute, or one `href`. */
  lemma {:induction false} OneAttribute(name: string, attributes: seq<(string, string)>, n: nat)
    requires n <= |attributes| && ReadTarget(name, attributes, n).Target?
    ensures n <= 1
    ensures ReadTarget(name, attributes, n).href == if n == 0 then None else Some(attributes[0].1)
    ensures n == 1 ==> name == "a" && attributes[0].0 == "href" && IsTarget(attributes[0].1)
  {
    if n > 0 {
      OneAttribute(name, attributes, n - 1);
    }
  }

  /** The name and the attributes of an accepted opening tag. */
  lemma OpeningParts(source: string, open: seq<string>) returns (name: string, tail: string, attributes: seq<(string, string)>, slash: bool)
    requires ReadOpening(source, open).Element?
    ensures source == name + tail && ReadAttributes(tail) == Some((attributes, slash)) && name in ELEMENTS
    ensures ReadTarget(name, attributes, |attributes|).Target? && (slash ==> IsVoid(name))
    ensures ReadOpening(source, open).token == Open(name, ReadTarget(name, attributes, |attributes|).href)
    ensures name == "a" ==> ReadTarget(name, attributes, |attributes|).href.Some?
  {
    hide ReadAttributes, ReadTarget, IsVoid;
    var n := Run(IsNameChar, source);
    name, tail := source[..n], source[n..];
    attributes, slash := ReadAttributes(tail).value.0, ReadAttributes(tail).value.1;
    assert source == name + tail;
  }

  /** The source of an accepted opening tag is a spelling of the element it opens. */
  lemma OpeningIsSpelled(source: string, open: seq<string>) returns (how: Spelling)
    requires ReadOpening(source, open).Element?
    ensures ReadOpening(source, open).token.Open?
    ensures var (name, href) := (ReadOpening(source, open).token.name, ReadOpening(source, open).token.href);
            && IsElement(name, href) && IsSpelling(href, how) && (how.slash ==> IsVoid(name))
            && source == Spelled(name, href, how)
  {
    var name, tail, attributes, slash := OpeningParts(source, open);
    OneAttribute(name, attributes, |attributes|);
    hide ReadAttributes, ReadOpening, ReadTarget, AllSpace, IsTarget, Tail, IsVoid;
    how := TailIsSpelled(tail, attributes, slash);
  }

  lemma TailIsSpelled(tail: string, attributes: seq<(string, string)>, slash: bool) returns (how: Spelling)
    requires ReadAttributes(tail) == Some((attributes, slash)) && |attributes| <= 1
    requires attributes != [] ==> attributes[0].0 == "href"
    ensures how.slash == slash
    ensures IsSpelling(if attributes == [] then None else Some(attributes[0].1), how)
    ensures tail == Tail(if attributes == [] then None else Some(attributes[0].1), how)
  {
    if attributes == [] {
      EndIsSpelled(tail);
      how := Spelling("", tail[..Run(IsSpace, tail)], slash);
    } else {
      var before, rest := AttributeFirst(tail);
      EndIsSpelled(rest);
      how := Spelling(before, rest[..Run(IsSpace, rest)], slash);
      assert End(how) == rest;
      hide ReadAttributes, Run, AllSpace, End;
    }
  }

  predicate ClosesWith(source: string, name: string, space: string) {
    AllSpace(space) && source == "/" + name + space
  }

  lemma ClosingIsSpelled(source: string, name: string) returns (space: string)
    requires ClosingName(source) == Some(name)
    ensures ClosesWith(source, name, space)
  {
    var rest := source[1..];
    space := rest[Run(IsNameChar, rest)..];
    assert source == "/" + rest && rest == name + space;
  }

  /** A closing tag may hold white space before its end. */
  lemma SpelledCloses(name: string, space: string)
    requires name in ELEMENTS && AllSpace(space)
    ensures ClosingName("/" + name + space) == Some(name)
  {
    var source := "/" + name + space;
    ElementName(name);
    assert source[1..] == name + space;
    RunIs(IsNameChar, name, space);
    assert space + "" == space;
    RunIs(IsSpace, space, "");
    assert source[1..][..|name|] == name && source[1..][|name|..] == space;
  }

  // ----- whole bodies

  /** A text that a token may be written as. */
  ghost predicate SpellsToken(text: string, t: Token) {
    match t
    case Text(written) => text == written
    case Open(name, href) => exists how :: SpellsOpening(text, name, href, how)
    case Close(name) => exists space :: SpellsClosing(text, name, space)
  }

  predicate SpellsOpening(text: string, name: string, href: Option<string>, how: Spelling) {
    IsSpelling(href, how) && (how.slash ==> IsVoid(name)) && text == "<" + Spelled(name, href, how) + ">"
  }

  predicate SpellsClosing(text: string, name: string, space: string) {
    AllSpace(space) && text == "<" + ("/" + name + space) + ">"
  }

  ghost predicate Spells(html: string, tokens: seq<Token>)
    decreases |tokens|
  {
    if tokens == [] then html == ""
    else exists k :: 0 <= k <= |html| && SpellsToken(html[..k], tokens[0]) && Spells(html[k..], tokens[1..])
  }

  lemma SpellsMore(text: string, t: Token, rest: string, tokens: seq<Token>)
    requires SpellsToken(text, t) && Spells(rest, tokens)
    ensures Spells(text + rest, [t] + tokens)
  {
    hide SpellsToken;
    assert (text + rest)[..|text|] == text && (text + rest)[|text|..] == rest && ([t] + tokens)[1..] == tokens;
  }

  lemma TagStarts(text: string, t: Token)
    requires SpellsToken(text, t) && !t.Text?
    ensures text != "" && text[0] == '<'
  {
  }

  /** A spelled tag reads as its token. */
  lemma SpelledTagReads(text: string, t: Token, open: seq<string>, after: seq<string>, rest: string)
    requires SpellsToken(text, t) && !t.Text?
    requires FitsTag(t, open) && after == AfterToken(t, open)
    ensures Read(text + rest, open) == Prepend([t], Read(rest, after))
  {
    hide Read, IsElement;
    match t
    case Open(name, href) =>
      var how :| SpellsOpening(text, name, href, how);
      SpelledReads(name, href, how, open);
      SpelledIsSource(name, href, how);
      hide Spelled, IsSource, ReadElement;
      TagIs(Spelled(name, href, how), open, rest);
    case Close(name) =>
      var space :| SpellsClosing(text, name, space);
      SpelledCloses(name, space);
      ElementName(name);
      assert IsSource("/" + name + space);
      hide ClosingName, IsSource;
      TagIs("/" + name + space, open, rest);
  }

  /** The elements open after a token. */
  function AfterToken(t: Token, open: seq<string>): seq<string> {
    match t
    case Text(_) => open
    case Open(name, _) => if IsVoid(name) then open else open + [name]
    case Close(_) => if open == [] then [] else open[..|open| - 1]
  }

  /** A text of a list, and what may stand next to it. */
  ghost predicate FitsText(t: Token, more: seq<Token>) {
    t.Text? && t.text != "" && '<' !in t.text && ReferencesOnly(t.text) && (more != [] ==> !more[0].Text?)
  }

  predicate FitsTag(t: Token, open: seq<string>) {
    match t
    case Text(_) => false
    case Open(name, href) => IsElement(name, href) && (name == "a" ==> "a" !in open)
    case Close(name) => name in ELEMENTS && open != [] && open[|open| - 1] == name
  }

  lemma NestedStep(tokens: seq<Token>, open: seq<string>)
    requires ElementsOnly(open) && WellNested(tokens, open) && tokens != []
    ensures ElementsOnly(AfterToken(tokens[0], open)) && WellNested(tokens[1..], AfterToken(tokens[0], open))
    ensures if tokens[0].Text? then FitsText(tokens[0], tokens[1..]) else FitsTag(tokens[0], open)
  {
    hide ReferencesOnly, IsTarget;
  }

  lemma {:induction false} SpelledIsRead(html: string, tokens: seq<Token>, open: seq<string>)
    requires ElementsOnly(open) && WellNested(tokens, open) && Spells(html, tokens)
    ensures Read(html, open) == Tokens(tokens)
    decreases |tokens|
  {
    hide Read, WellNested, ElementsOnly, SpellsToken, Spells;
    if tokens == [] {
      NothingReads(html, open);
    } else {
      NestedStep(tokens, open);
      var t, more := tokens[0], tokens[1..];
      var k := SpelledParts(html, tokens);
      SpelledIsRead(html[k..], more, AfterToken(t, open));
      PieceReads(html[..k], t, html[k..], more, open);
      assert html == html[..k] + html[k..] && tokens == [t] + more;
    }
  }

  lemma NothingReads(html: string, open: seq<string>)
    requires WellNested([], open) && Spells(html, [])
    ensures Read(html, open) == Tokens([])
  {
    assert open == [] && html == "" && FirstIndex("", '<') == 0;
  }

  lemma SpelledParts(html: string, tokens: seq<Token>) returns (k: nat)
    requires tokens != [] && Spells(html, tokens)
    ensures k <= |html| && SpellsToken(html[..k], tokens[0]) && Spells(html[k..], tokens[1..])
  {
    hide SpellsToken;
    k :| 0 <= k <= |html| && SpellsToken(html[..k], tokens[0]) && Spells(html[k..], tokens[1..]);
  }

  lemma PieceReads(text: string, t: Token, rest: string, more: seq<Token>, open: seq<string>)
    requires SpellsToken(text, t) && Spells(rest, more) && (if t.Text? then FitsText(t, more) else FitsTag(t, open))
    ensures Read(text + rest, open) == Prepend([t], Read(rest, AfterToken(t, open)))
  {
    hide Read, ReferencesOnly, IsElement, Prepend;
    if t.Text? {
      if more != [] {
        RestStarts(rest, more);
      } else {
        assert rest == "";
      }
      assert text == t.text;
      hide Spells, SpellsToken;
      TextReads(t.text, open, rest);
    } else {
      hide Spells, SpellsToken;
      SpelledTagReads(text, t, open, AfterToken(t, open), rest);
    }
  }

  lemma RestStarts(html: string, tokens: seq<Token>)
    requires Spells(html, tokens) && tokens != [] && !tokens[0].Text?
    ensures html != "" && html[0] == '<'
  {
    hide SpellsToken;
    var k :| 0 <= k <= |html| && SpellsToken(html[..k], tokens[0]);
    TagStarts(html[..k], tokens[0]);
  }

  /** The tag a body starts with spells its token. */
  lemma ElementIsSpelled(source: string, open: seq<string>)
    requires ElementsOnly(open) && ReadElement(source, open).Element?
    ensures !ReadElement(source, open).token.Text? && SpellsToken("<" + source + ">", ReadElement(source, open).token)
  {
    if ClosingName(source).Some? {
      var name := ClosingName(source).value;
      var space := ClosingIsSpelled(source, name);
      assert SpellsClosing("<" + source + ">", name, space);
    } else {
      var how := OpeningIsSpelled(source, open);
      hide ReadOpening, Spelled;
      assert SpellsOpening("<" + source + ">", ReadElement(source, open).token.name, ReadElement(source, open).token.href, how);
    }
  }

  /** A text and what follows it, or what follows alone. */
  lemma ReadParts(s: string, open: seq<string>) returns (k: nat, rest: Reading)
    requires Read(s, open).Tokens?
    ensures k <= |s| && rest.Tokens? && (k < |s| ==> s[k..] != [] && s[k..][0] == '<' && rest == ReadTag(s[k..], open))
    ensures k == |s| ==> rest.tokens == []
    ensures Read(s, open).tokens == (if k > 0 then [Text(s[..k])] else []) + rest.tokens
  {
    hide ReadTag, ReferencesOnly;
    k := FirstIndex(s, '<');
    rest := if k == |s| then ReadEnd(open) else ReadTag(s[k..], open);
    assert s[0..] == s;
    if k == 0 && rest.Tokens? {
      assert [] + rest.tokens == rest.tokens;
    }
  }

  lemma {:induction false} ReadIsSpelled(s: string, open: seq<string>)
    requires ElementsOnly(open)
    ensures Read(s, open).Tokens? ==> Spells(s, Read(s, open).tokens)
    decreases |s|, 1
  {
    if Read(s, open).Tokens? {
      var k, rest := ReadParts(s, open);
      if k < |s| {
        TagIsSpelled(s[k..], open);
      } else {
        assert s[k..] == "" && Spells(s[k..], rest.tokens);
      }
      hide ReadTag, Read, Spells, ElementsOnly;
      if k > 0 {
        assert s == s[..k] + s[k..];
        SpellsMore(s[..k], Text(s[..k]), s[k..], rest.tokens);
      } else {
        assert s[k..] == s && [] + rest.tokens == rest.tokens;
      }
    }
  }

  lemma TagParts(s: string, open: seq<string>) returns (close: nat)
    requires s != [] && s[0] == '<' && ReadTag(s, open).Tokens?
    ensures 1 <= close < |s| && s[close] == '>' && ReadElement(s[1..close], open).Element?
    ensures var e := ReadElement(s[1..close], open);
            Read(s[close + 1..], e.open).Tokens? && ReadTag(s, open).tokens == [e.token] + Read(s[close + 1..], e.open).tokens
  {
    hide ReadElement, Read;
    close := FirstIndex(s, '>');
  }

  lemma {:induction false} TagIsSpelled(s: string, open: seq<string>)
    requires ElementsOnly(open) && s != [] && s[0] == '<'
    ensures ReadTag(s, open).Tokens? ==> Spells(s, ReadTag(s, open).tokens)
    decreases |s|, 0
  {
    if ReadTag(s, open).Tokens? {
      var close := TagParts(s, open);
      var source := s[1..close];
      var e := ReadElement(source, open);
      ElementNests(source, open, []);
      ElementIsSpelled(source, open);
      hide Read, ReadTag, ReadElement, SpellsToken, Spells, ElementsOnly, WellNested;
      ReadIsSpelled(s[close + 1..], e.open);
      SpellsMore("<" + source + ">", e.token, s[close + 1..], Read(s[close + 1..], e.open).tokens);
      TagSplits(s, close);
    }
  }

  lemma TagSplits(s: string, close: nat)
    requires 1 <= close < |s| && s[0] == '<' && s[close] == '>'
    ensures s == "<" + s[1..close] + ">" + s[close + 1..]
  {
  }

  /** A body reads as a list of tokens exactly when the list is well nested and the body spells it. */
  lemma ReadsIffSpelled(html: string, tokens: seq<Token>)
    ensures MailTokens(html) == Tokens(tokens) <==> WellNested(tokens, []) && Spells(html, tokens)
  {
    hide Read, WellNested, Spells;
    if MailTokens(html) == Tokens(tokens) {
      ReadNests(html, []);
      ReadIsSpelled(html, []);
    }
    if WellNested(tokens, []) && Spells(html, tokens) {
      SpelledIsRead(html, tokens, []);
    }
  }

  // ----- character references

  /** What stands between the `&` and the `;` of a reference: a name, or a number in decimal or hexadecimal digits. */
  predicate IsReferenceBody(body: string) {
    || (2 <= |body| <= 32 && IsLetter(body[0]) && forall i :: 0 <= i < |body| ==> IsLetter(body[i]) || IsDigit(body[i]))
    || (2 <= |body| <= 8 && body[0] == '#' && forall i :: 1 <= i < |body| ==> IsDigit(body[i]))
    || (3 <= |body| <= 8 && body[0] == '#' && body[1] == 'x' && forall i :: 2 <= i < |body| ==> IsHex(body[i]))
  }

  predicate Refers(s: string, k: int) {
    1 <= k < |s| && s[0] == '&' && s[k] == ';' && IsReferenceBody(s[1..k])
  }

  /** The characters of a body, from the second on. */
  lemma BodyChars(s: string, k: nat)
    requires 1 <= k <= |s|
    ensures |s[1..k]| == k - 1 && forall i :: 0 <= i < k - 1 ==> s[1..k][i] == s[i + 1]
  {
  }

  lemma RunChars(p: char -> bool, s: string, from: nat)
    requires from <= |s|
    ensures forall i :: from <= i < from + Run(p, s[from..]) ==> p(s[i])
    ensures from + Run(p, s[from..]) < |s| ==> s[from..][Run(p, s[from..])] == s[from + Run(p, s[from..])]
  {
    var n := Run(p, s[from..]);
    forall i | from <= i < from + n ensures p(s[i]) {
      assert s[i] == s[from..][i - from];
    }
  }

  lemma ReferenceRefers(s: string) returns (k: nat)
    requires IsReference(s)
    ensures Refers(s, k)
  {
    if s[1] != '#' {
      RunChars((c: char) => IsLetter(c) || IsDigit(c), s, 2);
      k := 2 + Run((c: char) => IsLetter(c) || IsDigit(c), s[2..]);
    } else if EndsRun(s[2..], Run(IsDigit, s[2..]), 7) {
      RunChars(IsDigit, s, 2);
      k := 2 + Run(IsDigit, s[2..]);
    } else {
      RunChars(IsHex, s, 3);
      k := 3 + Run(IsHex, s[3..]);
    }
    BodyChars(s, k);
  }

  /** Where characters of one class lead to a `;`, they are the run. */
  lemma RunTo(p: char -> bool, s: string, from: nat, k: nat)
    requires from <= k < |s| && s[k] == ';' && !p(';') && forall i :: from <= i < k ==> p(s[i])
    ensures Run(p, s[from..]) == k - from && s[from..][k - from] == ';'
  {
    var first, rest := s[from..k], s[k..];
    assert s[from..] == first + rest;
    RunIs(p, first, rest);
  }

  lemma RefersIsReference(s: string, k: nat)
    requires Refers(s, k)
    ensures IsReference(s)
  {
    var body := s[1..k];
    BodyChars(s, k);
    assert forall i :: 1 <= i < k ==> s[i] == body[i - 1];
    if body[0] != '#' {
      RunTo((c: char) => IsLetter(c) || IsDigit(c), s, 2, k);
    } else if |body| >= 3 && body[1] == 'x' {
      assert s[2] == 'x';
      RunTo(IsHex, s, 3, k);
    } else {
      RunTo(IsDigit, s, 2, k);
    }
  }

  /** An `&` starts a character reference exactly when such a body and a `;` follow it. */
  lemma ReferenceIff(s: string)
    ensures IsReference(s) <==> exists k :: Refers(s, k)
  {
    if IsReference(s) {
      var k := ReferenceRefers(s);
    }
    if k :| Refers(s, k) {
      RefersIsReference(s, k);
    }
  }
}
