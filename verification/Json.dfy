/**
 * The JSON that a dump line and its row are read from: every grammar rule of section 2 of RFC 8259 but numbers, with
 * the white space and the escapes that a canonical encoding does not use.
 */
module Json {
  import opened Wrappers
  import opened Text

  datatype Json = Null | Bool(value: bool) | Str(text: string) | Arr(items: seq<Json>) | Obj(members: map<string, Json>)

  /** What a reader took from the front of a text, and what is left. */
  datatype Read<T> = Fail | Got(value: T, rest: string)

  predicate IsSpace(c: char) {
    c == ' ' || c == '\t' || c == '\n' || c == '\r'
  }

  function SkipSpace(t: string): (r: string)
    ensures |r| <= |t| && (r == [] || !IsSpace(r[0]))
  {
    if t != [] && IsSpace(t[0]) then SkipSpace(t[1..]) else t
  }

  /** One escape, after its backslash. */
  function ReadEscape(t: string): (r: Read<char>)
    ensures r.Got? ==> |r.rest| < |t|
  {
    if t == [] then Fail
    else if t[0] == '"' || t[0] == '\\' || t[0] == '/' then Got(t[0], t[1..])
    else if t[0] == 'n' then Got('\n', t[1..])
    else if t[0] == 'r' then Got('\r', t[1..])
    else if t[0] == 't' then Got('\t', t[1..])
    else if t[0] == 'b' then Got(0x8 as char, t[1..])
    else if t[0] == 'f' then Got(0xc as char, t[1..])
    else if t[0] == 'u' && |t| >= 5 && IsHex(t[1]) && IsHex(t[2]) && IsHex(t[3]) && IsHex(t[4]) then
      var code := 4096 * HexValue(t[1]) + 256 * HexValue(t[2]) + 16 * HexValue(t[3]) + HexValue(t[4]);
      if code < 0xd800 then Got(code as char, t[5..]) else Fail
    else Fail
  }

  /** A string's characters, after its opening quote. */
  function ReadChars(t: string): (r: Read<string>)
    ensures r.Got? ==> |r.rest| < |t|
  {
    if t == [] || t[0] < ' ' then Fail
    else if t[0] == '"' then Got([], t[1..])
    else if t[0] == '\\' then
      match ReadEscape(t[1..])
      case Fail => Fail
      case Got(c, rest) => Prepend(c, ReadChars(rest))
    else Prepend(t[0], ReadChars(t[1..]))
  }

  function Prepend(c: char, r: Read<string>): (q: Read<string>)
    ensures q.Got? <==> r.Got?
    ensures q.Got? ==> q.rest == r.rest
  {
    match r
    case Fail => Fail
    case Got(s, rest) => Got([c] + s, rest)
  }

  function ReadValue(t: string): (r: Read<Json>)
    ensures r.Got? ==> |r.rest| < |t|
    decreases |t|, 0
  {
    var s := SkipSpace(t);
    if s == [] then Fail
    else if StartsWith(s, "null") then Got(Null, s[4..])
    else if StartsWith(s, "true") then Got(Bool(true), s[4..])
    else if StartsWith(s, "false") then Got(Bool(false), s[5..])
    else if s[0] == '"' then
      match ReadChars(s[1..])
      case Fail => Fail
      case Got(text, rest) => Got(Str(text), rest)
    else if s[0] == '[' then
      var u := SkipSpace(s[1..]);
      if u != [] && u[0] == ']' then Got(Arr([]), u[1..])
      else
        match ReadItems(s[1..])
        case Fail => Fail
        case Got(items, rest) => Got(Arr(items), rest)
    else if s[0] == '{' then
      var u := SkipSpace(s[1..]);
      if u != [] && u[0] == '}' then Got(Obj(map[]), u[1..])
      else
        match ReadMembers(s[1..])
        case Fail => Fail
        case Got(members, rest) => Got(Obj(members), rest)
    else Fail
  }

  /** The items of an array, after its opening bracket or a comma. */
  function ReadItems(t: string): (r: Read<seq<Json>>)
    ensures r.Got? ==> |r.rest| < |t|
    decreases |t|, 1
  {
    match ReadValue(t)
    case Fail => Fail
    case Got(item, rest) =>
      var s := SkipSpace(rest);
      if s == [] then Fail
      else if s[0] == ']' then Got([item], s[1..])
      else if s[0] == ',' then
        match ReadItems(s[1..])
        case Fail => Fail
        case Got(items, after) => Got([item] + items, after)
      else Fail
  }

  /** The members of an object, after its opening brace or a comma; of two members of one name the later one stays. */
  function ReadMembers(t: string): (r: Read<map<string, Json>>)
    ensures r.Got? ==> |r.rest| < |t|
    decreases |t|, 1
  {
    var s := SkipSpace(t);
    if s == [] || s[0] != '"' then Fail
    else
      match ReadChars(s[1..])
      case Fail => Fail
      case Got(name, colon) =>
        var c := SkipSpace(colon);
        if c == [] || c[0] != ':' then Fail
        else
          match ReadValue(c[1..])
          case Fail => Fail
          case Got(value, rest) =>
            var e := SkipSpace(rest);
            if e == [] then Fail
            else if e[0] == '}' then Got(map[name := value], e[1..])
            else if e[0] == ',' then
              match ReadMembers(e[1..])
              case Fail => Fail
              case Got(members, after) => Got(map[name := value] + members, after)
            else Fail
  }

  /** `parseJson`. */
  function Parse(t: string): Option<Json> {
    match ReadValue(t)
    case Fail => None
    case Got(value, rest) => if SkipSpace(rest) == [] then Some(value) else None
  }

  // ----- compact text

  /** Characters `JSON.stringify` writes as they are. */
  predicate Plain(s: string) {
    forall i :: 0 <= i < |s| ==> s[i] >= ' ' && s[i] != '"' && s[i] != '\\'
  }

  function Quoted(s: string): string {
    "\"" + s + "\""
  }

  lemma {:induction false} CharsRead(s: string, rest: string)
    requires Plain(s)
    ensures ReadChars(s + "\"" + rest) == Got(s, rest)
  {
    var t := s + "\"" + rest;
    if s == [] {
      assert t == "\"" + rest && t[1..] == rest;
    } else {
      assert t[1..] == s[1..] + "\"" + rest;
      CharsRead(s[1..], rest);
      assert s == [s[0]] + s[1..];
    }
  }

  lemma QuotedReads(s: string, rest: string)
    requires Plain(s)
    ensures ReadValue(Quoted(s) + rest) == Got(Str(s), rest)
  {
    hide ReadChars;
    var t := Quoted(s) + rest;
    assert t[0] == '"' && t[1..] == s + "\"" + rest;
    CharsRead(s, rest);
  }

  lemma NullReads(rest: string)
    ensures ReadValue("null" + rest) == Got(Null, rest)
  {
    var t := "null" + rest;
    assert t[0] == 'n' && t[..4] == "null" && t[4..] == rest;
  }

  /** The text of a value, and that it reads back whatever follows. */
  ghost predicate Writes(text: string, value: Json) {
    forall rest :: Reads(text, value, rest)
  }

  predicate Reads(text: string, value: Json, rest: string) {
    ReadValue(text + rest) == Got(value, rest)
  }

  ghost predicate WritesAll(texts: seq<string>, values: seq<Json>) {
    |texts| == |values| && forall i :: 0 <= i < |texts| ==> Writes(texts[i], values[i])
  }

  lemma {:induction false} ItemsRead(texts: seq<string>, values: seq<Json>, rest: string)
    requires texts != [] && WritesAll(texts, values)
    ensures ReadItems(Join(texts, ',') + "]" + rest) == Got(values, rest)
  {
    hide ReadValue;
    var t := Join(texts, ',') + "]" + rest;
    if |texts| == 1 {
      assert t == texts[0] + ("]" + rest);
      assert Reads(texts[0], values[0], "]" + rest);
      assert ("]" + rest)[1..] == rest && values == [values[0]];
    } else {
      var after := Join(texts[1..], ',') + "]" + rest;
      assert t == texts[0] + ("," + after);
      assert Reads(texts[0], values[0], "," + after);
      assert ("," + after)[1..] == after;
      ItemsRead(texts[1..], values[1..], rest);
      assert values == [values[0]] + values[1..];
    }
  }

  /** What a value's text can start with: no white space, and no bracket that would close a list. */
  predicate Starts(text: string) {
    text != [] && !IsSpace(text[0]) && text[0] != ']'
  }

  lemma ArrayReads(texts: seq<string>, values: seq<Json>)
    requires WritesAll(texts, values) && (texts != [] ==> Starts(texts[0]))
    ensures Writes("[" + Join(texts, ',') + "]", Arr(values))
  {
    hide ReadItems;
    forall rest ensures Reads("[" + Join(texts, ',') + "]", Arr(values), rest) {
      var inner := Join(texts, ',') + "]" + rest;
      var t := "[" + Join(texts, ',') + "]" + rest;
      assert t[0] == '[' && t[1..] == inner;
      if texts == [] {
        assert inner == "]" + rest && inner[1..] == rest;
      } else {
        hide WritesAll;
        ItemsRead(texts, values, rest);
        assert inner[0] == texts[0][0];
      }
    }
  }

  /** A member's name and value read back, up to what comes after the value. */
  lemma MemberReads(name: string, text: string, value: Json, rest: string)
    requires Plain(name) && Writes(text, value)
    ensures var t := Quoted(name) + ":" + text + rest;
            t[0] == '"' && ReadChars(t[1..]) == Got(name, ":" + text + rest)
    ensures (":" + text + rest)[1..] == text + rest && ReadValue(text + rest) == Got(value, rest)
  {
    hide ReadChars, ReadValue;
    var t := Quoted(name) + ":" + text + rest;
    assert t[1..] == name + "\"" + (":" + text + rest);
    CharsRead(name, ":" + text + rest);
    assert Reads(text, value, rest);
  }

  lemma LastMember(name: string, text: string, value: Json, rest: string)
    requires Plain(name) && Writes(text, value)
    ensures ReadMembers(Quoted(name) + ":" + text + ("}" + rest)) == Got(map[name := value], rest)
  {
    MemberReads(name, text, value, "}" + rest);
    hide ReadChars, ReadValue, Writes, Plain, Quoted;
    assert ("}" + rest)[1..] == rest;
  }

  lemma NextMember(name: string, text: string, value: Json, rest: string, members: map<string, Json>, after: string)
    requires Plain(name) && Writes(text, value) && ReadMembers(rest) == Got(members, after)
    ensures ReadMembers(Quoted(name) + ":" + text + ("," + rest)) == Got(map[name := value] + members, after)
  {
    MemberReads(name, text, value, "," + rest);
    hide ReadChars, ReadValue, Writes, Plain, Quoted;
    assert ("," + rest)[1..] == rest;
  }

  function Member(name: string, text: string): string {
    Quoted(name) + ":" + text
  }

  lemma MemberText(name: string, text: string, rest: string)
    ensures Member(name, text) + rest == Quoted(name) + ":" + text + rest
    ensures Member(name, text) + rest != [] && (Member(name, text) + rest)[0] == '"'
  {
  }

  lemma ObjectReads(first: string, firstText: string, firstValue: Json, second: string, secondText: string, secondValue: Json)
    requires Plain(first) && Plain(second) && first != second && Writes(firstText, firstValue) && Writes(secondText, secondValue)
    ensures Parse("{" + (Member(first, firstText) + ("," + (Member(second, secondText) + "}"))))
         == Some(Obj(map[first := firstValue, second := secondValue]))
  {
    var tail := Member(second, secondText) + "}";
    var inner := Member(first, firstText) + ("," + tail);
    hide *;
    MemberText(first, firstText, "," + tail);
    MemberText(second, secondText, "}");
    assert "}" + "" == "}";
    LastMember(second, secondText, secondValue, "");
    NextMember(first, firstText, firstValue, tail, map[second := secondValue], "");
    assert map[first := firstValue] + map[second := secondValue] == map[first := firstValue, second := secondValue];
    BracesRead(inner, map[first := firstValue, second := secondValue]);
  }

  lemma BracesRead(inner: string, members: map<string, Json>)
    requires inner != [] && inner[0] == '"' && ReadMembers(inner) == Got(members, "")
    ensures Parse("{" + inner) == Some(Obj(members))
  {
    hide ReadMembers;
    var t := "{" + inner;
    assert t[0] == '{' && t[1..] == inner;
  }

  lemma BracketsRead(inner: string, items: seq<Json>)
    requires SkipSpace(inner) != [] && SkipSpace(inner)[0] != ']' && ReadItems(inner) == Got(items, "")
    ensures Parse("[" + inner) == Some(Arr(items))
  {
    hide ReadItems;
    var t := "[" + inner;
    assert t[0] == '[' && t[1..] == inner;
    assert ReadValue(t) == Got(Arr(items), "");
  }

  lemma WrittenParses(text: string, value: Json)
    requires Writes(text, value)
    ensures Parse(text) == Some(value)
  {
    hide ReadValue;
    assert Reads(text, value, []);
    assert text + [] == text;
  }
}
