/**
 * The canonical encoding of a dump's rows and lines: the texts a reader accepts are exactly those the writer writes,
 * each for the row it was written from.
 */
module RowCodec {
  import opened Wrappers
  import opened Text
  import DumpSchema
  import opened Json

  /** A stored value as it travels: decimal digits for an integer, a double for a real, hex for text and blobs. */
  datatype Value<D> = Null | Integer(text: string) | Real(double: D) | Text(hex: string) | Blob(hex: string)

  /** What the language does with doubles: `String`, `Number` and the two values that need care. */
  datatype Doubles<!D> = Doubles(text: D -> string, number: string -> D, isNaN: D -> bool, negativeZero: D)

  /**
   * A double's text reads back as the double, except that of the negative zero, which `String` writes as `0`; the text is
   * never one that JSON would escape.
   */
  ghost predicate Faithful<D(!new)>(ds: Doubles<D>) {
    && (forall d :: !ds.isNaN(d) && d != ds.negativeZero ==> ds.number(ds.text(d)) == d)
    && !ds.isNaN(ds.negativeZero)
    && ds.number("-0") == ds.negativeZero
    && (forall d :: Plain(ds.text(d)))
  }

  // ----- the decimal text of a 64-bit integer

  const INT64_MIN: int := -0x8000_0000_0000_0000
  const INT64_MAX: int := 0x7fff_ffff_ffff_ffff

  /** `INT64_TEXT`: `0`, or up to 19 digits that start with no zero, with or without a minus sign. */
  predicate MatchesInt64(t: string) {
    var digits := if t != [] && t[0] == '-' then t[1..] else t;
    t == "0" || (1 <= |digits| <= 19 && AllDigits(digits) && digits[0] != '0')
  }

  function BigInt(t: string): int
    requires MatchesInt64(t)
  {
    var n: int := DecimalValue(if t[0] == '-' then t[1..] else t);
    if t[0] == '-' then -n else n
  }

  /** `isInt64Text`. */
  predicate IsInt64Text(t: string) {
    MatchesInt64(t) && INT64_MIN <= BigInt(t) <= INT64_MAX
  }

  function IntText(n: int): string {
    if n < 0 then "-" + Decimal(-n) else Decimal(n)
  }

  function Pow10(k: nat): nat {
    if k == 0 then 1 else 10 * Pow10(k - 1)
  }

  lemma {:induction false} DecimalIsShort(n: nat, k: nat)
    requires k >= 1 && n < Pow10(k)
    ensures |Decimal(n)| <= k
  {
    if n >= 10 {
      DecimalIsShort(n / 10, k - 1);
    }
  }

  lemma Pow10Of19()
    ensures Pow10(19) == 10_000_000_000_000_000_000
  {
    assert Pow10(5) == 100_000;
    assert Pow10(10) == 10_000_000_000;
    assert Pow10(15) == 1_000_000_000_000_000;
  }

  lemma IntTextReads(n: int)
    requires INT64_MIN <= n <= INT64_MAX
    ensures IsInt64Text(IntText(n)) && BigInt(IntText(n)) == n
  {
    var m := if n < 0 then -n else n;
    Pow10Of19();
    DecimalIsShort(m, 19);
    DecimalReads(m);
    hide Decimal, DecimalValue, Pow10;
    if n < 0 {
      assert IntText(n)[1..] == Decimal(m);
    } else if n == 0 {
      assert Decimal(0) == "0" by {
        DecimalWrites("0");
        assert DecimalValue("0") == 0 by { ZeroValue(); }
      }
    } else {
      assert Decimal(m)[0] != '-';
    }
  }

  lemma ZeroValue()
    ensures DecimalValue("0") == 0
  {
    assert "0"[..0] == [];
  }

  lemma IntTextWrites(t: string)
    requires IsInt64Text(t)
    ensures IntText(BigInt(t)) == t
  {
    hide Decimal, DecimalValue;
    if t[0] == '-' {
      DecimalWrites(t[1..]);
      assert t == "-" + t[1..];
    } else {
      DecimalWrites(t);
    }
  }

  /** The integers that travel are exactly the decimal texts of the 64-bit integers, one text for each. */
  lemma Int64TextIff(t: string)
    ensures IsInt64Text(t) <==> exists n :: INT64_MIN <= n <= INT64_MAX && t == IntText(n)
  {
    hide MatchesInt64, BigInt;
    if IsInt64Text(t) {
      IntTextWrites(t);
    }
    if n :| INT64_MIN <= n <= INT64_MAX && t == IntText(n) {
      IntTextReads(n);
    }
  }

  // ----- values

  predicate IsUpperHex(c: char) {
    IsDigit(c) || 'A' <= c <= 'F'
  }

  /** `isBytesHex`. */
  predicate IsBytesHex(s: string) {
    |s| % 2 == 0 && forall i :: 0 <= i < |s| ==> IsUpperHex(s[i])
  }

  predicate Valid<D>(ds: Doubles<D>, v: Value<D>) {
    match v
    case Null => true
    case Integer(text) => IsInt64Text(text)
    case Real(d) => !ds.isNaN(d)
    case Text(hex) => IsBytesHex(hex)
    case Blob(hex) => IsBytesHex(hex)
  }

  /** `realText`. */
  function RealText<D(==)>(ds: Doubles<D>, d: D): string {
    if d == ds.negativeZero then "-0" else ds.text(d)
  }

  /** `encodeValue`, where `None` is SQL's NULL; it throws on a value that is not valid. */
  function EncodeValue<D(==)>(ds: Doubles<D>, v: Value<D>): Option<string>
    requires Valid(ds, v)
  {
    match v
    case Null => None
    case Integer(text) => Some("i:" + text)
    case Real(d) => Some("r:" + RealText(ds, d))
    case Text(hex) => Some("t:" + hex)
    case Blob(hex) => Some("b:" + hex)
  }

  /** `readValue`; `None` is a value outside the rules. */
  function ReadTagged<D(==)>(ds: Doubles<D>, raw: Json): Option<Value<D>> {
    match raw
    case Null => Some(Value.Null)
    case Str(s) =>
      if |s| < 2 then None
      else
        var tag, text := s[..2], s[2..];
        if tag == "i:" then if IsInt64Text(text) then Some(Integer(text)) else None
        else if tag == "r:" then
          var d := ds.number(text);
          if !ds.isNaN(d) && RealText(ds, d) == text then Some(Real(d)) else None
        else if tag == "t:" then if IsBytesHex(text) then Some(Value.Text(text)) else None
        else if tag == "b:" then if IsBytesHex(text) then Some(Blob(text)) else None
        else None
    case _ => None
  }

  /** The JSON value a valid value is written as. */
  function Tagged<D(==)>(ds: Doubles<D>, v: Value<D>): Json
    requires Valid(ds, v)
  {
    match EncodeValue(ds, v)
    case None => Json.Null
    case Some(s) => Str(s)
  }

  lemma ValueReads<D(!new)>(ds: Doubles<D>, v: Value<D>)
    requires Faithful(ds) && Valid(ds, v)
    ensures ReadTagged(ds, Tagged(ds, v)) == Some(v)
  {
    hide IsInt64Text, IsBytesHex, Plain;
    match v
    case Null =>
    case Integer(text) => assert ("i:" + text)[..2] == "i:" && ("i:" + text)[2..] == text;
    case Real(d) =>
      var text := RealText(ds, d);
      assert ("r:" + text)[..2] == "r:" && ("r:" + text)[2..] == text;
    case Text(hex) => assert ("t:" + hex)[..2] == "t:" && ("t:" + hex)[2..] == hex;
    case Blob(hex) => assert ("b:" + hex)[..2] == "b:" && ("b:" + hex)[2..] == hex;
  }

  lemma ReadIsValid<D>(ds: Doubles<D>, raw: Json)
    ensures ReadTagged(ds, raw).Some? ==> Valid(ds, ReadTagged(ds, raw).value)
  {
    hide IsInt64Text, IsBytesHex;
  }

  /** What is read from an array is a valid row, whatever the array holds. */
  lemma {:induction false} RowIsValid<D>(ds: Doubles<D>, items: seq<Json>)
    ensures ReadItemsFrom(ds, items).Some? ==> ValidRow(ds, ReadItemsFrom(ds, items).value)
  {
    hide ReadTagged, Valid;
    if items != [] {
      RowIsValid(ds, items[..|items| - 1]);
      ReadIsValid(ds, items[|items| - 1]);
    }
  }

  lemma TaggedIsPlain<D(!new)>(ds: Doubles<D>, v: Value<D>)
    requires Faithful(ds) && Valid(ds, v)
    ensures EncodeValue(ds, v).Some? ==> Plain(EncodeValue(ds, v).value)
  {
    if v.Integer? {
      assert forall i :: 1 <= i < |v.text| ==> IsDigit(v.text[i]) by {
        if v.text[0] == '-' {
          assert forall i :: 1 <= i < |v.text| ==> v.text[i] == v.text[1..][i - 1];
        }
      }
    }
  }

  // ----- rows

  predicate ValidRow<D>(ds: Doubles<D>, row: seq<Value<D>>) {
    forall i :: 0 <= i < |row| ==> Valid(ds, row[i])
  }

  /** `JSON.stringify` of `null` or of a text that needs no escape. */
  function ItemText<D(==)>(ds: Doubles<D>, v: Value<D>): string
    requires Valid(ds, v)
  {
    match EncodeValue(ds, v)
    case None => "null"
    case Some(s) => Quoted(s)
  }

  function ItemTexts<D(==)>(ds: Doubles<D>, row: seq<Value<D>>): (r: seq<string>)
    requires ValidRow(ds, row)
    ensures |r| == |row|
  {
    seq(|row|, i requires 0 <= i < |row| => ItemText(ds, row[i]))
  }

  function Items<D(==)>(ds: Doubles<D>, row: seq<Value<D>>): (r: seq<Json>)
    requires ValidRow(ds, row)
    ensures |r| == |row|
  {
    seq(|row|, i requires 0 <= i < |row| => Tagged(ds, row[i]))
  }

  /** `encodeOpsDumpRow`; `None` is its throw. */
  function EncodeRow<D(==)>(ds: Doubles<D>, row: seq<Value<D>>): Option<string> {
    if ValidRow(ds, row) then Some("[" + Join(ItemTexts(ds, row), ',') + "]") else None
  }

  /** What `readRowValues` reads from the items of an array. */
  function ReadItemsFrom<D(==)>(ds: Doubles<D>, items: seq<Json>): (r: Option<seq<Value<D>>>)
    ensures r.Some? ==> |r.value| == |items|
  {
    if items == [] then Some([])
    else
      var init, last := ReadItemsFrom(ds, items[..|items| - 1]), ReadTagged(ds, items[|items| - 1]);
      if init.None? || last.None? then None else Some(init.value + [last.value])
  }

  function RowOf<D(==)>(ds: Doubles<D>, raw: Json): Option<seq<Value<D>>> {
    if raw.Arr? then ReadItemsFrom(ds, raw.items) else None
  }

  /** `readRowValues`: one value that does not read refuses the row. */
  method ReadRowValues<D(==)>(ds: Doubles<D>, raw: Json) returns (row: Option<seq<Value<D>>>)
    ensures row == RowOf(ds, raw)
    ensures row.Some? ==> ValidRow(ds, row.value)
  {
    if !raw.Arr? {
      return None;
    }
    var values: seq<Value<D>> := [];
    for i := 0 to |raw.items|
      invariant ReadItemsFrom(ds, raw.items[..i]) == Some(values)
    {
      assert raw.items[..i + 1][..i] == raw.items[..i];
      var value := ReadTagged(ds, raw.items[i]);
      if value == None {
        RefusedStays(ds, raw.items, i);
        return None;
      }
      values := values + [value.value];
    }
    assert raw.items[..|raw.items|] == raw.items;
    RowIsValid(ds, raw.items);
    return Some(values);
  }

  lemma {:induction false} RefusedStays<D>(ds: Doubles<D>, items: seq<Json>, i: nat)
    requires i < |items| && ReadTagged(ds, items[i]) == None
    ensures ReadItemsFrom(ds, items) == None
  {
    if i < |items| - 1 {
      RefusedStays(ds, items[..|items| - 1], i);
    }
  }

  /** `decodeOpsDumpRow`: the row that the text is the encoding of, if it is one. */
  function DecodeRow<D(==)>(ds: Doubles<D>, text: string): Option<seq<Value<D>>> {
    match Parse(text)
    case None => None
    case Some(raw) =>
      var row := RowOf(ds, raw);
      if row.Some? && EncodeRow(ds, row.value) == Some(text) then row else None
  }

  lemma {:induction false} ItemsReadBack<D(!new)>(ds: Doubles<D>, row: seq<Value<D>>)
    requires Faithful(ds) && ValidRow(ds, row)
    ensures ReadItemsFrom(ds, Items(ds, row)) == Some(row)
  {
    hide Faithful, Valid, ReadTagged, Tagged;
    if row != [] {
      var last := |row| - 1;
      ItemsReadBack(ds, row[..last]);
      assert Items(ds, row)[..last] == Items(ds, row[..last]);
      ValueReads(ds, row[last]);
      assert row == row[..last] + [row[last]];
    }
  }

  lemma ItemWrites<D(!new)>(ds: Doubles<D>, v: Value<D>)
    requires Faithful(ds) && Valid(ds, v)
    ensures Writes(ItemText(ds, v), Tagged(ds, v)) && Starts(ItemText(ds, v))
  {
    TaggedIsPlain(ds, v);
    hide Plain, ReadValue, Faithful, Valid, EncodeValue;
    forall rest ensures Reads(ItemText(ds, v), Tagged(ds, v), rest) {
      match EncodeValue(ds, v)
      case None => NullReads(rest);
      case Some(s) => QuotedReads(s, rest);
    }
  }

  /** A valid row's text is read as its tagged values, whatever follows it. */
  lemma RowWrites<D(!new)>(ds: Doubles<D>, row: seq<Value<D>>)
    requires Faithful(ds) && ValidRow(ds, row)
    ensures Writes(EncodeRow(ds, row).value, Arr(Items(ds, row)))
  {
    hide Faithful, Valid, Writes, Starts, ItemText, Tagged;
    var texts, values := ItemTexts(ds, row), Items(ds, row);
    forall i | 0 <= i < |row| ensures Writes(texts[i], values[i]) && Starts(texts[i]) {
      ItemWrites(ds, row[i]);
    }
    ArrayReads(texts, values);
  }

  /** The texts that decode are exactly the encodings, each decoding to the one row it encodes. */
  lemma DecodesIffEncodes<D(!new)>(ds: Doubles<D>, text: string, row: seq<Value<D>>)
    requires Faithful(ds)
    ensures DecodeRow(ds, text) == Some(row) <==> EncodeRow(ds, row) == Some(text)
  {
    if EncodeRow(ds, row) == Some(text) {
      RowWrites(ds, row);
      hide Writes, Faithful, Parse, ReadItemsFrom;
      WrittenParses(text, Arr(Items(ds, row)));
      ItemsReadBack(ds, row);
    }
  }

  /** No two rows share an encoding, so a table hash sees every difference between rows. */
  lemma EncodingIsInjective<D(!new)>(ds: Doubles<D>, a: seq<Value<D>>, b: seq<Value<D>>)
    requires Faithful(ds) && ValidRow(ds, a) && EncodeRow(ds, a) == EncodeRow(ds, b)
    ensures a == b
  {
    hide DecodeRow, Faithful;
    var text := EncodeRow(ds, a).value;
    hide EncodeRow;
    DecodesIffEncodes(ds, text, a);
    DecodesIffEncodes(ds, text, b);
  }

  /** The documented form, on one row that holds a value of each kind. */
  lemma DocumentedForm<D(!new)>(ds: Doubles<D>)
    requires Faithful(ds)
    ensures EncodeRow(ds, [Value.Null, Integer("0"), Real(ds.negativeZero), Value.Text("41"), Blob("00FF")])
         == Some("[" + ("null" + "," + Quoted("i:0") + "," + Quoted("r:-0") + "," + Quoted("t:41") + "," + Quoted("b:00FF")) + "]")
  {
    var row := [Value.Null, Integer("0"), Real(ds.negativeZero), Value.Text("41"), Blob("00FF")];
    ZeroValue();
    assert IsInt64Text("0");
    assert "i:" + "0" == "i:0" && "r:" + "-0" == "r:-0" && "t:" + "41" == "t:41" && "b:" + "00FF" == "b:00FF";
    assert ItemText(ds, row[0]) == "null" && ItemText(ds, row[1]) == Quoted("i:0") && ItemText(ds, row[2]) == Quoted("r:-0");
    assert ItemText(ds, row[3]) == Quoted("t:41") && ItemText(ds, row[4]) == Quoted("b:00FF");
    hide Join, IsInt64Text, ItemText, Quoted;
    var t := ItemTexts(ds, row);
    assert t == [ItemText(ds, row[0]), ItemText(ds, row[1]), ItemText(ds, row[2]), ItemText(ds, row[3]), ItemText(ds, row[4])];
    FiveJoined(t);
  }

  lemma FiveJoined(t: seq<string>)
    requires |t| == 5
    ensures Join(t, ',') == t[0] + "," + t[1] + "," + t[2] + "," + t[3] + "," + t[4]
  {
    assert t[1..][1..] == t[2..] && t[2..][1..] == t[3..] && t[3..][1..] == t[4..];
    assert Join(t[4..], ',') == t[4];
    assert Join(t[3..], ',') == t[3] + "," + t[4];
    assert Join(t[2..], ',') == t[2] + "," + t[3] + "," + t[4];
    assert Join(t[1..], ',') == t[1] + "," + t[2] + "," + t[3] + "," + t[4];
  }

  predicate AllSpace(s: string) {
    forall i :: 0 <= i < |s| ==> IsSpace(s[i])
  }

  /** White space before a value changes nothing of what is read. */
  lemma {:induction false} SpaceWrites(space: string, text: string, value: Json)
    requires AllSpace(space) && Writes(text, value)
    ensures Writes(space + text, value)
  {
    if space == [] {
      assert space + text == text;
    } else {
      SpaceWrites(space[1..], text, value);
      hide Writes;
      OneSpaceWrites(space[0], space[1..] + text, value);
      assert space + text == [space[0]] + (space[1..] + text);
    }
  }

  lemma OneSpaceWrites(c: char, text: string, value: Json)
    requires IsSpace(c) && Writes(text, value)
    ensures Writes([c] + text, value)
  {
    forall rest ensures Reads([c] + text, value, rest) {
      assert Reads(text, value, rest);
      assert ([c] + text + rest)[1..] == text + rest;
      assert SkipSpace([c] + text + rest) == SkipSpace(text + rest);
    }
  }

  lemma {:induction false} SpaceThenText(space: string, text: string)
    requires AllSpace(space) && Starts(text)
    ensures SkipSpace(space + text) == text
  {
    if space == [] {
      assert space + text == text;
    } else {
      assert (space + text)[1..] == space[1..] + text;
      SpaceThenText(space[1..], text);
    }
  }

  lemma {:induction false} JoinedLonger(texts: seq<string>, i: nat, space: string)
    requires i < |texts|
    ensures |Join(texts[i := space + texts[i]], ',')| == |Join(texts, ',')| + |space|
  {
    var more := texts[i := space + texts[i]];
    if |texts| > 1 {
      if i == 0 {
        assert more[1..] == texts[1..];
      } else {
        assert more[1..] == texts[1..][i - 1 := space + texts[i]] && more[0] == texts[0];
        JoinedLonger(texts[1..], i - 1, space);
      }
    }
  }

  /** The encoding of a row with white space before its item `i`. */
  function Spaced<D(==)>(ds: Doubles<D>, row: seq<Value<D>>, i: nat, space: string): string
    requires ValidRow(ds, row) && i < |row|
  {
    "[" + Join(ItemTexts(ds, row)[i := space + ItemText(ds, row[i])], ',') + "]"
  }

  /** White space before any item of any row's encoding: the text parses to the row's own values and does not decode. */
  lemma OtherSpellingIsRefused<D(!new)>(ds: Doubles<D>, row: seq<Value<D>>, i: nat, space: string)
    requires Faithful(ds) && ValidRow(ds, row) && i < |row| && space != "" && AllSpace(space)
    ensures Parse(Spaced(ds, row, i, space)).Some? && RowOf(ds, Parse(Spaced(ds, row, i, space)).value) == Some(row)
    ensures DecodeRow(ds, Spaced(ds, row, i, space)) == None
  {
    SpacedParses(ds, row, i, space);
    ItemsReadBack(ds, row);
    JoinedLonger(ItemTexts(ds, row), i, space);
    hide Parse, ItemTexts, Items, ReadItemsFrom, Faithful, ValidRow, Join;
    assert |Spaced(ds, row, i, space)| > |EncodeRow(ds, row).value|;
  }

  lemma SpacedParses<D(!new)>(ds: Doubles<D>, row: seq<Value<D>>, i: nat, space: string)
    requires Faithful(ds) && ValidRow(ds, row) && i < |row| && AllSpace(space)
    ensures Parse(Spaced(ds, row, i, space)) == Some(Arr(Items(ds, row)))
  {
    hide Faithful, Valid, Writes, Starts, ItemText, Tagged, Parse, ReadItems, SkipSpace, AllSpace, Join;
    var texts, values := ItemTexts(ds, row), Items(ds, row);
    forall k | 0 <= k < |row| ensures Writes(texts[k], values[k]) && Starts(texts[k]) {
      ItemWrites(ds, row[k]);
    }
    SpaceWrites(space, texts[i], values[i]);
    var more := texts[i := space + texts[i]];
    assert WritesAll(more, values);
    ItemsRead(more, values, "");
    var inner := Join(more, ',') + "]";
    assert inner + "" == inner;
    SpacedStarts(more, texts, i, space);
    BracketsRead(inner, values);
    assert Spaced(ds, row, i, space) == "[" + inner;
  }

  /** The items of a spaced list start, after its white space, with no bracket that closes it. */
  lemma SpacedStarts(more: seq<string>, texts: seq<string>, i: nat, space: string)
    requires i < |texts| && more == texts[i := space + texts[i]] && AllSpace(space) && Starts(texts[0])
    ensures SkipSpace(Join(more, ',') + "]") != [] && SkipSpace(Join(more, ',') + "]")[0] != ']'
  {
    var rest := if |more| == 1 then "]" else [','] + Join(more[1..], ',') + "]";
    var front := if i == 0 then space else "";
    assert Join(more, ',') + "]" == front + (texts[0] + rest);
    SpaceThenText(front, texts[0] + rest);
  }

  // ----- lines

  datatype Line<D> = Line(table: string, row: seq<Value<D>>)

  /** `encodeOpsDumpLine`; `None` is its throw. */
  function EncodeLine<D(==)>(ds: Doubles<D>, line: Line<D>): Option<string> {
    if !DumpSchema.IsTableName(line.table) then None
    else
      match EncodeRow(ds, line.row)
      case None => None
      case Some(row) => Some("{" + (Member("table", Quoted(line.table)) + ("," + (Member("row", row) + "}"))))
  }

  /** The line an object with exactly the two keys describes. */
  function LineOf<D(==)>(ds: Doubles<D>, parsed: Json): Option<Line<D>> {
    if !parsed.Obj? || parsed.members.Keys != {"table", "row"} then None
    else
      var table, row := parsed.members["table"], RowOf(ds, parsed.members["row"]);
      if table.Str? && DumpSchema.IsTableName(table.text) && row.Some? then Some(Line(table.text, row.value)) else None
  }

  /** `decodeOpsDumpLine`. */
  function DecodeLine<D(==)>(ds: Doubles<D>, text: string): Option<Line<D>> {
    match Parse(text)
    case None => None
    case Some(parsed) =>
      var line := LineOf(ds, parsed);
      if line.Some? && EncodeLine(ds, line.value) == Some(text) then line else None
  }

  lemma NameWrites(table: string)
    requires DumpSchema.IsTableName(table)
    ensures Writes(Quoted(table), Str(table))
  {
    assert Plain(table);
    hide Plain, ReadValue;
    forall rest ensures Reads(Quoted(table), Str(table), rest) {
      QuotedReads(table, rest);
    }
  }

  lemma LineParses<D(!new)>(ds: Doubles<D>, line: Line<D>)
    requires Faithful(ds) && EncodeLine(ds, line).Some?
    ensures Parse(EncodeLine(ds, line).value) == Some(Obj(map["table" := Str(line.table), "row" := Arr(Items(ds, line.row))]))
  {
    NameWrites(line.table);
    RowWrites(ds, line.row);
    hide Writes, Faithful, Parse, Member, Items, ValidRow;
    assert "table" != "row" by { assert |"table"| != |"row"|; }
    ObjectReads("table", Quoted(line.table), Str(line.table), "row", EncodeRow(ds, line.row).value, Arr(Items(ds, line.row)));
  }

  /** The same of lines: exactly the written texts decode, each to its own table and row. */
  lemma LineDecodesIffEncodes<D(!new)>(ds: Doubles<D>, text: string, line: Line<D>)
    requires Faithful(ds)
    ensures DecodeLine(ds, text) == Some(line) <==> EncodeLine(ds, line) == Some(text)
  {
    if EncodeLine(ds, line) == Some(text) {
      LineParses(ds, line);
      ItemsReadBack(ds, line.row);
      hide Faithful, Parse, ReadItemsFrom, ValidRow, Member;
      assert "table" != "row" by { assert |"table"| != |"row"|; }
    }
  }
}
