/**
 * The two scanners that read a table's SQL, `sqlTokens` and `unquotedSql`, and `checkNamesOf` over the first one's
 * tokens. The functions read a suffix of the text; the methods are the source's index loops.
 */
module SqlScan {
  import opened Wrappers
  import opened Seqs
  import opened Text
  import opened DumpSchema

  datatype Token = Name(text: string, quoted: bool) | Open | Close | Other

  /** `/[A-Za-z0-9_$\u0080-\uffff]/`: a character past U+FFFF is two word characters in the source and one here. */
  predicate IsWordChar(c: char) {
    IsLetter(c) || IsDigit(c) || c == '_' || c == '$' || c as int >= 0x80
  }

  /** `/\s/` among the characters no word holds. */
  predicate IsBlank(c: char) {
    c == ' ' || 9 <= c as int <= 13
  }

  /** The character that ends the quote `c` opens. */
  function QuoteClose(c: char): Option<char> {
    if c == '\'' || c == '"' || c == '`' then Some(c)
    else if c == '[' then Some(']')
    else None
  }

  /** `s.indexOf(c)`. */
  function IndexOf(s: string, c: char): (k: Option<nat>)
    ensures k.Some? ==> k.value < |s| && s[k.value] == c && c !in s[..k.value]
    ensures k == None ==> c !in s
  {
    var k := FirstIndex(s, c);
    if k == |s| then None else Some(k)
  }

  /** `s.indexOf('*' + '/')`. */
  function IndexOfBlockEnd(s: string): (k: Option<nat>)
    ensures k.Some? ==> k.value + 1 < |s| && s[k.value] == '*' && s[k.value + 1] == '/'
  {
    if |s| < 2 then None
    else if s[0] == '*' && s[1] == '/' then Some(0)
    else
      var k := IndexOfBlockEnd(s[1..]);
      if k == None then None else Some(k.value + 1)
  }

  predicate StartsLine(s: string) {
    |s| >= 2 && s[0] == '-' && s[1] == '-'
  }

  predicate StartsBlock(s: string) {
    |s| >= 2 && s[0] == '/' && s[1] == '*'
  }

  /** What follows a line comment. */
  function AfterLine(s: string): (r: string)
    ensures |r| <= |s| && (s != [] ==> |r| < |s|)
  {
    match IndexOf(s, '\n')
    case None => []
    case Some(k) => s[k + 1..]
  }

  /** What follows a block comment whose body starts at `s`. */
  function AfterBlock(s: string): (r: Option<string>)
    ensures r.Some? ==> |r.value| < |s|
  {
    match IndexOfBlockEnd(s)
    case None => None
    case Some(k) => Some(s[k + 2..])
  }

  /** The text of a quote whose body starts at `s`, and what follows it; a doubled close stands for itself, but not `]`. */
  function ReadQuoted(s: string, close: char): (r: Option<(string, string)>)
    ensures r.Some? ==> |r.value.1| < |s|
    decreases |s|
  {
    match IndexOf(s, close)
    case None => None
    case Some(k) =>
      if close != ']' && k + 1 < |s| && s[k + 1] == close then
        match ReadQuoted(s[k + 2..], close)
        case None => None
        case Some(more) => Some((s[..k] + [close] + more.0, more.1))
      else
        Some((s[..k], s[k + 1..]))
  }

  /** What follows the quote, as `unquotedSql` skips it; nothing when it does not close. */
  function SkipQuoted(s: string, close: char): (r: string)
    ensures |r| <= |s|
    decreases |s|
  {
    match IndexOf(s, close)
    case None => []
    case Some(k) =>
      if close == ']' || !(k + 1 < |s| && s[k + 1] == close) then s[k + 1..] else SkipQuoted(s[k + 2..], close)
  }

  function WordLength(s: string): (n: nat)
    ensures n <= |s|
    ensures forall i :: 0 <= i < n ==> IsWordChar(s[i])
    ensures n < |s| ==> !IsWordChar(s[n])
  {
    if s == [] || !IsWordChar(s[0]) then 0 else 1 + WordLength(s[1..])
  }

  /** The token of a character that starts no comment, quote or word. */
  function Mark(c: char): seq<Token> {
    if c == '(' then [Open] else if c == ')' then [Close] else if IsBlank(c) then [] else [Other]
  }

  function Prepend(first: seq<Token>, rest: Option<seq<Token>>): Option<seq<Token>> {
    match rest
    case None => None
    case Some(tokens) => Some(first + tokens)
  }

  /** `sqlTokens`. */
  function Tokens(s: string): Option<seq<Token>>
    decreases |s|
  {
    if s == [] then Some([])
    else if StartsLine(s) then Tokens(AfterLine(s))
    else if StartsBlock(s) then
      match AfterBlock(s[2..])
      case None => None
      case Some(rest) => Tokens(rest)
    else if QuoteClose(s[0]).Some? then
      match ReadQuoted(s[1..], QuoteClose(s[0]).value)
      case None => None
      case Some(read) => Prepend(if s[0] != '\'' then [Name(read.0, true)] else [], Tokens(read.1))
    else if IsWordChar(s[0]) then
      var n := WordLength(s);
      Prepend([Name(s[..n], false)], Tokens(s[n..]))
    else
      Prepend(Mark(s[0]), Tokens(s[1..]))
  }

  /** `unquotedSql`. */
  function Unquoted(s: string): string
    decreases |s|
  {
    if s == [] then []
    else if QuoteClose(s[0]).Some? then " " + Unquoted(SkipQuoted(s[1..], QuoteClose(s[0]).value))
    else if StartsLine(s) then " " + Unquoted(AfterLine(s))
    else if StartsBlock(s) then
      match AfterBlock(s[2..])
      case None => " "
      case Some(rest) => " " + Unquoted(rest)
    else [s[0]] + Unquoted(s[1..])
  }

  // ----- the scanners agree

  lemma {:induction false} SkipAgrees(s: string, close: char)
    requires ReadQuoted(s, close).Some?
    ensures SkipQuoted(s, close) == ReadQuoted(s, close).value.1
    decreases |s|
  {
    var k := IndexOf(s, close).value;
    if close != ']' && k + 1 < |s| && s[k + 1] == close {
      SkipAgrees(s[k + 2..], close);
    }
  }

  /** A blank is dropped. */
  lemma BlankDrops(s: string)
    ensures Tokens(" " + s) == Tokens(s)
  {
    assert (" " + s)[1..] == s;
    if Tokens(s).Some? {
      assert [] + Tokens(s).value == Tokens(s).value;
    }
  }

  predicate IsPlain(t: Token) {
    !(t.Name? && t.quoted)
  }

  /** The first character of the blanked text is a blank or the text's own first character, copied. */
  lemma UnquotedHead(s: string)
    ensures Unquoted(s) == [] <==> s == []
    ensures s != [] ==> Unquoted(s)[0] == ' ' || (Unquoted(s)[0] == s[0] && QuoteClose(s[0]) == None && !StartsLine(s) && !StartsBlock(s))
  {
  }

  lemma WordHead(s: string)
    requires s != [] && IsWordChar(s[0])
    ensures Unquoted(s) == [s[0]] + Unquoted(s[1..])
  {
  }

  lemma {:induction false} WordCopies(s: string, n: nat)
    requires n <= |s| && forall i :: 0 <= i < n ==> IsWordChar(s[i])
    ensures Unquoted(s) == s[..n] + Unquoted(s[n..])
  {
    hide Unquoted;
    if n == 0 {
      assert s[0..] == s;
    } else {
      WordCopies(s[1..], n - 1);
      WordHead(s);
      assert s[1..][n - 1..] == s[n..];
      assert s[..n] == [s[0]] + s[1..][..n - 1];
    }
  }

  lemma {:induction false} WordLengthIs(w: string, s: string)
    requires forall i :: 0 <= i < |w| ==> IsWordChar(w[i])
    requires s != [] ==> !IsWordChar(s[0])
    ensures WordLength(w + s) == |w|
  {
    if w == [] {
      assert w + s == s;
    } else {
      WordLengthIs(w[1..], s);
      assert (w + s)[1..] == w[1..] + s;
    }
  }

  lemma WordScans(s: string)
    requires s != [] && IsWordChar(s[0])
    ensures var n := WordLength(s); n > 0 && Tokens(Unquoted(s)) == Prepend([Name(s[..n], false)], Tokens(Unquoted(s[n..])))
  {
    var n := WordLength(s);
    var rest := Unquoted(s[n..]);
    WordCopies(s, n);
    UnquotedHead(s[n..]);
    WordLengthIs(s[..n], rest);
    var all := s[..n] + rest;
    assert all[0] == s[0] && all[..n] == s[..n] && all[n..] == rest;
    assert !StartsLine(all) && !StartsBlock(all);
  }

  lemma MarkScans(s: string)
    requires s != [] && QuoteClose(s[0]) == None && !IsWordChar(s[0]) && !StartsLine(s) && !StartsBlock(s)
    ensures Tokens(Unquoted(s)) == Prepend(Mark(s[0]), Tokens(Unquoted(s[1..])))
  {
    var rest := Unquoted(s[1..]);
    UnquotedHead(s[1..]);
    var all := [s[0]] + rest;
    assert all[1..] == rest;
    assert all[0] == s[0] && (|all| > 1 ==> all[1] == rest[0]);
    assert !StartsLine(all) && !StartsBlock(all);
  }

  /** `Tokens(s)` without its quoted names. */
  ghost predicate Agrees(s: string) {
    Tokens(s).Some? ==> Tokens(Unquoted(s)) == Some(Filter(IsPlain, Tokens(s).value))
  }

  lemma Prepended(s: string, first: seq<Token>, plain: seq<Token>, rest: string)
    requires |first| <= 1 && plain == Filter(IsPlain, first) && Agrees(rest)
    requires Tokens(s) == Prepend(first, Tokens(rest))
    requires Tokens(Unquoted(s)) == Prepend(plain, Tokens(Unquoted(rest)))
    ensures Agrees(s)
  {
    if Tokens(rest).Some? {
      FilterSplits(IsPlain, first, Tokens(rest).value);
    }
  }

  lemma QuoteScans(s: string)
    requires s != [] && !StartsLine(s) && !StartsBlock(s) && QuoteClose(s[0]).Some?
    requires ReadQuoted(s[1..], QuoteClose(s[0]).value).Some?
    ensures var rest := ReadQuoted(s[1..], QuoteClose(s[0]).value).value.1;
            Agrees(rest) ==> Agrees(s)
  {
    var close := QuoteClose(s[0]).value;
    var read := ReadQuoted(s[1..], close).value;
    SkipAgrees(s[1..], close);
    BlankDrops(Unquoted(read.1));
    if Agrees(read.1) {
      var first := if s[0] != '\'' then [Name(read.0, true)] else [];
      PrependNothing(Tokens(Unquoted(read.1)));
      Prepended(s, first, [], read.1);
    }
  }

  lemma PrependNothing(rest: Option<seq<Token>>)
    ensures Prepend([], rest) == rest
  {
    if rest.Some? {
      assert [] + rest.value == rest.value;
    }
  }

  /** Where the text scans, the blanked text scans to the same tokens without the quoted names. */
  lemma {:induction false} ScannersAgree(s: string)
    ensures Tokens(s).Some? ==> Tokens(Unquoted(s)) == Some(Filter(IsPlain, Tokens(s).value))
    decreases |s|
  {
    if s == [] {
    } else if StartsLine(s) {
      ScannersAgree(AfterLine(s));
      BlankDrops(Unquoted(AfterLine(s)));
    } else if StartsBlock(s) {
      if AfterBlock(s[2..]).Some? {
        ScannersAgree(AfterBlock(s[2..]).value);
        BlankDrops(Unquoted(AfterBlock(s[2..]).value));
      }
    } else if QuoteClose(s[0]).Some? {
      if ReadQuoted(s[1..], QuoteClose(s[0]).value).Some? {
        ScannersAgree(ReadQuoted(s[1..], QuoteClose(s[0]).value).value.1);
        QuoteScans(s);
      }
    } else if IsWordChar(s[0]) {
      WordScans(s);
      ScannersAgree(s[WordLength(s)..]);
      Prepended(s, [Name(s[..WordLength(s)], false)], [Name(s[..WordLength(s)], false)], s[WordLength(s)..]);
    } else {
      MarkScans(s);
      ScannersAgree(s[1..]);
      Prepended(s, Mark(s[0]), Mark(s[0]), s[1..]);
    }
  }

  // ----- the blanked text holds nothing quoted

  /** No quote opens and no comment starts anywhere in `s`. */
  ghost predicate IsBare(s: string) {
    forall i :: 0 <= i < |s| ==> QuoteClose(s[i]) == None && !StartsLine(s[i..]) && !StartsBlock(s[i..])
  }

  lemma BareCons(c: char, s: string)
    requires IsBare(s) && QuoteClose(c) == None && !StartsLine([c] + s) && !StartsBlock([c] + s)
    ensures IsBare([c] + s)
  {
    var all := [c] + s;
    forall i | 0 <= i < |all| ensures QuoteClose(all[i]) == None && !StartsLine(all[i..]) && !StartsBlock(all[i..]) {
      if i > 0 {
        assert all[i..] == s[i - 1..];
      } else {
        assert all[0..] == all;
      }
    }
  }

  /** A keyword found in the blanked text is none of a quote or a comment: it has neither. */
  lemma {:induction false} UnquotedIsBare(s: string)
    ensures IsBare(Unquoted(s))
    decreases |s|
  {
    if s == [] {
    } else if QuoteClose(s[0]).Some? {
      var rest := SkipQuoted(s[1..], QuoteClose(s[0]).value);
      UnquotedIsBare(rest);
      BareCons(' ', Unquoted(rest));
    } else if StartsLine(s) {
      UnquotedIsBare(AfterLine(s));
      BareCons(' ', Unquoted(AfterLine(s)));
    } else if StartsBlock(s) {
      if AfterBlock(s[2..]).Some? {
        UnquotedIsBare(AfterBlock(s[2..]).value);
        BareCons(' ', Unquoted(AfterBlock(s[2..]).value));
      }
    } else {
      UnquotedIsBare(s[1..]);
      UnquotedHead(s[1..]);
      BareCons(s[0], Unquoted(s[1..]));
    }
  }

  lemma {:induction false} BareStays(s: string)
    requires IsBare(s)
    ensures Unquoted(s) == s
  {
    if s != [] {
      assert s[0..] == s;
      forall i | 0 <= i < |s[1..]| ensures QuoteClose(s[1..][i]) == None && !StartsLine(s[1..][i..]) && !StartsBlock(s[1..][i..]) {
        assert s[1..][i..] == s[i + 1..];
      }
      BareStays(s[1..]);
      assert s == [s[0]] + s[1..];
    }
  }

  /** Blanking twice is blanking once. */
  lemma UnquotedTwice(s: string)
    ensures Unquoted(Unquoted(s)) == Unquoted(s)
  {
    UnquotedIsBare(s);
    BareStays(Unquoted(s));
  }

  // ----- the scanners' loops

  function Rest(sql: string, at: nat): (r: string)
    requires at <= |sql|
    ensures |r| == |sql| - at
  {
    sql[at..]
  }

  /** `sql.slice(start, end)`. */
  function Slice(sql: string, start: nat, end: nat): string
    requires start <= end <= |sql|
  {
    sql[start..end]
  }

  /** `sql.indexOf(c, start)`. */
  function IndexFrom(sql: string, c: char, start: nat): (k: Option<nat>)
    requires start <= |sql|
    ensures k.Some? ==> start <= k.value < |sql|
  {
    match IndexOf(Rest(sql, start), c)
    case None => None
    case Some(n) => Some(start + n)
  }

  function Quoting(text: string, more: Option<(string, string)>): Option<(string, string)> {
    match more
    case None => None
    case Some(read) => Some((text + read.0, read.1))
  }

  lemma QuotingTwice(a: string, b: string, more: Option<(string, string)>)
    ensures Quoting(a, Quoting(b, more)) == Quoting(a + b, more)
  {
    if more.Some? {
      assert a + (b + more.value.0) == a + b + more.value.0;
    }
  }

  /** One turn of the quote's loop. */
  lemma QuoteStep(sql: string, at: nat, close: char)
    requires at <= |sql|
    ensures var found := IndexFrom(sql, close, at);
            ReadQuoted(Rest(sql, at), close) ==
              if found == None then None
              else if close != ']' && found.value + 1 < |sql| && sql[found.value + 1] == close then
                Quoting(Slice(sql, at, found.value) + [close], ReadQuoted(Rest(sql, found.value + 2), close))
              else Some((Slice(sql, at, found.value), Rest(sql, found.value + 1)))
  {
    hide IndexOf, Rest, Slice;
    var found := IndexFrom(sql, close, at);
    if found.Some? {
      PartsOf(sql, at, found.value - at);
    }
  }

  lemma SkipQuoteStep(sql: string, at: nat, close: char)
    requires at <= |sql|
    ensures var found := IndexFrom(sql, close, at);
            SkipQuoted(Rest(sql, at), close) ==
              if found == None then []
              else if close == ']' || !(found.value + 1 < |sql| && sql[found.value + 1] == close) then Rest(sql, found.value + 1)
              else SkipQuoted(Rest(sql, found.value + 2), close)
  {
    hide IndexOf, Rest, Slice;
    var found := IndexFrom(sql, close, at);
    if found.Some? {
      PartsOf(sql, at, found.value - at);
    }
  }

  /** A stretch of `sql`, from its own start and from that of `sql`. */
  lemma PartsOf(sql: string, at: nat, k: nat)
    requires at + k < |sql|
    ensures Rest(sql, at)[..k] == Slice(sql, at, at + k) && Rest(sql, at)[k + 1..] == Rest(sql, at + k + 1)
    ensures at + k + 1 < |sql| ==> Rest(sql, at)[k + 1] == sql[at + k + 1] && Rest(sql, at)[k + 2..] == Rest(sql, at + k + 2)
  {
  }

  /** The body of a quote from `start`: its text and the index after its close. */
  method ScanQuote(sql: string, start: nat, close: char) returns (text: string, end: Option<nat>)
    requires start <= |sql|
    ensures end.Some? ==> start < end.value <= |sql|
    ensures ReadQuoted(Rest(sql, start), close) == if end == None then None else Some((text, Rest(sql, end.value)))
  {
    hide *;
    var at := start;
    text := [];
    QuotingNothing(ReadQuoted(Rest(sql, start), close));
    while true
      invariant start <= at <= |sql|
      invariant ReadQuoted(Rest(sql, start), close) == Quoting(text, ReadQuoted(Rest(sql, at), close))
      decreases |sql| - at
    {
      QuoteStep(sql, at, close);
      var found := IndexFrom(sql, close, at);
      if found == None {
        QuotingRead(text, [], []);
        return text, None;
      }
      var next := found.value;
      if close != ']' && next + 1 < |sql| && sql[next + 1] == close {
        QuotingTwice(text, Slice(sql, at, next) + [close], ReadQuoted(Rest(sql, next + 2), close));
        text := text + (Slice(sql, at, next) + [close]);
        at := next + 2;
      } else {
        QuotingRead(text, Slice(sql, at, next), Rest(sql, next + 1));
        return text + Slice(sql, at, next), Some(next + 1);
      }
    }
  }

  lemma QuotingNothing(more: Option<(string, string)>)
    ensures Quoting([], more) == more
  {
    if more.Some? {
      assert [] + more.value.0 == more.value.0;
    }
  }

  lemma QuotingRead(text: string, read: string, rest: string)
    ensures Quoting(text, None) == None && Quoting(text, Some((read, rest))) == Some((text + read, rest))
  {
  }

  lemma PrependTwice(a: seq<Token>, b: seq<Token>, rest: Option<seq<Token>>)
    ensures Prepend(a, Prepend(b, rest)) == Prepend(a + b, rest)
  {
    if rest.Some? {
      assert a + (b + rest.value) == a + b + rest.value;
    }
  }

  /** The index after the comment that starts at `index`. */
  method SkipComment(sql: string, index: nat) returns (end: Option<nat>)
    requires index < |sql| && (StartsLine(sql[index..]) || StartsBlock(sql[index..]))
    ensures end.Some? ==> index < end.value <= |sql|
    ensures end == None <==> StartsBlock(sql[index..]) && AfterBlock(sql[index..][2..]) == None
    ensures end.Some? ==> sql[end.value..] == if StartsLine(sql[index..]) then AfterLine(sql[index..]) else AfterBlock(sql[index..][2..]).value
  {
    if sql[index] == '-' {
      var k := IndexOf(sql[index..], '\n');
      if k == None {
        return Some(|sql|);
      }
      DropTwice(sql, index, k.value + 1);
      return Some(index + k.value + 1);
    }
    DropTwice(sql, index, 2);
    var k := IndexOfBlockEnd(sql[index + 2..]);
    if k == None {
      return None;
    }
    DropTwice(sql, index + 2, k.value + 2);
    return Some(index + 2 + k.value + 2);
  }

  method ScanWord(sql: string, index: nat) returns (end: nat)
    requires index < |sql| && IsWordChar(sql[index])
    ensures index < end <= |sql| && end - index == WordLength(sql[index..])
    ensures sql[index..][..end - index] == sql[index..end] && sql[index..][end - index..] == sql[end..]
  {
    end := index + 1;
    while end < |sql| && IsWordChar(sql[end])
      invariant index < end <= |sql|
      invariant forall i :: index <= i < end ==> IsWordChar(sql[i])
    {
      end := end + 1;
    }
    WordLengthIs(sql[index..end], sql[end..]);
    assert sql[index..] == sql[index..end] + sql[end..];
    DropTwice(sql, index, end - index);
  }

  /** What one turn of the tokenizer's loop reads at `index`. */
  method NextToken(sql: string, index: nat) returns (found: seq<Token>, end: Option<nat>)
    requires index < |sql|
    ensures end.Some? ==> index < end.value <= |sql|
    ensures Tokens(sql[index..]) == if end == None then None else Prepend(found, Tokens(sql[end.value..]))
  {
    found := [];
    var c := sql[index];
    assert sql[index..][0] == c && (index + 1 < |sql| ==> sql[index..][1] == sql[index + 1]);
    if index + 1 < |sql| && ((c == '-' && sql[index + 1] == '-') || (c == '/' && sql[index + 1] == '*')) {
      end := SkipComment(sql, index);
      if end.Some? {
        PrependNothing(Tokens(sql[end.value..]));
      }
    } else if QuoteClose(c).Some? {
      var text;
      DropTwice(sql, index, 1);
      text, end := ScanQuote(sql, index + 1, QuoteClose(c).value);
      if c != '\'' {
        found := [Name(text, true)];
      }
    } else if IsWordChar(c) {
      var stop := ScanWord(sql, index);
      found, end := [Name(sql[index..stop], false)], Some(stop);
    } else {
      DropTwice(sql, index, 1);
      if c == '(' {
        found := [Open];
      } else if c == ')' {
        found := [Close];
      } else if !IsBlank(c) {
        found := [Other];
      }
      end := Some(index + 1);
    }
  }

  method SqlTokens(sql: string) returns (tokens: Option<seq<Token>>)
    ensures tokens == Tokens(sql)
  {
    var found: seq<Token> := [];
    var index := 0;
    PrependNothing(Tokens(sql));
    assert sql[0..] == sql;
    while index < |sql|
      invariant 0 <= index <= |sql|
      invariant Tokens(sql) == Prepend(found, Tokens(sql[index..]))
    {
      var next, end := NextToken(sql, index);
      if end == None {
        return None;
      }
      PrependTwice(found, next, Tokens(sql[end.value..]));
      found := found + next;
      index := end.value;
    }
    assert found + [] == found;
    tokens := Some(found);
  }

  /** The index after the quote whose body starts at `start`. */
  method SkipQuote(sql: string, start: nat, close: char) returns (end: nat)
    requires start <= |sql|
    ensures start <= end <= |sql| && Rest(sql, end) == SkipQuoted(Rest(sql, start), close)
  {
    hide *;
    end := start;
    while true
      invariant start <= end <= |sql|
      invariant SkipQuoted(Rest(sql, start), close) == SkipQuoted(Rest(sql, end), close)
      decreases |sql| - end
    {
      SkipQuoteStep(sql, end, close);
      var found := IndexFrom(sql, close, end);
      if found == None {
        NothingRests(sql);
        return |sql|;
      }
      if close == ']' || !(found.value + 1 < |sql| && sql[found.value + 1] == close) {
        return found.value + 1;
      }
      end := found.value + 2;
    }
  }

  lemma NothingRests(sql: string)
    ensures Rest(sql, |sql|) == []
  {
  }

  /** What one turn of the blanking loop writes at `index`. */
  method NextBare(sql: string, index: nat) returns (out: char, end: nat)
    requires index < |sql|
    ensures index < end <= |sql| && Unquoted(sql[index..]) == [out] + Unquoted(sql[end..])
  {
    var c := sql[index];
    assert sql[index..][0] == c && (index + 1 < |sql| ==> sql[index..][1] == sql[index + 1]);
    out := ' ';
    if QuoteClose(c).Some? {
      DropTwice(sql, index, 1);
      end := SkipQuote(sql, index + 1, QuoteClose(c).value);
    } else if index + 1 < |sql| && ((c == '-' && sql[index + 1] == '-') || (c == '/' && sql[index + 1] == '*')) {
      var after := SkipComment(sql, index);
      end := if after == None then |sql| else after.value;
    } else {
      DropTwice(sql, index, 1);
      out, end := c, index + 1;
    }
  }

  method UnquotedSql(sql: string) returns (out: string)
    ensures out == Unquoted(sql)
  {
    out := "";
    var index := 0;
    assert sql[0..] == sql;
    while index < |sql|
      invariant 0 <= index <= |sql|
      invariant Unquoted(sql) == out + Unquoted(sql[index..])
    {
      var c, end := NextBare(sql, index);
      assert out + ([c] + Unquoted(sql[end..])) == out + [c] + Unquoted(sql[end..]);
      out := out + [c];
      index := end;
    }
  }

  // ----- checkNamesOf

  /** The index of the parenthesis that closes the region open `depth` deep at `i`. */
  function CloseOf(tokens: seq<Token>, i: nat, depth: nat): (end: Option<nat>)
    requires i <= |tokens|
    ensures end.Some? ==> i <= end.value < |tokens|
    decreases |tokens| - i
  {
    if i == |tokens| then None
    else match tokens[i]
      case Open => CloseOf(tokens, i + 1, depth + 1)
      case Close => if depth <= 1 then Some(i) else CloseOf(tokens, i + 1, depth - 1)
      case _ => CloseOf(tokens, i + 1, depth)
  }

  /** A `CHECK` keyword whose clause opens at the next token. */
  predicate IsCheck(tokens: seq<Token>, k: nat) {
    && k + 1 < |tokens| && tokens[k].Name? && !tokens[k].quoted && AsciiLower(tokens[k].text) == "check" && tokens[k + 1].Open?
  }

  function NamesIn(tokens: seq<Token>, from: nat, end: nat): seq<string>
    requires from <= end <= |tokens|
    decreases end - from
  {
    if from == end then []
    else if tokens[from].Name? then [AsciiLower(tokens[from].text)] + NamesIn(tokens, from + 1, end)
    else NamesIn(tokens, from + 1, end)
  }

  /** The names of the `CHECK` clauses from `index` on, skipping past each clause. */
  function CheckNamesFrom(tokens: seq<Token>, index: nat): Option<seq<string>>
    requires index <= |tokens|
    decreases |tokens| - index
  {
    if index == |tokens| then Some([])
    else if !IsCheck(tokens, index) then CheckNamesFrom(tokens, index + 1)
    else match CloseOf(tokens, index + 1, 0)
      case None => None
      case Some(end) =>
        Onto(NamesIn(tokens, index + 1, end), CheckNamesFrom(tokens, end + 1))
  }

  function Onto(first: seq<string>, rest: Option<seq<string>>): Option<seq<string>> {
    match rest
    case None => None
    case Some(names) => Some(first + names)
  }

  lemma OntoTwice(a: seq<string>, b: seq<string>, rest: Option<seq<string>>)
    ensures Onto(a, Onto(b, rest)) == Onto(a + b, rest)
  {
    if rest.Some? {
      assert a + (b + rest.value) == a + b + rest.value;
    }
  }

  lemma OntoNothing(rest: Option<seq<string>>)
    ensures Onto([], rest) == rest
  {
    if rest.Some? {
      assert [] + rest.value == rest.value;
    }
  }

  function CheckNames(sql: string): Option<seq<string>> {
    match Tokens(sql)
    case None => None
    case Some(tokens) => CheckNamesFrom(tokens, 0)
  }

  /** The clause whose parenthesis is at `start`: its names, and the index of its close, `|tokens|` for none. */
  method ScanClause(tokens: seq<Token>, start: nat) returns (names: seq<string>, end: nat)
    requires start < |tokens| && tokens[start].Open?
    ensures end <= |tokens|
    ensures CloseOf(tokens, start, 0) == if end == |tokens| then None else Some(end)
    ensures end < |tokens| ==> start <= end && names == NamesIn(tokens, start, end)
  {
    var depth: nat := 0;
    names, end := [], start;
    while end < |tokens|
      invariant start <= end <= |tokens|
      invariant depth == 0 <==> end == start
      invariant CloseOf(tokens, start, 0) == CloseOf(tokens, end, depth)
      invariant names == NamesIn(tokens, start, end)
    {
      NamesInSnoc(tokens, start, end);
      match tokens[end] {
        case Open =>
          depth := depth + 1;
        case Close =>
          depth := depth - 1;
          if depth == 0 {
            return;
          }
        case Name(text, _) =>
          names := names + [AsciiLower(text)];
        case Other =>
      }
      end := end + 1;
    }
  }

  lemma {:induction false} NamesInSnoc(tokens: seq<Token>, from: nat, end: nat)
    requires from <= end < |tokens|
    ensures NamesIn(tokens, from, end + 1) == NamesIn(tokens, from, end) + (if tokens[end].Name? then [AsciiLower(tokens[end].text)] else [])
    decreases end - from
  {
    if from < end {
      NamesInSnoc(tokens, from + 1, end);
    }
  }

  method CheckNamesOf(sql: string) returns (names: Option<seq<string>>)
    ensures names == CheckNames(sql)
  {
    hide *;
    var scanned := SqlTokens(sql);
    NamesOfTokens(sql);
    if scanned == None {
      return None;
    }
    var tokens := scanned.value;
    var found: seq<string> := [];
    var index := 0;
    OntoNothing(CheckNamesFrom(tokens, 0));
    while index < |tokens|
      invariant 0 <= index <= |tokens|
      invariant CheckNamesFrom(tokens, 0) == Onto(found, CheckNamesFrom(tokens, index))
    {
      NamesStep(tokens, index);
      if IsCheck(tokens, index) {
        var inside, end := ScanClause(tokens, index + 1);
        OntoNone(found);
        if end == |tokens| {
          return None;
        }
        OntoTwice(found, inside, CheckNamesFrom(tokens, end + 1));
        found := found + inside;
        index := end;
      }
      index := index + 1;
    }
    NamesEnd(tokens, found);
    names := Some(found);
  }

  lemma NamesOfTokens(sql: string)
    ensures CheckNames(sql) == match Tokens(sql) { case None => None case Some(tokens) => CheckNamesFrom(tokens, 0) }
  {
    hide Tokens, CheckNamesFrom;
  }

  /** One turn of the loop over the tokens. */
  lemma NamesStep(tokens: seq<Token>, index: nat)
    requires index < |tokens|
    ensures IsCheck(tokens, index) ==> index + 1 < |tokens| && tokens[index + 1].Open?
    ensures CheckNamesFrom(tokens, index) ==
              if !IsCheck(tokens, index) then CheckNamesFrom(tokens, index + 1)
              else match CloseOf(tokens, index + 1, 0)
                case None => None
                case Some(end) => Onto(NamesIn(tokens, index + 1, end), CheckNamesFrom(tokens, end + 1))
  {
    hide CloseOf, NamesIn, Onto, AsciiLower;
  }

  lemma OntoNone(first: seq<string>)
    ensures Onto(first, None) == None
  {
  }

  lemma NamesEnd(tokens: seq<Token>, found: seq<string>)
    ensures Onto(found, CheckNamesFrom(tokens, |tokens|)) == Some(found)
  {
    assert found + [] == found;
  }

  // ----- what the names are

  /** `name` is written between the parentheses of the `CHECK` at `k`. */
  ghost predicate Inside(tokens: seq<Token>, k: nat, j: nat) {
    IsCheck(tokens, k) && CloseOf(tokens, k + 1, 0).Some? && k + 1 < j < CloseOf(tokens, k + 1, 0).value
  }

  ghost predicate NameAt(tokens: seq<Token>, j: nat, name: string) {
    j < |tokens| && tokens[j].Name? && AsciiLower(tokens[j].text) == name
  }

  /** Inside a region that closes, a region that opens closes earlier. */
  lemma {:induction false} NestedCloses(tokens: seq<Token>, i: nat, depth: nat, extra: nat)
    requires i <= |tokens| && depth >= 1 && extra >= 1 && CloseOf(tokens, i, depth + extra).Some?
    ensures CloseOf(tokens, i, depth).Some? && CloseOf(tokens, i, depth).value < CloseOf(tokens, i, depth + extra).value
    decreases |tokens| - i
  {
    if i < |tokens| {
      match tokens[i]
      case Open => NestedCloses(tokens, i + 1, depth + 1, extra);
      case Close =>
        if depth > 1 {
          NestedCloses(tokens, i + 1, depth - 1, extra);
        }
      case _ => NestedCloses(tokens, i + 1, depth, extra);
    }
  }

  /** Somewhere before its close, an open region is still open. */
  lemma {:induction false} StillOpen(tokens: seq<Token>, i: nat, depth: nat, j: nat) returns (deeper: nat)
    requires i <= j <= |tokens| && depth >= 1 && CloseOf(tokens, i, depth).Some? && j <= CloseOf(tokens, i, depth).value
    ensures deeper >= 1 && CloseOf(tokens, j, deeper) == CloseOf(tokens, i, depth)
    decreases j - i
  {
    deeper := depth;
    if i < j {
      match tokens[i]
      case Open => deeper := StillOpen(tokens, i + 1, depth + 1, j);
      case Close => deeper := StillOpen(tokens, i + 1, depth - 1, j);
      case _ => deeper := StillOpen(tokens, i + 1, depth, j);
    }
  }

  /** A `CHECK` inside another one's parentheses closes inside them, so skipping past the outer one misses nothing. */
  lemma NestedCheck(tokens: seq<Token>, k: nat, j: nat)
    requires Inside(tokens, k, j) && IsCheck(tokens, j)
    ensures CloseOf(tokens, j + 1, 0).Some? && CloseOf(tokens, j + 1, 0).value < CloseOf(tokens, k + 1, 0).value
  {
    assert CloseOf(tokens, k + 1, 0) == CloseOf(tokens, k + 2, 1);
    var deeper := StillOpen(tokens, k + 2, 1, j);
    assert CloseOf(tokens, j, deeper) == CloseOf(tokens, j + 1, deeper) == CloseOf(tokens, j + 2, deeper + 1);
    NestedCloses(tokens, j + 2, 1, deeper);
  }

  lemma {:induction false} NamesInHolds(tokens: seq<Token>, from: nat, end: nat, name: string)
    requires from <= end <= |tokens|
    ensures name in NamesIn(tokens, from, end) <==> exists j: nat :: from <= j < end && NameAt(tokens, j, name)
    decreases end - from
  {
    if from < end {
      NamesInHolds(tokens, from + 1, end, name);
      if NameAt(tokens, from, name) {
        assert NamesIn(tokens, from, end)[0] == name;
      }
    }
  }

  /** Some `CHECK` from `index` on holds `name` between its parentheses. */
  ghost predicate SomeCheckReads(tokens: seq<Token>, index: nat, name: string) {
    exists k: nat, j: nat :: index <= k && Inside(tokens, k, j) && NameAt(tokens, j, name)
  }

  ghost predicate SomeCheckOpen(tokens: seq<Token>, index: nat) {
    exists k: nat :: index <= k && IsCheck(tokens, k) && CloseOf(tokens, k + 1, 0) == None
  }

  /** The names are exactly those inside some `CHECK`, nested ones included, and there are none exactly when one never closes. */
  lemma {:induction false} CheckNamesComplete(tokens: seq<Token>, index: nat, name: string)
    requires index <= |tokens|
    ensures CheckNamesFrom(tokens, index) == None <==> SomeCheckOpen(tokens, index)
    ensures CheckNamesFrom(tokens, index).Some? ==> (name in CheckNamesFrom(tokens, index).value <==> SomeCheckReads(tokens, index, name))
    decreases |tokens| - index
  {
    if index < |tokens| {
      if !IsCheck(tokens, index) {
        CheckNamesComplete(tokens, index + 1, name);
        NotCheckSkips(tokens, index, name);
      } else if CloseOf(tokens, index + 1, 0).Some? {
        var end := CloseOf(tokens, index + 1, 0).value;
        CheckNamesComplete(tokens, end + 1, name);
        ClauseSkips(tokens, index, name);
        NamesInHolds(tokens, index + 1, end, name);
      }
    }
  }

  lemma NotCheckSkips(tokens: seq<Token>, index: nat, name: string)
    requires index < |tokens| && !IsCheck(tokens, index)
    ensures SomeCheckOpen(tokens, index) <==> SomeCheckOpen(tokens, index + 1)
    ensures SomeCheckReads(tokens, index, name) <==> SomeCheckReads(tokens, index + 1, name)
  {
  }

  lemma ClauseSkips(tokens: seq<Token>, k: nat, name: string)
    requires IsCheck(tokens, k) && CloseOf(tokens, k + 1, 0).Some?
    ensures var end := CloseOf(tokens, k + 1, 0).value;
            && (SomeCheckOpen(tokens, k) <==> SomeCheckOpen(tokens, end + 1))
            && (SomeCheckReads(tokens, k, name) <==>
                  (exists j: nat :: k + 1 <= j < end && NameAt(tokens, j, name)) || SomeCheckReads(tokens, end + 1, name))
  {
    var end := CloseOf(tokens, k + 1, 0).value;
    assert CloseOf(tokens, k + 1, 0) == CloseOf(tokens, k + 2, 1);
    if SomeCheckOpen(tokens, k) {
      var m: nat :| k <= m && IsCheck(tokens, m) && CloseOf(tokens, m + 1, 0) == None;
      ClauseHolds(tokens, k, m);
    }
    if SomeCheckReads(tokens, k, name) {
      var m: nat, j: nat :| k <= m && Inside(tokens, m, j) && NameAt(tokens, j, name);
      ClauseHolds(tokens, k, m);
    }
    if exists j: nat :: k + 1 <= j < end && NameAt(tokens, j, name) {
      var j: nat :| k + 1 <= j < end && NameAt(tokens, j, name);
      assert Inside(tokens, k, j);
    }
  }

  /** A `CHECK` at or after `k` lies past the clause of `k`, or closes inside it. */
  lemma ClauseHolds(tokens: seq<Token>, k: nat, m: nat)
    requires IsCheck(tokens, k) && CloseOf(tokens, k + 1, 0).Some? && k <= m && IsCheck(tokens, m)
    ensures m > CloseOf(tokens, k + 1, 0).value
         || (CloseOf(tokens, m + 1, 0).Some? && CloseOf(tokens, m + 1, 0).value <= CloseOf(tokens, k + 1, 0).value)
  {
    var end := CloseOf(tokens, k + 1, 0).value;
    CloseIsClose(tokens, k + 1, 0);
    if k + 1 < m < end {
      NestedCheck(tokens, k, m);
    }
  }

  lemma {:induction false} CloseIsClose(tokens: seq<Token>, i: nat, depth: nat)
    requires i <= |tokens| && CloseOf(tokens, i, depth).Some?
    ensures tokens[CloseOf(tokens, i, depth).value].Close?
    decreases |tokens| - i
  {
    if i < |tokens| {
      match tokens[i]
      case Open => CloseIsClose(tokens, i + 1, depth + 1);
      case Close =>
        if depth > 1 {
          CloseIsClose(tokens, i + 1, depth - 1);
        }
      case _ => CloseIsClose(tokens, i + 1, depth);
    }
  }
}
