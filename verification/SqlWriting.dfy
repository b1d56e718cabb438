/**
 * SQL text as its writer sees it: words, quotes, marks and comments. The texts `sqlTokens` scans are exactly those so
 * written, and it gives of each piece what the piece means; so `checkNamesOf` lists every column a clause quotes, and
 * nothing of a string literal.
 */
module SqlWriting {
  import opened Wrappers
  import opened Seqs
  import opened Text
  import opened DumpSchema
  import opened SqlScan

  /** A word, a quoted text by its opening character, any other character, or a comment; only the last line may not end. */
  datatype Piece =
    | Word(text: string)
    | Quote(open: char, text: string)
    | Sign(c: char)
    | Line(text: string, ended: bool)
    | Block(text: string)

  function CloseOfQuote(open: char): char {
    if open == '[' then ']' else open
  }

  /** The text inside a quote: its closing character stands twice, except in brackets, which cannot hold theirs. */
  function Doubled(text: string, close: char): string {
    if text == [] then []
    else Twice(text[0], close) + Doubled(text[1..], close)
  }

  function Twice(c: char, close: char): string {
    if c == close && close != ']' then [close, close] else [c]
  }

  function Written(p: Piece): string {
    match p
    case Word(text) => text
    case Quote(open, text) => [open] + Doubled(text, CloseOfQuote(open)) + [CloseOfQuote(open)]
    case Sign(c) => [c]
    case Line(text, ended) => "--" + text + (if ended then "\n" else "")
    case Block(text) => "/*" + text + "*/"
  }

  predicate IsPiece(p: Piece) {
    match p
    case Word(text) => text != "" && forall i :: 0 <= i < |text| ==> IsWordChar(text[i])
    case Quote(open, text) => (open == '\'' || open == '"' || open == '`' || open == '[') && (open == '[' ==> ']' !in text)
    case Sign(c) => c != '\'' && c != '"' && c != '`' && c != '[' && !IsWordChar(c)
    case Line(text, _) => '\n' !in text
    case Block(text) => forall i :: 0 <= i && i + 1 < |text| ==> !(text[i] == '*' && text[i + 1] == '/')
  }

  /** What may follow a piece without being read as part of it. */
  predicate Ends(p: Piece, rest: string) {
    match p
    case Word(_) => rest == "" || !IsWordChar(rest[0])
    case Quote(open, _) => open == '[' || rest == "" || rest[0] != open
    case Sign(c) => rest == "" || !((c == '-' && rest[0] == '-') || (c == '/' && rest[0] == '*'))
    case Line(_, ended) => ended || rest == ""
    case Block(_) => true
  }

  /** The tokens a piece stands for: a string literal, a comment and a blank stand for none. */
  function Meaning(p: Piece): seq<Token> {
    match p
    case Word(text) => [Name(text, false)]
    case Quote(open, text) => if open == '\'' then [] else [Name(text, true)]
    case Sign(c) => if c == '(' then [Open] else if c == ')' then [Close] else if IsBlank(c) then [] else [Other]
    case Line(_, _) => []
    case Block(_) => []
  }

  function WriteAll(ps: seq<Piece>): string {
    if ps == [] then "" else Written(ps[0]) + WriteAll(ps[1..])
  }

  function Meanings(ps: seq<Piece>): seq<Token> {
    if ps == [] then [] else Meaning(ps[0]) + Meanings(ps[1..])
  }

  predicate Spaced(ps: seq<Piece>) {
    ps == [] || (IsPiece(ps[0]) && Ends(ps[0], WriteAll(ps[1..])) && Spaced(ps[1..]))
  }

  // ----- the text of a quote

  lemma QuoteEnds(close: char, rest: string)
    requires close == ']' || rest == "" || rest[0] != close
    ensures ReadQuoted([close] + rest, close) == Some(("", rest))
  {
    var s := [close] + rest;
    assert FirstIndex(s, close) == 0 && s[..0] == "" && s[0 + 1..] == rest;
  }

  lemma QuoteDoubles(close: char, s: string)
    requires close != ']'
    ensures ReadQuoted([close, close] + s, close) == Quoting([close], ReadQuoted(s, close))
  {
    var all := [close, close] + s;
    assert FirstIndex(all, close) == 0 && all[..0] == "" && all[0 + 2..] == s;
    assert "" + [close] == [close];
  }

  lemma QuoteGoesOn(c: char, s: string, close: char)
    requires c != close
    ensures ReadQuoted([c] + s, close) == Quoting([c], ReadQuoted(s, close))
  {
    var all := [c] + s;
    assert all[1..] == s;
    var k := FirstIndex(s, close);
    assert FirstIndex(all, close) == k + 1;
    if k < |s| {
      assert all[..k + 1] == [c] + s[..k] && all[k + 1 + 1..] == s[k + 1..];
      if close != ']' && k + 1 < |s| && s[k + 1] == close {
        assert all[k + 1 + 2..] == s[k + 2..];
        QuotingTwice([c], s[..k] + [close], ReadQuoted(s[k + 2..], close));
        assert [c] + s[..k] + [close] == [c] + (s[..k] + [close]);
        QuotingIs(all[..k + 1] + [close], ReadQuoted(s[k + 2..], close));
        QuotingIs(s[..k] + [close], ReadQuoted(s[k + 2..], close));
      }
    }
  }

  lemma QuotingIs(text: string, more: Option<(string, string)>)
    ensures Quoting(text, more) == match more { case None => None case Some(read) => Some((text + read.0, read.1)) }
  {
  }

  /** What is written inside a quote is read from it. */
  lemma {:induction false} DoubledReads(text: string, close: char, rest: string)
    requires close == ']' ==> ']' !in text
    requires close == ']' || rest == "" || rest[0] != close
    ensures ReadQuoted(Doubled(text, close) + [close] + rest, close) == Some((text, rest))
  {
    hide ReadQuoted;
    if text == "" {
      assert Doubled(text, close) + [close] + rest == [close] + rest;
      QuoteEnds(close, rest);
    } else {
      DoubledReads(text[1..], close, rest);
      var tail := Doubled(text[1..], close) + [close] + rest;
      assert text == [text[0]] + text[1..];
      if text[0] == close && close != ']' {
        assert Doubled(text, close) + [close] + rest == [close, close] + tail;
        QuoteDoubles(close, tail);
      } else {
        assert Doubled(text, close) + [close] + rest == [text[0]] + tail;
        QuoteGoesOn(text[0], tail, close);
      }
    }
  }

  lemma {:induction false} DoubledAdds(a: string, b: string, close: char)
    ensures Doubled(a + b, close) == Doubled(a, close) + Doubled(b, close)
  {
    if a == [] {
      assert a + b == b;
    } else {
      DoubledAdds(a[1..], b, close);
      assert (a + b)[1..] == a[1..] + b && (a + b)[0] == a[0];
      var first, x, y := Twice(a[0], close), Doubled(a[1..], close), Doubled(b, close);
      hide Twice, Doubled;
      assert first + (x + y) == first + x + y;
    }
  }

  lemma {:induction false} PlainStays(text: string, close: char)
    requires close !in text
    ensures Doubled(text, close) == text
  {
    if text != [] {
      PlainStays(text[1..], close);
      assert text == [text[0]] + text[1..];
    }
  }

  /** `s` is a quote's text, doubled, its close and what follows it. */
  ghost predicate IsQuoted(s: string, close: char, text: string, rest: string) {
    && s == Doubled(text, close) + [close] + rest
    && (close == ']' ==> ']' !in text)
    && (close == ']' || rest == "" || rest[0] != close)
  }

  lemma QuotedAtOnce(s: string, close: char, k: nat)
    requires k < |s| && s[k] == close && close !in s[..k] && (close == ']' || k + 1 == |s| || s[k + 1] != close)
    ensures IsQuoted(s, close, s[..k], s[k + 1..])
  {
    PlainStays(s[..k], close);
    assert s == s[..k] + [close] + s[k + 1..];
  }

  lemma DoubledTwice(first: string, close: char, text: string)
    requires close !in first && close != ']'
    ensures Doubled(first + [close] + text, close) == first + [close, close] + Doubled(text, close)
  {
    PlainStays(first, close);
    DoubledAdds(first + [close], text, close);
    DoubledAdds(first, [close], close);
    assert Doubled([close], close) == [close, close];
    hide Doubled;
  }

  lemma QuotedLater(s: string, close: char, k: nat, text: string, rest: string)
    requires k + 1 < |s| && s[k] == close && s[k + 1] == close && close !in s[..k] && close != ']'
    requires IsQuoted(s[k + 2..], close, text, rest)
    ensures IsQuoted(s, close, s[..k] + [close] + text, rest)
  {
    DoubledTwice(s[..k], close, text);
    hide Doubled;
    SplitAt(s, k);
    Regrouped(s[..k] + [close, close], Doubled(text, close) + [close], rest);
    Regrouped(s[..k] + [close, close], Doubled(text, close), [close]);
  }

  lemma SplitAt(s: string, k: nat)
    requires k + 1 < |s|
    ensures s == s[..k] + [s[k], s[k + 1]] + s[k + 2..]
  {
  }

  /** What is read from a quote is written so. */
  lemma {:induction false} ReadIsDoubled(s: string, close: char)
    requires ReadQuoted(s, close).Some?
    ensures IsQuoted(s, close, ReadQuoted(s, close).value.0, ReadQuoted(s, close).value.1)
    decreases |s|
  {
    hide IsQuoted;
    var k := IndexOf(s, close).value;
    if close != ']' && k + 1 < |s| && s[k + 1] == close {
      ReadIsDoubled(s[k + 2..], close);
      var more := ReadQuoted(s[k + 2..], close).value;
      QuotedLater(s, close, k, more.0, more.1);
    } else {
      QuotedAtOnce(s, close, k);
    }
  }

  // ----- comments

  lemma {:induction false} BlockEndIs(text: string, rest: string)
    requires forall i :: 0 <= i && i + 1 < |text| ==> !(text[i] == '*' && text[i + 1] == '/')
    ensures IndexOfBlockEnd(text + "*/" + rest) == Some(|text|)
  {
    var s := text + "*/" + rest;
    if text == [] {
      assert s == "*/" + rest;
    } else {
      BlockEndIs(text[1..], rest);
      assert s[1..] == text[1..] + "*/" + rest;
      assert s[0] == text[0] && s[1] == if |text| > 1 then text[1] else '*';
    }
  }

  lemma {:induction false} BlockEndIsFirst(s: string)
    requires IndexOfBlockEnd(s).Some?
    ensures var k := IndexOfBlockEnd(s).value;
            forall i :: 0 <= i && i + 1 < k ==> !(s[i] == '*' && s[i + 1] == '/')
  {
    if !(s[0] == '*' && s[1] == '/') {
      BlockEndIsFirst(s[1..]);
      var k := IndexOfBlockEnd(s).value;
      forall i | 0 <= i && i + 1 < k ensures !(s[i] == '*' && s[i + 1] == '/') {
        if i > 0 {
          assert s[i] == s[1..][i - 1] && s[i + 1] == s[1..][i];
        }
      }
    }
  }

  // ----- one piece

  lemma LineScans(text: string, ended: bool, rest: string)
    requires '\n' !in text && (ended || rest == "")
    ensures var s := "--" + text + (if ended then "\n" else "") + rest;
            StartsLine(s) && AfterLine(s) == rest
  {
    var tail := if ended then "\n" + rest else "";
    var s := "--" + text + (if ended then "\n" else "") + rest;
    assert s == ("--" + text) + tail;
    FirstIndexIs("--" + text, '\n', tail);
    if ended {
      assert s[|text| + 2 + 1..] == rest;
    }
  }

  lemma BlockScans(text: string, rest: string)
    requires IsPiece(Block(text))
    ensures var s := "/*" + text + "*/" + rest;
            StartsBlock(s) && !StartsLine(s) && AfterBlock(s[2..]) == Some(rest)
  {
    var s := "/*" + text + "*/" + rest;
    assert s[2..] == text + "*/" + rest;
    BlockEndIs(text, rest);
    assert s[2..][|text| + 2..] == rest;
  }

  lemma QuoteIsScanned(open: char, text: string, rest: string)
    requires IsPiece(Quote(open, text)) && Ends(Quote(open, text), rest)
    ensures Tokens(Written(Quote(open, text)) + rest) == Prepend(Meaning(Quote(open, text)), Tokens(rest))
  {
    var close := CloseOfQuote(open);
    var tail := Doubled(text, close) + [close] + rest;
    var s := Written(Quote(open, text)) + rest;
    assert s == [open] + tail;
    assert s[0] == open && s[1..] == tail;
    DoubledReads(text, close, rest);
    hide ReadQuoted, Doubled, Tokens;
    QuoteUnfolds(s, close, text, rest);
  }

  lemma QuoteUnfolds(s: string, close: char, text: string, rest: string)
    requires s != "" && QuoteClose(s[0]) == Some(close) && ReadQuoted(s[1..], close) == Some((text, rest))
    ensures Tokens(s) == Prepend(if s[0] == '\'' then [] else [Name(text, true)], Tokens(rest))
  {
    hide ReadQuoted, Prepend;
  }

  lemma WordIsScanned(text: string, rest: string)
    requires IsPiece(Word(text)) && Ends(Word(text), rest)
    ensures Tokens(text + rest) == Prepend([Name(text, false)], Tokens(rest))
  {
    var s := text + rest;
    WordLengthIs(text, rest);
    assert s[0] == text[0] && s[..|text|] == text && s[|text|..] == rest;
    assert !StartsLine(s) && !StartsBlock(s);
  }

  lemma SignIsScanned(c: char, rest: string)
    requires IsPiece(Sign(c)) && Ends(Sign(c), rest)
    ensures Tokens([c] + rest) == Prepend(Meaning(Sign(c)), Tokens(rest))
  {
    var s := [c] + rest;
    assert s[0] == c && s[1..] == rest;
    assert !StartsLine(s) && !StartsBlock(s);
  }

  /** A piece scans to what it means, and what follows is scanned after it. */
  lemma PieceScans(p: Piece, rest: string)
    requires IsPiece(p) && Ends(p, rest)
    ensures Tokens(Written(p) + rest) == Prepend(Meaning(p), Tokens(rest))
  {
    match p
    case Word(text) => WordIsScanned(text, rest);
    case Quote(open, text) => QuoteIsScanned(open, text, rest);
    case Sign(c) => SignIsScanned(c, rest);
    case Line(text, ended) =>
      LineScans(text, ended, rest);
      PrependNothing(Tokens(rest));
    case Block(text) =>
      BlockScans(text, rest);
      PrependNothing(Tokens(rest));
  }

  // ----- whole texts

  lemma {:induction false} WrittenScans(ps: seq<Piece>)
    requires Spaced(ps)
    ensures Tokens(WriteAll(ps)) == Some(Meanings(ps))
  {
    if ps != [] {
      hide Tokens, IsPiece, Ends;
      WrittenScans(ps[1..]);
      PieceScans(ps[0], WriteAll(ps[1..]));
    } else {
      assert Tokens("") == Some([]);
    }
  }

  /** `s` starts with the piece, which ends there, and goes on with `rest`. */
  ghost predicate StartsWithPiece(s: string, p: Piece, rest: string) {
    IsPiece(p) && Ends(p, rest) && s == Written(p) + rest && |rest| < |s|
  }

  /** The piece a text that scans starts with. */
  lemma FirstPiece(s: string) returns (p: Piece, rest: string)
    requires s != "" && Tokens(s).Some?
    ensures StartsWithPiece(s, p, rest) && Tokens(rest).Some?
  {
    hide StartsWithPiece;
    if StartsLine(s) {
      p, rest := FirstLine(s);
    } else if StartsBlock(s) {
      p, rest := FirstBlock(s);
    } else if QuoteClose(s[0]).Some? {
      p, rest := FirstQuote(s);
    } else if IsWordChar(s[0]) {
      p, rest := FirstWord(s);
    } else {
      p, rest := FirstSign(s);
    }
  }

  lemma FirstBlock(s: string) returns (p: Piece, rest: string)
    requires StartsBlock(s) && AfterBlock(s[2..]).Some?
    ensures StartsWithPiece(s, p, rest) && rest == AfterBlock(s[2..]).value
  {
    var k := IndexOfBlockEnd(s[2..]).value;
    BlockEndIsFirst(s[2..]);
    var text := s[2..][..k];
    rest := s[2..][k + 2..];
    p := Block(text);
    assert s[2..] == text + "*/" + rest;
    assert s == "/*" + s[2..];
    assert s == Written(p) + rest;
  }

  lemma FirstQuote(s: string) returns (p: Piece, rest: string)
    requires s != "" && QuoteClose(s[0]).Some? && ReadQuoted(s[1..], QuoteClose(s[0]).value).Some?
    ensures StartsWithPiece(s, p, rest) && rest == ReadQuoted(s[1..], QuoteClose(s[0]).value).value.1
  {
    var close := QuoteClose(s[0]).value;
    ReadIsDoubled(s[1..], close);
    var read := ReadQuoted(s[1..], close).value;
    p, rest := Quote(s[0], read.0), read.1;
    QuoteIsWritten(s, read.0, rest);
    hide Doubled, ReadQuoted;
  }

  lemma QuoteIsWritten(s: string, text: string, rest: string)
    requires s != "" && QuoteClose(s[0]).Some?
    requires s[1..] == Doubled(text, QuoteClose(s[0]).value) + [QuoteClose(s[0]).value] + rest
    ensures s == Written(Quote(s[0], text)) + rest && |rest| < |s|
  {
    hide Doubled;
    var open, inside, close := s[0], Doubled(text, QuoteClose(s[0]).value), [QuoteClose(s[0]).value];
    assert s == [open] + s[1..];
    Regrouped([open], inside + close, rest);
    Regrouped([open], inside, close);
  }

  lemma FirstWord(s: string) returns (p: Piece, rest: string)
    requires s != "" && IsWordChar(s[0])
    ensures StartsWithPiece(s, p, rest) && rest == s[WordLength(s)..]
  {
    var n := WordLength(s);
    p, rest := Word(s[..n]), s[n..];
    assert s == s[..n] + s[n..];
  }

  lemma FirstSign(s: string) returns (p: Piece, rest: string)
    requires s != "" && QuoteClose(s[0]) == None && !IsWordChar(s[0]) && !StartsLine(s) && !StartsBlock(s)
    ensures StartsWithPiece(s, p, rest) && rest == s[1..]
  {
    p, rest := Sign(s[0]), s[1..];
    assert s == [s[0]] + s[1..];
  }

  lemma FirstLine(s: string) returns (p: Piece, rest: string)
    requires StartsLine(s)
    ensures StartsWithPiece(s, p, rest) && rest == AfterLine(s)
  {
    var k := FirstIndex(s, '\n');
    assert s[0] != '\n' && s[1] != '\n';
    assert k >= 2 by {
      assert k < |s| ==> s[k] == '\n';
    }
    rest := AfterLine(s);
    p := Line(s[2..k], k < |s|);
    assert s[..k] == "--" + s[2..k];
    assert forall i :: 2 <= i < k ==> s[i] == s[..k][i];
    if k < |s| {
      assert s == s[..k] + "\n" + s[k + 1..];
    } else {
      assert s == s[..k];
    }
  }

  lemma {:induction false} ScanIsWritten(s: string) returns (ps: seq<Piece>)
    requires Tokens(s).Some?
    ensures Spaced(ps) && WriteAll(ps) == s
    decreases |s|
  {
    ps := [];
    if s != "" {
      hide Tokens, IsPiece, Ends, Written;
      var p, rest := FirstPiece(s);
      var more := ScanIsWritten(rest);
      ps := [p] + more;
      assert ps[1..] == more;
    }
  }

  /** The texts that scan are exactly the written ones, and their tokens are what their pieces mean. */
  lemma ScansIffWritten(s: string, tokens: seq<Token>)
    ensures Tokens(s) == Some(tokens) <==> exists ps :: Spaced(ps) && WriteAll(ps) == s && Meanings(ps) == tokens
  {
    if Tokens(s) == Some(tokens) {
      var ps := ScanIsWritten(s);
      WrittenScans(ps);
    }
    if ps :| Spaced(ps) && WriteAll(ps) == s && Meanings(ps) == tokens {
      WrittenScans(ps);
    }
  }

  // ----- what a CHECK names

  lemma {:induction false} MeaningsAdd(a: seq<Piece>, b: seq<Piece>)
    ensures Meanings(a + b) == Meanings(a) + Meanings(b)
  {
    if a == [] {
      assert a + b == b;
    } else {
      MeaningsAdd(a[1..], b);
      assert (a + b)[1..] == a[1..] + b && (a + b)[0] == a[0];
      hide Meaning;
      Regrouped(Meaning(a[0]), Meanings(a[1..]), Meanings(b));
    }
  }

  /** Read from `level` parentheses deep, the tokens close all of them and never more. */
  predicate Balanced(tokens: seq<Token>, level: nat) {
    if tokens == [] then level == 0
    else match tokens[0]
      case Open => Balanced(tokens[1..], level + 1)
      case Close => level > 0 && Balanced(tokens[1..], level - 1)
      case _ => Balanced(tokens[1..], level)
  }

  lemma {:induction false} BalancedCloses(tokens: seq<Token>, i: nat, inside: seq<Token>, level: nat)
    requires i + |inside| < |tokens| && tokens[i..i + |inside|] == inside && tokens[i + |inside|] == Close
    requires Balanced(inside, level)
    ensures CloseOf(tokens, i, level + 1) == Some(i + |inside|)
    decreases |inside|
  {
    if inside != [] {
      assert tokens[i] == inside[0];
      assert tokens[i + 1..i + 1 + |inside[1..]|] == inside[1..];
      BalancedCloses(tokens, i + 1, inside[1..], match inside[0] case Open => level + 1 case Close => level - 1 case _ => level);
    }
  }

  /** The name a piece gives a `CHECK` that holds it: a word's or an identifier's, and none of a string literal. */
  predicate Gives(p: Piece, name: string) {
    || (p.Word? && AsciiLower(p.text) == name)
    || (p.Quote? && p.open != '\'' && AsciiLower(p.text) == name)
  }

  predicate SomeGives(ps: seq<Piece>, name: string) {
    exists i :: 0 <= i < |ps| && Gives(ps[i], name)
  }

  ghost predicate SomeNames(tokens: seq<Token>, name: string) {
    exists j: nat :: NameAt(tokens, j, name)
  }

  lemma {:induction false} GivenIsNamed(ps: seq<Piece>, name: string)
    ensures SomeGives(ps, name) <==> SomeNames(Meanings(ps), name)
  {
    if ps != [] {
      GivenIsNamed(ps[1..], name);
      var first, rest := Meaning(ps[0]), Meanings(ps[1..]);
      GivesIsNamed(ps[0], name);
      NamesSplit(first, rest, name);
      if SomeGives(ps[1..], name) {
        var i :| 0 <= i < |ps[1..]| && Gives(ps[1..][i], name);
        assert Gives(ps[i + 1], name);
      }
      if SomeGives(ps, name) {
        var i :| 0 <= i < |ps| && Gives(ps[i], name);
        if i > 0 {
          assert Gives(ps[1..][i - 1], name);
        }
      }
    }
  }

  lemma GivesIsNamed(p: Piece, name: string)
    ensures Gives(p, name) <==> SomeNames(Meaning(p), name)
  {
    if Gives(p, name) {
      assert NameAt(Meaning(p), 0, name);
    }
  }

  lemma NamesSplit(a: seq<Token>, b: seq<Token>, name: string)
    ensures SomeNames(a + b, name) <==> SomeNames(a, name) || SomeNames(b, name)
  {
    if j: nat :| NameAt(a + b, j, name) {
      assert if j < |a| then NameAt(a, j, name) else NameAt(b, j - |a|, name);
    }
    if j: nat :| NameAt(a, j, name) {
      assert NameAt(a + b, j, name);
    }
    if j: nat :| NameAt(b, j, name) {
      assert NameAt(a + b, |a| + j, name);
    }
  }

  /** A text with a `CHECK` in it, what stands between its parentheses being `inside`. */
  function Clause(before: seq<Piece>, check: string, gap: seq<Piece>, inside: seq<Piece>, after: seq<Piece>): seq<Piece> {
    before + ([Word(check)] + (gap + ([Sign('(')] + (inside + ([Sign(')')] + after)))))
  }

  lemma OneMeans(p: Piece, ps: seq<Piece>)
    ensures Meanings([p] + ps) == Meaning(p) + Meanings(ps)
  {
    assert ([p] + ps)[1..] == ps;
  }

  lemma ClauseMeans(before: seq<Piece>, check: string, gap: seq<Piece>, inside: seq<Piece>, after: seq<Piece>)
    requires Meanings(gap) == []
    ensures Meanings(Clause(before, check, gap, inside, after))
         == Meanings(before) + ([Name(check, false), Open] + (Meanings(inside) + ([Close] + Meanings(after))))
  {
    var end := [Sign(')')] + after;
    var body := inside + end;
    var start := [Sign('(')] + body;
    OneMeans(Sign(')'), after);
    MeaningsAdd(inside, end);
    OneMeans(Sign('('), body);
    MeaningsAdd(gap, start);
    OneMeans(Word(check), gap + start);
    MeaningsAdd(before, [Word(check)] + (gap + start));
    NameThenOpen(check, gap, start, Meanings(body));
    assert Meaning(Sign(')')) == [Close] && Meaning(Sign('(')) == [Open];
    hide Meanings, Meaning;
  }

  lemma NameThenOpen(check: string, gap: seq<Piece>, start: seq<Piece>, body: seq<Token>)
    requires Meanings(gap) == [] && Meanings(start) == [Open] + body
    ensures Meaning(Word(check)) + (Meanings(gap) + Meanings(start)) == [Name(check, false), Open] + body
  {
  }

  /** A clause names every word and every quoted identifier between its parentheses. */
  lemma ClauseNames(before: seq<Piece>, check: string, gap: seq<Piece>, inside: seq<Piece>, after: seq<Piece>, name: string)
    requires Spaced(Clause(before, check, gap, inside, after))
    requires AsciiLower(check) == "check" && Meanings(gap) == [] && Balanced(Meanings(inside), 0)
    requires SomeGives(inside, name)
    ensures var names := CheckNames(WriteAll(Clause(before, check, gap, inside, after)));
            names == None || name in names.value
  {
    var ps := Clause(before, check, gap, inside, after);
    var tokens := Meanings(ps);
    ClauseMeans(before, check, gap, inside, after);
    WrittenScans(ps);
    var a, mid, rest := Meanings(before), Meanings(inside), [Close] + Meanings(after);
    GivenIsNamed(inside, name);
    hide Meanings, Clause, WriteAll, Tokens, Spaced, CheckNamesFrom;
    var j: nat :| NameAt(mid, j, name);
    InsideClause(a, check, mid, rest, j, name);
    CheckNamesComplete(tokens, 0, name);
    NamesOfTokens(WriteAll(ps));
  }

  lemma InsideClause(a: seq<Token>, check: string, mid: seq<Token>, rest: seq<Token>, j: nat, name: string)
    requires AsciiLower(check) == "check" && Balanced(mid, 0) && NameAt(mid, j, name) && rest != [] && rest[0] == Close
    ensures SomeCheckReads(a + ([Name(check, false), Open] + (mid + rest)), 0, name)
  {
    var tokens := a + ([Name(check, false), Open] + (mid + rest));
    var k := |a|;
    assert tokens[k] == Name(check, false) && tokens[k + 1] == Open;
    assert tokens[k + 2..k + 2 + |mid|] == mid && tokens[k + 2 + |mid|] == rest[0];
    BalancedCloses(tokens, k + 2, mid, 0);
    assert CloseOf(tokens, k + 1, 0) == CloseOf(tokens, k + 2, 1);
    assert tokens[k + 2 + j] == mid[j];
    hide AsciiLower, Balanced, CloseOf;
    assert Inside(tokens, k, k + 2 + j) && NameAt(tokens, k + 2 + j, name);
  }

  /** Every name listed is that of a word or of a quoted identifier; a string literal gives none. */
  lemma NamesAreGiven(ps: seq<Piece>, name: string)
    requires Spaced(ps) && CheckNames(WriteAll(ps)).Some? && name in CheckNames(WriteAll(ps)).value
    ensures SomeGives(ps, name)
  {
    WrittenScans(ps);
    CheckNamesComplete(Meanings(ps), 0, name);
    GivenIsNamed(ps, name);
    hide Meanings, WriteAll, Tokens, Spaced, CheckNamesFrom, Inside;
    var k: nat, j: nat :| Inside(Meanings(ps), k, j) && NameAt(Meanings(ps), j, name);
  }

  /** Two texts with the same pieces but for what their string literals and comments say. */
  predicate SameButUnread(ps: seq<Piece>, qs: seq<Piece>) {
    |ps| == |qs| && forall i :: 0 <= i < |ps| ==>
      (ps[i] == qs[i] || (Meaning(ps[i]) == [] && Meaning(qs[i]) == []))
  }

  /** What string literals and comments say changes no name. */
  lemma {:induction false} UnreadMeansNothing(ps: seq<Piece>, qs: seq<Piece>)
    requires SameButUnread(ps, qs)
    ensures Meanings(ps) == Meanings(qs)
  {
    if ps != [] {
      UnreadMeansNothing(ps[1..], qs[1..]);
    }
  }

  lemma UnreadNamesNothing(ps: seq<Piece>, qs: seq<Piece>)
    requires Spaced(ps) && Spaced(qs) && SameButUnread(ps, qs)
    ensures CheckNames(WriteAll(ps)) == CheckNames(WriteAll(qs))
  {
    UnreadMeansNothing(ps, qs);
    WrittenScans(ps);
    WrittenScans(qs);
    hide Tokens, CheckNamesFrom;
  }
}
