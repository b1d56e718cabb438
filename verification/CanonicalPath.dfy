/**
 * Canonical raw pathnames, the precondition of the endpoint matcher: what a canonical path decodes to holds no separator
 * and no dot segment a later hop could resolve.
 */
module CanonicalPath {
  import opened Text

  /** `/%2f|%5c/i` somewhere in `s`. */
  predicate HasEncodedSeparator(s: string) {
    exists i :: 0 <= i && i + 2 < |s| && IsEncodedSeparator(s, i)
  }

  predicate IsEncodedSeparator(s: string, i: nat)
    requires i + 2 < |s|
  {
    s[i] == '%' && ((s[i + 1] == '2' && s[i + 2] in "fF") || (s[i + 1] == '5' && s[i + 2] in "cC"))
  }

  /** `segment.replace(/%2e/gi, '.')`. */
  function DecodeDots(s: string): string {
    if s == [] then []
    else if |s| >= 3 && s[0] == '%' && s[1] == '2' && s[2] in "eE" then "." + DecodeDots(s[3..])
    else [s[0]] + DecodeDots(s[1..])
  }

  predicate IsDotSegment(segment: string) {
    var decoded := DecodeDots(segment);
    decoded == "." || decoded == ".."
  }

  predicate IsEscape(s: string) {
    |s| >= 3 && s[0] == '%' && IsHex(s[1]) && IsHex(s[2])
  }

  function EscapedByte(s: string): (b: nat)
    requires IsEscape(s)
    ensures b < 256
  {
    16 * HexValue(s[1]) + HexValue(s[2])
  }

  /** How many bytes the UTF-8 sequence that starts with `b` has; 0 when none does. */
  function SequenceLength(b: nat): nat {
    if b < 0x80 then 1
    else if 0xC2 <= b < 0xE0 then 2
    else if 0xE0 <= b < 0xF0 then 3
    else if 0xF0 <= b < 0xF5 then 4
    else 0
  }

  /** The bounds UTF-8 puts on the second byte after `b`: no overlong form, no surrogate, nothing past U+10FFFF. */
  predicate SecondByte(b: nat, c: nat) {
    && (if b == 0xE0 then 0xA0 else if b == 0xF0 then 0x90 else 0x80) <= c
    && c <= (if b == 0xED then 0x9F else if b == 0xF4 then 0x8F else 0xBF)
  }

  /** `n` escaped continuation bytes at the start of `s`. */
  predicate Continues(s: string, n: nat) {
    n == 0 || (IsEscape(s) && 0x80 <= EscapedByte(s) < 0xC0 && Continues(s[3..], n - 1))
  }

  lemma ContinuesLength(s: string, n: nat)
    requires Continues(s, n)
    ensures |s| >= 3 * n
  {
    if n > 0 {
      ContinuesLength(s[3..], n - 1);
    }
  }

  /** Whether `decodeURIComponent` reads the segment: every `%` starts an escape, and the escapes are UTF-8. */
  predicate IsDecodable(s: string)
    decreases |s|
  {
    if s == [] then true
    else if s[0] != '%' then IsDecodable(s[1..])
    else if !IsEscape(s) then false
    else
      var b := EscapedByte(s);
      var n := SequenceLength(b);
      && n > 0
      && (n > 1 ==> IsEscape(s[3..]) && SecondByte(b, EscapedByte(s[3..])))
      && Continues(s[3..], n - 1)
      && (ContinuesLength(s[3..], n - 1); IsDecodable(s[3 * n..]))
  }

  predicate IsCanonicalPath(pathname: string) {
    pathname == "/"
    || (&& |pathname| > 0 && pathname[0] == '/'
        && '\\' !in pathname && !HasEncodedSeparator(pathname)
        && var segments := Split(pathname[1..], '/');
           forall i :: 0 <= i < |segments| ==>
             (segments[i] != "" || i == |segments| - 1) && !IsDotSegment(segments[i]) && IsDecodable(segments[i]))
  }

  // ----- what a canonical path decodes to

  /** The codes a percent-decoder reads: an escape as its byte, any other character as itself. */
  function Decoded(s: string): seq<int>
    decreases |s|
  {
    if s == [] then []
    else if IsEscape(s) then [EscapedByte(s)] + Decoded(s[3..])
    else [s[0] as int] + Decoded(s[1..])
  }

  const SLASH: int := 0x2F
  const BACKSLASH: int := 0x5C
  const DOT: int := 0x2E

  lemma EscapedCodes(s: string)
    requires IsEscape(s)
    ensures EscapedByte(s) == DOT <==> s[1] == '2' && s[2] in "eE"
    ensures EscapedByte(s) == SLASH <==> s[1] == '2' && s[2] in "fF"
    ensures EscapedByte(s) == BACKSLASH <==> s[1] == '5' && s[2] in "cC"
  {
    assert "eE" == ['e', 'E'] && "fF" == ['f', 'F'] && "cC" == ['c', 'C'];
  }

  /** Decoding gives a separator exactly when one is written, plain or escaped. */
  lemma {:induction false} DecodedSeparators(s: string)
    ensures SLASH in Decoded(s) || BACKSLASH in Decoded(s) <==> '/' in s || '\\' in s || HasEncodedSeparator(s)
    decreases |s|
  {
    if s != [] {
      DecodedSeparators(s[if IsEscape(s) then 3 else 1..]);
      DecodedHead(s);
      if IsEscape(s) {
        EscapeHead(s);
      } else {
        PlainHead(s);
      }
    }
  }

  lemma DecodedHead(s: string)
    requires s != []
    ensures var n, first := if IsEscape(s) then 3 else 1, if IsEscape(s) then EscapedByte(s) else s[0] as int;
            forall code :: code in Decoded(s) <==> code == first || code in Decoded(s[n..])
  {
    hide IsEscape, EscapedByte;
  }

  lemma EscapeHead(s: string)
    requires IsEscape(s)
    ensures (EscapedByte(s) == SLASH || EscapedByte(s) == BACKSLASH) || HasEncodedSeparator(s[3..]) <==> HasEncodedSeparator(s)
    ensures ('/' in s <==> '/' in s[3..]) && ('\\' in s <==> '\\' in s[3..])
  {
    EscapedCodes(s);
    assert s == [s[0], s[1], s[2]] + s[3..];
    assert forall i {:trigger IsEncodedSeparator(s, i)} :: 1 <= i < 3 && i + 2 < |s| ==> !IsEncodedSeparator(s, i);
    SeparatorShifts(s, 3);
    hide EscapedByte, HasEncodedSeparator;
  }

  lemma PlainHead(s: string)
    requires s != [] && !IsEscape(s)
    ensures HasEncodedSeparator(s[1..]) <==> HasEncodedSeparator(s)
    ensures ('/' in s <==> s[0] == '/' || '/' in s[1..]) && ('\\' in s <==> s[0] == '\\' || '\\' in s[1..])
  {
    assert s == [s[0]] + s[1..];
    assert forall i {:trigger IsEncodedSeparator(s, i)} :: 0 <= i < 1 && i + 2 < |s| ==> !IsEncodedSeparator(s, i);
    SeparatorShifts(s, 1);
    hide HasEncodedSeparator;
  }

  lemma SeparatorShifts(s: string, n: nat)
    requires n <= |s|
    requires forall i {:trigger IsEncodedSeparator(s, i)} :: 1 <= i < n && i + 2 < |s| ==> !IsEncodedSeparator(s, i)
    ensures HasEncodedSeparator(s) <==> (n > 0 && |s| > 2 && IsEncodedSeparator(s, 0)) || HasEncodedSeparator(s[n..])
  {
    if HasEncodedSeparator(s) {
      var i :| 0 <= i && i + 2 < |s| && IsEncodedSeparator(s, i);
      if i >= n {
        assert IsEncodedSeparator(s[n..], i - n);
      }
    }
    if HasEncodedSeparator(s[n..]) {
      var i :| 0 <= i && i + 2 < |s[n..]| && IsEncodedSeparator(s[n..], i);
      assert IsEncodedSeparator(s, i + n);
    }
  }

  /** Decoding gives dots alone exactly when replacing `%2e` does. */
  lemma {:induction false} DecodedDots(s: string, n: nat)
    ensures DecodeDots(s) == seq(n, _ => '.') <==> Decoded(s) == seq(n, _ => DOT)
    decreases |s|
  {
    if s != [] && n > 0 {
      assert seq(n, _ => '.')[1..] == seq(n - 1, _ => '.') && seq(n, _ => DOT)[1..] == seq(n - 1, _ => DOT);
      if IsEscape(s) {
        EscapedCodes(s);
        if EscapedByte(s) == DOT {
          DecodedDots(s[3..], n - 1);
          assert DecodeDots(s)[1..] == DecodeDots(s[3..]) && Decoded(s)[1..] == Decoded(s[3..]);
          StartsWithFirst(DecodeDots(s), seq(n, _ => '.'));
          StartsWithFirst(Decoded(s), seq(n, _ => DOT));
        } else {
          assert DecodeDots(s)[0] == '%' && Decoded(s)[0] != DOT;
        }
      } else {
        DecodedDots(s[1..], n - 1);
        assert DecodeDots(s)[1..] == DecodeDots(s[1..]) && Decoded(s)[1..] == Decoded(s[1..]);
        StartsWithFirst(DecodeDots(s), seq(n, _ => '.'));
        StartsWithFirst(Decoded(s), seq(n, _ => DOT));
      }
    }
  }

  lemma StartsWithFirst<T>(s: seq<T>, t: seq<T>)
    requires |s| > 0 && |t| > 0
    ensures s == t <==> s[0] == t[0] && s[1..] == t[1..]
  {
    assert s == [s[0]] + s[1..] && t == [t[0]] + t[1..];
  }

  ghost predicate IsInert(segment: string) {
    && Decoded(segment) != [DOT] && Decoded(segment) != [DOT, DOT]
    && SLASH !in Decoded(segment) && BACKSLASH !in Decoded(segment)
  }

  lemma SegmentIsInert(pathname: string, segment: string)
    requires '\\' !in pathname && !HasEncodedSeparator(pathname) && Within(segment, pathname)
    requires '/' !in segment && !IsDotSegment(segment)
    ensures IsInert(segment)
  {
    HasInherits(pathname, segment);
    DecodedSeparators(segment);
    DecodedDots(segment, 1);
    DecodedDots(segment, 2);
    assert seq(1, _ => '.') == "." && seq(2, _ => '.') == ".." && seq(1, _ => DOT) == [DOT] && seq(2, _ => DOT) == [DOT, DOT];
  }

  /** No segment of a canonical path decodes to `.`, `..` or text that holds a separator, so no hop can resolve it. */
  lemma CanonicalSegmentsAreInert(pathname: string)
    requires IsCanonicalPath(pathname)
    ensures forall i :: 0 <= i < |Split(pathname[1..], '/')| ==> IsInert(Split(pathname[1..], '/')[i])
  {
    var segments := Split(pathname[1..], '/');
    if pathname == "/" {
      assert segments == [""];
    } else {
      JoinSplit(pathname[1..], '/');
      forall i | 0 <= i < |segments| ensures IsInert(segments[i]) {
        PieceInherits(segments, '/', i);
        var k :| WithinAt(segments[i], pathname[1..], k);
        assert WithinAt(segments[i], pathname, k + 1);
        SegmentIsInert(pathname, segments[i]);
      }
    }
  }

  ghost predicate WithinAt(piece: string, s: string, k: int) {
    0 <= k <= |s| - |piece| && s[k..k + |piece|] == piece
  }

  /** A piece of a joined text is a stretch of it. */
  ghost predicate Within(piece: string, s: string) {
    exists k :: WithinAt(piece, s, k)
  }

  lemma {:induction false} PieceInherits(parts: seq<string>, c: char, i: nat)
    requires i < |parts|
    ensures Within(parts[i], Join(parts, c))
  {
    var all := Join(parts, c);
    if |parts| == 1 || i == 0 {
      assert WithinAt(parts[0], all, 0);
    } else {
      PieceInherits(parts[1..], c, i - 1);
      var tail := Join(parts[1..], c);
      var k :| WithinAt(parts[1..][i - 1], tail, k);
      var m := |parts[0]| + 1 + k;
      assert all[m..m + |parts[i]|] == tail[k..k + |parts[i]|];
      assert WithinAt(parts[i], all, m);
    }
  }

  lemma HasInherits(s: string, piece: string)
    requires Within(piece, s)
    ensures HasEncodedSeparator(piece) ==> HasEncodedSeparator(s)
    ensures '\\' in piece ==> '\\' in s
  {
    var k :| WithinAt(piece, s, k);
    assert forall i {:trigger piece[i]} :: 0 <= i < |piece| ==> s[k + i] == s[k..k + |piece|][i];
    if HasEncodedSeparator(piece) {
      var i :| 0 <= i && i + 2 < |piece| && IsEncodedSeparator(piece, i);
      assert IsEncodedSeparator(s, k + i);
    }
  }

  // ----- which paths are canonical

  /** The first piece is the text up to the first `c`. */
  lemma {:induction false} FirstPiece(s: string, c: char, n: nat)
    requires n <= |s| && c !in s[..n]
    ensures |Split(s, c)[0]| >= n && Split(s, c)[0][..n] == s[..n]
  {
    if n > 0 {
      assert s[..n][0] == s[0];
      assert s[1..][..n - 1] == s[..n][1..];
      FirstPiece(s[1..], c, n - 1);
      assert s[..n] == [s[0]] + s[1..][..n - 1];
    }
  }

  ghost predicate SomeHas(parts: seq<string>) {
    exists i :: 0 <= i < |parts| && (HasEncodedSeparator(parts[i]) || '\\' in parts[i])
  }

  lemma ConsHas(c: char, s: string)
    requires HasEncodedSeparator(s) || '\\' in s
    ensures HasEncodedSeparator([c] + s) || '\\' in [c] + s
  {
    if HasEncodedSeparator(s) {
      var i :| 0 <= i && i + 2 < |s| && IsEncodedSeparator(s, i);
      assert IsEncodedSeparator([c] + s, i + 1);
    } else {
      var i :| 0 <= i < |s| && s[i] == '\\';
      assert ([c] + s)[i + 1] == '\\';
    }
  }

  /** A backslash or an encoded separator lies in one piece: none of its characters is a `/`. */
  lemma {:induction false} SomePieceHas(s: string)
    requires HasEncodedSeparator(s) || '\\' in s
    ensures SomeHas(Split(s, '/'))
  {
    var parts, rest := Split(s, '/'), Split(s[1..], '/');
    if s[0] == '\\' {
      assert parts[0][0] == '\\';
    } else if |s| > 2 && IsEncodedSeparator(s, 0) {
      assert s[1] != '/' && s[2] != '/';
      FirstPiece(s, '/', 3);
      assert parts[0][0] == parts[0][..3][0] && parts[0][1] == parts[0][..3][1] && parts[0][2] == parts[0][..3][2];
      assert IsEncodedSeparator(parts[0], 0);
    } else {
      RestHas(s);
      SomePieceHas(s[1..]);
      var i :| 0 <= i < |rest| && (HasEncodedSeparator(rest[i]) || '\\' in rest[i]);
      if s[0] == '/' {
        assert parts[i + 1] == rest[i];
      } else if i > 0 {
        assert parts[i] == rest[i];
      } else {
        ConsHas(s[0], rest[0]);
        assert parts[0] == [s[0]] + rest[0];
      }
    }
  }

  lemma RestHas(s: string)
    requires s != "" && s[0] != '\\' && (|s| > 2 ==> !IsEncodedSeparator(s, 0)) && (HasEncodedSeparator(s) || '\\' in s)
    ensures HasEncodedSeparator(s[1..]) || '\\' in s[1..]
  {
    if HasEncodedSeparator(s) {
      var i :| 0 <= i && i + 2 < |s| && IsEncodedSeparator(s, i);
      assert i > 0 && IsEncodedSeparator(s[1..], i - 1);
    } else {
      assert s == [s[0]] + s[1..];
    }
  }

  /** A segment that no hop reads in two ways: it decodes, and to no dot segment and no separator. */
  ghost predicate IsPlainSegment(segment: string) {
    IsInert(segment) && IsDecodable(segment)
  }

  lemma InertHasNone(segment: string)
    requires IsInert(segment)
    ensures !HasEncodedSeparator(segment) && '\\' !in segment && !IsDotSegment(segment)
  {
    DecodedSeparators(segment);
    DecodedDots(segment, 1);
    DecodedDots(segment, 2);
    assert seq(1, _ => '.') == "." && seq(2, _ => '.') == ".." && seq(1, _ => DOT) == [DOT] && seq(2, _ => DOT) == [DOT, DOT];
  }

  /** The canonical paths: after the `/`, every segment is such a one, and only the last may be empty. */
  lemma CanonicalIff(pathname: string)
    ensures IsCanonicalPath(pathname) <==>
              && pathname != "" && pathname[0] == '/'
              && var segments := Split(pathname[1..], '/');
                 forall i :: 0 <= i < |segments| ==> (segments[i] != "" || i == |segments| - 1) && IsPlainSegment(segments[i])
  {
    if pathname != "" && pathname[0] == '/' {
      var rest := pathname[1..];
      var segments := Split(rest, '/');
      assert pathname == "/" + rest;
      if IsCanonicalPath(pathname) {
        CanonicalSegmentsAreInert(pathname);
        if pathname == "/" {
          assert rest == "" && segments == [""];
        }
      } else if forall i :: 0 <= i < |segments| ==> (segments[i] != "" || i == |segments| - 1) && IsPlainSegment(segments[i]) {
        forall i | 0 <= i < |segments| ensures !HasEncodedSeparator(segments[i]) && '\\' !in segments[i] && !IsDotSegment(segments[i]) {
          InertHasNone(segments[i]);
        }
        NoneHas(pathname);
        assert false;
      }
    }
  }

  lemma NoneHas(pathname: string)
    requires pathname != "" && pathname[0] == '/' && !SomeHas(Split(pathname[1..], '/'))
    ensures !HasEncodedSeparator(pathname) && '\\' !in pathname
  {
    if HasEncodedSeparator(pathname) || '\\' in pathname {
      RestHas(pathname);
      SomePieceHas(pathname[1..]);
      assert false;
    }
  }
}
