/**
 * The region locator of an image annotation: the box between two drag corners, its snippet text, and the reader that
 * takes the text back, whatever the image's path holds.
 */
module Region {
  import opened Wrappers
  import opened Text

  const REGION_UNITS: nat := 10000
  const MIN_REGION_SIZE: nat := 30

  datatype Shape = Rect | Ellipse

  datatype Point = Point(x: int, y: int)

  datatype Box = Box(x: int, y: int, w: int, h: int)

  datatype Locator = Locator(src: string, shape: Shape, box: Box)

  // ----- the text

  function ShapeName(shape: Shape): string {
    if shape.Rect? then "rect" else "ellipse"
  }

  function Head(shape: Shape): string {
    "[Region:" + ShapeName(shape) + "] "
  }

  predicate OnGrid(n: int) {
    0 <= n <= REGION_UNITS
  }

  /** The locators a snippet names: an image, a corner on the grid and a size on it that is not zero. */
  predicate Valid(locator: Locator) {
    var b := locator.box;
    locator.src != [] && OnGrid(b.x) && OnGrid(b.y) && OnGrid(b.w) && OnGrid(b.h) && b.w >= 1 && b.h >= 1
  }

  function Tail(box: Box): string
    requires box.x >= 0 && box.y >= 0 && box.w >= 0 && box.h >= 0
  {
    Join([Decimal(box.x), Decimal(box.y), Decimal(box.w), Decimal(box.h)], ',')
  }

  /** `regionTarget.format`. */
  function Format(locator: Locator): string
    requires Valid(locator)
  {
    Head(locator.shape) + locator.src + " @" + Tail(locator.box)
  }

  /** The four numbers after ` @`: decimals without a leading zero, between commas. */
  predicate IsTail(s: string) {
    var parts := Split(s, ',');
    |parts| == 4 && forall i :: 0 <= i < 4 ==> IsDecimal(parts[i])
  }

  predicate SplitsAt(rest: string, i: nat) {
    1 <= i && i + 2 <= |rest| && rest[i] == ' ' && rest[i + 1] == '@' && IsTail(rest[i + 2..])
  }

  /** Where the greedy `src` group ends: the last place at or before `i` from which the pattern's end matches. */
  function GreedyEnd(rest: string, i: nat): (end: Option<nat>)
    ensures end.Some? ==> end.value <= i && SplitsAt(rest, end.value)
  {
    if SplitsAt(rest, i) then Some(i)
    else if i == 0 then None
    else GreedyEnd(rest, i - 1)
  }

  /** `readUnit` of a matched group. */
  function ReadUnit(s: string): Option<int>
    requires IsDecimal(s)
  {
    if DecimalValue(s) > REGION_UNITS then None else Some(DecimalValue(s))
  }

  function ReadRest(shape: Shape, rest: string): Option<Locator> {
    match GreedyEnd(rest, |rest|)
    case None => None
    case Some(end) =>
      var parts := Split(rest[end + 2..], ',');
      var x, y, w, h := ReadUnit(parts[0]), ReadUnit(parts[1]), ReadUnit(parts[2]), ReadUnit(parts[3]);
      if x.None? || y.None? || w.None? || h.None? then None
      else if w.value < 1 || h.value < 1 then None
      else Some(Locator(rest[..end], shape, Box(x.value, y.value, w.value, h.value)))
  }

  /** `regionTarget.parse`. */
  function Parse(snippet: string): Option<Locator> {
    if StartsWith(snippet, Head(Rect)) then ReadRest(Rect, snippet[|Head(Rect)|..])
    else if StartsWith(snippet, Head(Ellipse)) then ReadRest(Ellipse, snippet[|Head(Ellipse)|..])
    else None
  }

  /** The tail of a locator reads back as its four numbers, and holds neither a space nor an at sign. */
  lemma TailReads(box: Box)
    requires box.x >= 0 && box.y >= 0 && box.w >= 0 && box.h >= 0
    ensures Split(Tail(box), ',') == [Decimal(box.x), Decimal(box.y), Decimal(box.w), Decimal(box.h)]
    ensures IsTail(Tail(box)) && ' ' !in Tail(box)
  {
    DecimalReads(box.x);
    DecimalReads(box.y);
    DecimalReads(box.w);
    DecimalReads(box.h);
    hide Decimal, IsDecimal, Split, Join, IsDigit;
    var parts := [Decimal(box.x), Decimal(box.y), Decimal(box.w), Decimal(box.h)];
    DigitsOnly(box.x);
    DigitsOnly(box.y);
    DigitsOnly(box.w);
    DigitsOnly(box.h);
    SplitJoin(parts, ',');
    NoneJoined(parts, ' ');
  }

  lemma DigitsOnly(n: nat)
    ensures ',' !in Decimal(n) && ' ' !in Decimal(n)
  {
    hide Decimal;
    assert forall i :: 0 <= i < |Decimal(n)| ==> IsDigit(Decimal(n)[i]);
  }

  lemma {:induction false} NoneJoined(parts: seq<string>, c: char)
    requires c != ',' && forall i :: 0 <= i < |parts| ==> c !in parts[i]
    ensures c !in Join(parts, ',')
  {
    if |parts| > 1 {
      NoneJoined(parts[1..], c);
    }
  }

  /** The greedy group ends where the locator's path ends, though the path may itself hold ` @1,2,3,4`. */
  lemma {:induction false} GreedyFinds(src: string, tail: string, i: nat)
    requires src != [] && ' ' !in tail && IsTail(tail) && |src| <= i <= |src| + 2 + |tail|
    ensures GreedyEnd(src + " @" + tail, i) == Some(|src|)
  {
    hide IsTail;
    var rest := src + " @" + tail;
    if i == |src| {
      assert rest[i + 2..] == tail;
    } else {
      if i < |rest| {
        assert rest[i] == (if i == |src| + 1 then '@' else tail[i - |src| - 2]) != ' ';
      }
      GreedyFinds(src, tail, i - 1);
    }
  }

  lemma RestReads(locator: Locator)
    requires Valid(locator)
    ensures ReadRest(locator.shape, locator.src + " @" + Tail(locator.box)) == Some(locator)
  {
    var b := locator.box;
    var rest := locator.src + " @" + Tail(b);
    TailReads(b);
    DecimalReads(b.x);
    DecimalReads(b.y);
    DecimalReads(b.w);
    DecimalReads(b.h);
    hide GreedyEnd, IsTail, Decimal, DecimalValue, IsDecimal, Split, Tail;
    GreedyFinds(locator.src, Tail(b), |rest|);
    assert rest[|locator.src| + 2..] == Tail(b) && rest[..|locator.src|] == locator.src;
  }

  lemma RestWrites(shape: Shape, rest: string)
    requires ReadRest(shape, rest).Some?
    ensures var locator := ReadRest(shape, rest).value;
            locator.shape == shape && Valid(locator) && rest == locator.src + " @" + Tail(locator.box)
  {
    var locator := ReadRest(shape, rest).value;
    var end := GreedyEnd(rest, |rest|).value;
    var tail := rest[end + 2..];
    var parts := Split(tail, ',');
    JoinSplit(tail, ',');
    DecimalWrites(parts[0]);
    DecimalWrites(parts[1]);
    DecimalWrites(parts[2]);
    DecimalWrites(parts[3]);
    hide GreedyEnd, IsTail, Decimal, DecimalValue, IsDecimal, Split, Join;
    assert parts == [parts[0], parts[1], parts[2], parts[3]];
    assert rest == rest[..end] + " @" + tail;
  }

  lemma HeadsDiffer(s: string)
    ensures StartsWith(s, Head(Ellipse)) ==> !StartsWith(s, Head(Rect))
  {
    if StartsWith(s, Head(Ellipse)) {
      assert Head(Ellipse)[8] == 'e' && Head(Rect)[8] == 'r';
      assert s[8] == s[..|Head(Ellipse)|][8];
      assert s[..|Head(Rect)|][8] == 'e';
    }
  }

  lemma FormatParses(locator: Locator)
    requires Valid(locator)
    ensures Parse(Format(locator)) == Some(locator)
  {
    hide ReadRest, Tail;
    RestReads(locator);
    hide Valid;
    var snippet := Format(locator);
    var head := Head(locator.shape);
    var rest := locator.src + " @" + Tail(locator.box);
    assert snippet == head + rest;
    assert snippet[..|head|] == head && snippet[|head|..] == rest;
    HeadsDiffer(snippet);
  }

  lemma ParseFormats(snippet: string)
    requires Parse(snippet).Some?
    ensures Valid(Parse(snippet).value) && Format(Parse(snippet).value) == snippet
  {
    hide ReadRest, Tail, Head, Valid;
    var shape := if StartsWith(snippet, Head(Rect)) then Rect else Ellipse;
    var rest := snippet[|Head(shape)|..];
    RestWrites(shape, rest);
    assert snippet == Head(shape) + rest;
  }

  /** The snippets that parse are exactly the ones valid locators format to, each to the locator it came from. */
  lemma ParseIffFormats(snippet: string, locator: Locator)
    ensures Parse(snippet) == Some(locator) <==> Valid(locator) && snippet == Format(locator)
  {
    hide Parse, Valid, Format;
    if Parse(snippet) == Some(locator) {
      ParseFormats(snippet);
    }
    if Valid(locator) {
      FormatParses(locator);
    }
  }

  // ----- the box

  function Min(a: int, b: int): int { if a < b then a else b }

  function Abs(a: int): int { if a < 0 then -a else a }

  function ClampUnit(n: int): int {
    Min(REGION_UNITS, if n < 0 then 0 else n)
  }

  /** `Math.round`. */
  function Round(v: real): int {
    (v + 0.5).Floor
  }

  /** `regionPointIn`. */
  function PointIn(width: real, height: real, offsetX: real, offsetY: real): Option<Point> {
    if !(width > 0.0) || !(height > 0.0) then None
    else Some(Point(ClampUnit(Round(offsetX / width * REGION_UNITS as real)), ClampUnit(Round(offsetY / height * REGION_UNITS as real))))
  }

  /** `regionBetween`. */
  function Between(a: Point, b: Point): Box {
    var x, y := Min(a.x, b.x), Min(a.y, b.y);
    Box(x, y, Min(REGION_UNITS - x, Abs(a.x - b.x)), Min(REGION_UNITS - y, Abs(a.y - b.y)))
  }

  /** `isDrawableRegion`. */
  predicate Drawable(box: Box) {
    box.w >= MIN_REGION_SIZE && box.h >= MIN_REGION_SIZE
  }

  predicate InImage(box: Box) {
    box.x >= 0 && box.y >= 0 && box.w >= 0 && box.h >= 0 && box.x + box.w <= REGION_UNITS && box.y + box.h <= REGION_UNITS
  }

  /** A pointer inside the image lands on the grid point next to it, and outside it on the edge. */
  lemma PointIsNearest(width: real, height: real, offsetX: real, offsetY: real)
    ensures PointIn(width, height, offsetX, offsetY).Some? <==> width > 0.0 && height > 0.0
    ensures width > 0.0 && height > 0.0 ==>
              var p := PointIn(width, height, offsetX, offsetY).value;
              && OnGrid(p.x) && OnGrid(p.y)
              && (0.0 <= offsetX <= width ==> -0.5 <= p.x as real - offsetX / width * 10000.0 <= 0.5)
              && (0.0 <= offsetY <= height ==> -0.5 <= p.y as real - offsetY / height * 10000.0 <= 0.5)
              && (offsetX <= 0.0 ==> p.x == 0) && (offsetX >= width ==> p.x == REGION_UNITS)
              && (offsetY <= 0.0 ==> p.y == 0) && (offsetY >= height ==> p.y == REGION_UNITS)
  {
    if width > 0.0 && height > 0.0 {
      UnitIsNearest(offsetX, width);
      UnitIsNearest(offsetY, height);
    }
  }

  lemma UnitIsNearest(offset: real, extent: real)
    requires extent > 0.0
    ensures var n := ClampUnit(Round(offset / extent * 10000.0));
            && OnGrid(n)
            && (0.0 <= offset <= extent ==> -0.5 <= n as real - offset / extent * 10000.0 <= 0.5)
            && (offset <= 0.0 ==> n == 0) && (offset >= extent ==> n == REGION_UNITS)
  {
    ShareOf(offset, extent);
  }

  lemma ShareOf(offset: real, extent: real)
    requires extent > 0.0
    ensures offset >= 0.0 <==> offset / extent >= 0.0
    ensures offset <= 0.0 <==> offset / extent <= 0.0
    ensures offset <= extent <==> offset / extent <= 1.0
    ensures offset >= extent <==> offset / extent >= 1.0
  {
    var share := offset / extent;
    assert share * extent == offset;
    Scaled(share, extent);
    WholeShare(offset, extent, share);
  }

  lemma WholeShare(offset: real, extent: real, share: real)
    requires extent > 0.0 && share * extent == offset
    ensures offset <= extent <==> share <= 1.0
    ensures offset >= extent <==> share >= 1.0
  {
    Scaled(share - 1.0, extent);
    Distributes(share, extent);
  }

  lemma Distributes(share: real, extent: real)
    ensures (share - 1.0) * extent == share * extent - extent
  {
  }

  lemma Positive(x: real, extent: real)
    requires x > 0.0 && extent > 0.0
    ensures x * extent > 0.0
  {
  }

  lemma Scaled(x: real, extent: real)
    requires extent > 0.0
    ensures (x * extent > 0.0 <==> x > 0.0) && (x * extent < 0.0 <==> x < 0.0)
  {
    if x > 0.0 {
      Positive(x, extent);
    } else if x < 0.0 {
      Positive(-x, extent);
      assert (-x) * extent == -(x * extent);
    } else {
      assert x == 0.0;
      assert x * extent == 0.0;
    }
  }

  /**
   * Two corners on the grid, whichever was first, span one box inside the image, with exactly them as its sides; it can
   * be drawn exactly when they are 30 units apart both ways.
   */
  lemma CornersSpan(a: Point, b: Point)
    requires OnGrid(a.x) && OnGrid(a.y) && OnGrid(b.x) && OnGrid(b.y)
    ensures Between(a, b) == Between(b, a) && InImage(Between(a, b))
    ensures {Between(a, b).x, Between(a, b).x + Between(a, b).w} == {a.x, b.x}
    ensures {Between(a, b).y, Between(a, b).y + Between(a, b).h} == {a.y, b.y}
    ensures Drawable(Between(a, b)) <==> Abs(a.x - b.x) >= MIN_REGION_SIZE && Abs(a.y - b.y) >= MIN_REGION_SIZE
  {
  }

  /** A region drawn between any two pointer positions reads back from its snippet as the box drawn. */
  lemma DrawnReadsBack(width: real, height: real, x0: real, y0: real, x1: real, y1: real, src: string, shape: Shape)
    requires width > 0.0 && height > 0.0 && src != []
    ensures var a, b := PointIn(width, height, x0, y0).value, PointIn(width, height, x1, y1).value;
            var drawn := Locator(src, shape, Between(a, b));
            Drawable(Between(a, b)) ==>
              Valid(drawn) && Parse(Format(drawn)) == Some(drawn) && drawn.box == Between(b, a) && InImage(drawn.box)
  {
    PointIsNearest(width, height, x0, y0);
    PointIsNearest(width, height, x1, y1);
    hide PointIn, Format, Parse;
    var a, b := PointIn(width, height, x0, y0).value, PointIn(width, height, x1, y1).value;
    CornersSpan(a, b);
    var drawn := Locator(src, shape, Between(a, b));
    if Drawable(Between(a, b)) {
      ParseIffFormats(Format(drawn), drawn);
    }
  }
}
