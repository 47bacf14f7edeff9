/** `_ssd1306_line`: the pixels of a line. */
module LineDrawing {
  import opened Framebuffer

  function Abs(a: int): nat {
    if a < 0 then -a else a
  }

  function Sign(to: int, from: int): int {
    if to > from then 1 else -1
  }

  /** How far the line has gone sideways after `i` steps of `major` in all: to the nearest pixel, and up if two are
      as near. */
  function Offset(i: nat, minor: nat, major: nat): nat {
    if major == 0 then 0 else (2 * i * minor + major) / (2 * major)
  }

  /** Pixel number `i` of the line. */
  function LinePixel(x1: int, y1: int, x2: int, y2: int, i: nat): (int, int) {
    var dx, dy := Abs(x2 - x1), Abs(y2 - y1);
    if dx > dy then (x1 + Sign(x2, x1) * i, y1 + Sign(y2, y1) * Offset(i, dy, dx))
    else (x1 + Sign(x2, x1) * Offset(i, dx, dy), y1 + Sign(y2, y1) * i)
  }

  /** The error term after `i` steps of which `k` went sideways. */
  predicate InStep(e: int, i: nat, k: nat, minor: nat, major: nat) {
    e == 2 * (i * minor) - 2 * (major * k) - major && -2 * major <= e < 0
  }

  lemma QuotientIs(n: nat, d: nat, k: nat)
    requires d > 0 && d * k <= n < d * k + d
    ensures n / d == k
  {
    var q := n / d;
    assert d * q <= n < d * q + d;
    TimesOrdered(d, k, q);
    TimesOrdered(d, q, k);
  }

  lemma TimesNext(d: nat, a: nat)
    ensures d * (a + 1) == d * a + d
  {}

  lemma {:induction false} TimesOrdered(d: nat, a: nat, b: nat)
    ensures a < b ==> d * a + d <= d * b
  {
    if a < b {
      TimesNext(d, b - 1);
      TimesOrdered(d, a, b - 1);
    }
  }

  /** The running error term counts the sideways steps exactly. */
  lemma StepOffset(e: int, i: nat, k: nat, minor: nat, major: nat)
    requires InStep(e, i, k, minor, major) && major > 0
    ensures Offset(i, minor, major) == k
  {
    assert 2 * i * minor == 2 * (i * minor) && 2 * major * k == 2 * (major * k);
    QuotientIs(2 * i * minor + major, 2 * major, k);
  }

  lemma NextStep(e: int, i: nat, k: nat, minor: nat, major: nat)
    requires InStep(e, i, k, minor, major) && minor <= major && major > 0
    ensures var n := e + 2 * minor;
            InStep(if n >= 0 then n - 2 * major else n, i + 1, if n >= 0 then k + 1 else k, minor, major)
  {
    assert (i + 1) * minor == i * minor + minor && major * (k + 1) == major * k + major;
  }

  lemma FirstStep(minor: nat, major: nat)
    requires major > 0
    ensures InStep(-(major as int), 0, 0, minor, major)
  {}

  /** The line never leaves the true one by more than half a pixel. */
  lemma WithinHalfAPixel(i: nat, minor: nat, major: nat)
    requires major > 0
    ensures -(major as int) <= 2 * (i * minor) - 2 * (major * Offset(i, minor, major)) < major
  {
    var n, k := 2 * i * minor + major, Offset(i, minor, major);
    assert 2 * major * k <= n < 2 * major * k + 2 * major;
    assert 2 * i * minor == 2 * (i * minor) && 2 * major * k == 2 * (major * k);
  }

  /** It stays between its ends, and reaches both. */
  lemma OffsetEnds(i: nat, minor: nat, major: nat)
    requires minor <= major && i <= major
    ensures Offset(i, minor, major) <= minor && Offset(0, minor, major) == 0 && Offset(major, minor, major) == minor
  {
    if major > 0 {
      QuotientIs(major, 2 * major, 0);
      assert 2 * major * minor == (2 * major) * minor;
      QuotientIs(2 * major * minor + major, 2 * major, minor);
      var k := Offset(i, minor, major);
      WithinHalfAPixel(i, minor, major);
      TimesAtMost(i, major, minor);
      TimesOrdered(major, minor, k);
    }
  }

  lemma TimesAtMost(a: nat, b: nat, c: nat)
    requires a <= b
    ensures a * c <= b * c
  {
    assert b * c == a * c + (b - a) * c;
  }

  /** Both ends are drawn, and everything lies in the rectangle between them. */
  lemma LineEnds(x1: int, y1: int, x2: int, y2: int, i: nat)
    requires i <= Length(x1, y1, x2, y2)
    ensures LinePixel(x1, y1, x2, y2, 0) == (x1, y1)
    ensures LinePixel(x1, y1, x2, y2, Length(x1, y1, x2, y2)) == (x2, y2)
    ensures var (x, y) := LinePixel(x1, y1, x2, y2, i);
            (x1 <= x <= x2 || x2 <= x <= x1) && (y1 <= y <= y2 || y2 <= y <= y1)
  {
    var dx, dy := Abs(x2 - x1), Abs(y2 - y1);
    if dx > dy {
      OffsetEnds(i, dy, dx);
    } else {
      OffsetEnds(i, dx, dy);
    }
    hide Offset;
    assert Sign(x2, x1) * 0 == 0 && Sign(y2, y1) * 0 == 0;
  }

  /** How many steps the line takes. */
  function Length(x1: int, y1: int, x2: int, y2: int): nat {
    var dx, dy := Abs(x2 - x1), Abs(y2 - y1);
    if dx > dy then dx else dy
  }

  /** How a pixel comes out of plotting these one after the other, if it and the one mirrored in its byte were on or not
      before: on a flipped display every plot turns the rest of its byte around. */
  function Comes(plotted: seq<(int, int)>, invert: bool, flip: bool, x: int, y: int, was: bool, mirrored: bool): bool
    decreases |plotted|
  {
    if plotted == [] then was else
    var (px, py), before := plotted[|plotted| - 1], plotted[..|plotted| - 1];
    if (x, y) == (px, py) then !invert
    else if flip && SameByte(x, y, px, py) then Comes(before, invert, flip, x, Mirrored(y), mirrored, was)
    else Comes(before, invert, flip, x, y, was, mirrored)
  }

  lemma ComesNext(plotted: seq<(int, int)>, p: (int, int), invert: bool, flip: bool, x: int, y: int, was: bool,
                  mirrored: bool)
    ensures Comes(plotted + [p], invert, flip, x, y, was, mirrored)
         == if (x, y) == p then !invert
            else if flip && SameByte(x, y, p.0, p.1) then Comes(plotted, invert, flip, x, Mirrored(y), mirrored, was)
            else Comes(plotted, invert, flip, x, y, was, mirrored)
  {
    assert (plotted + [p])[..|plotted|] == plotted;
  }

  /** On a display that is not flipped exactly these pixels are lit, or put out. */
  lemma {:induction false} ComesUnflipped(plotted: seq<(int, int)>, invert: bool, x: int, y: int, was: bool,
                                          mirrored: bool)
    ensures Comes(plotted, invert, false, x, y, was, mirrored) == if (x, y) in plotted then !invert else was
    decreases |plotted|
  {
    if plotted != [] {
      var before, last := plotted[..|plotted| - 1], plotted[|plotted| - 1];
      assert plotted == before + [last];
      ComesUnflipped(before, invert, x, y, was, mirrored);
      ComesNext(before, last, invert, false, x, y, was, mirrored);
    }
  }

  // On a flipped display a line comes out right exactly if no two of its pixels share a byte.

  function ByteOf(pixel: (int, int)): (int, int) {
    (pixel.0, pixel.1 / 8)
  }

  predicate NoSharedByte(plotted: seq<(int, int)>) {
    forall i, j :: 0 <= i < j < |plotted| ==> ByteOf(plotted[i]) != ByteOf(plotted[j])
  }

  predicate OddlyApart(y: int, y': int) {
    (y - y') % 2 != 0
  }

  /** Pixels in one byte have been plotted one right after the other, with odd distances between them. */
  predicate Winds(plotted: seq<(int, int)>) {
    forall i, j :: 0 <= i < j < |plotted| && ByteOf(plotted[i]) == ByteOf(plotted[j]) ==>
      ByteOf(plotted[j - 1]) == ByteOf(plotted[j]) && OddlyApart(plotted[j - 1].1, plotted[j].1)
  }

  /** Number `k` was the last to be plotted in this byte. */
  predicate LastIn(plotted: seq<(int, int)>, byte: (int, int), k: nat) {
    && k < |plotted| && ByteOf(plotted[k]) == byte
    && forall j :: k < j < |plotted| ==> ByteOf(plotted[j]) != byte
  }

  lemma MirrorTurnsParity(x: int, y: int)
    ensures OddlyApart(y, Mirrored(y)) && ByteOf((x, Mirrored(y))) == ByteOf((x, y))
  {}

  lemma OddAndOdd(a: int, b: int, c: int, d: int)
    requires OddlyApart(a, b) && !OddlyApart(b, c) && OddlyApart(c, d)
    ensures !OddlyApart(a, d)
  {}

  /** Where nothing is plotted, nothing changes. */
  lemma {:induction false} OtherBytesStay(plotted: seq<(int, int)>, invert: bool, flip: bool, x: int, y: int, was: bool,
                                          mirrored: bool)
    requires forall i :: 0 <= i < |plotted| ==> !SameByte(x, y, plotted[i].0, plotted[i].1)
    ensures Comes(plotted, invert, flip, x, y, was, mirrored) == was
    decreases |plotted|
  {
    if plotted != [] {
      OtherBytesStay(plotted[..|plotted| - 1], invert, flip, x, y, was, mirrored);
    }
  }

  /** Of the pixels in a byte, only those show whose row has the parity of the last one plotted there. */
  lemma {:induction false} OneParityShows(plotted: seq<(int, int)>, invert: bool, x: int, y: int) returns (k: nat)
    requires Winds(plotted) && Comes(plotted, invert, true, x, y, invert, invert) != invert
    ensures LastIn(plotted, ByteOf((x, y)), k) && !OddlyApart(y, plotted[k].1)
    decreases |plotted|
  {
    hide Mirrored;
    var n := |plotted| - 1;
    var before, last := plotted[..n], plotted[n];
    if (x, y) == last {
      k := n;
    } else if SameByte(x, y, last.0, last.1) {
      k := n;
      MirrorTurnsParity(x, y);
      var k' := OneParityShows(before, invert, x, Mirrored(y));
      hide ByteOf, OddlyApart, Comes;
      assert ByteOf(plotted[k']) == ByteOf(last) == ByteOf(before[n - 1]);
      OddAndOdd(y, Mirrored(y), plotted[n - 1].1, last.1);
    } else {
      k := OneParityShows(before, invert, x, y);
    }
  }

  /** Where all pixels have bytes of their own, exactly they show. */
  lemma {:induction false} AloneShows(plotted: seq<(int, int)>, invert: bool, x: int, y: int)
    requires NoSharedByte(plotted)
    ensures Comes(plotted, invert, true, x, y, invert, invert) != invert <==> (x, y) in plotted
    decreases |plotted|
  {
    if plotted != [] {
      var n := |plotted| - 1;
      var before := plotted[..n];
      var (px, py) := plotted[n];
      assert plotted == before + [(px, py)];
      if (x, y) != (px, py) && SameByte(x, y, px, py) {
        OtherBytesStay(before, invert, true, x, Mirrored(y), invert, invert);
        assert forall i :: 0 <= i < n ==> plotted[i] != (x, y);
      } else if (x, y) != (px, py) {
        AloneShows(before, invert, x, y);
      }
    }
  }

  lemma {:induction false} SomeLast(plotted: seq<(int, int)>, j: nat) returns (k: nat)
    requires j < |plotted|
    ensures j <= k && LastIn(plotted, ByteOf(plotted[j]), k)
    decreases |plotted| - j
  {
    if i :| j < i < |plotted| && ByteOf(plotted[j]) == ByteOf(plotted[i]) {
      k := SomeLast(plotted, i);
    } else {
      k := j;
    }
  }

  /** If two share a byte, the last but one in it does not show. */
  lemma SharedIsHidden(plotted: seq<(int, int)>, invert: bool, i: nat, j: nat) returns (hidden: nat)
    requires Winds(plotted) && i < j < |plotted| && ByteOf(plotted[i]) == ByteOf(plotted[j])
    ensures hidden < |plotted|
    ensures Comes(plotted, invert, true, plotted[hidden].0, plotted[hidden].1, invert, invert) == invert
  {
    hide Comes, ByteOf, OddlyApart;
    var k := SomeLast(plotted, j);
    hidden := k - 1;
    var (x, y) := plotted[hidden];
    assert ByteOf(plotted[hidden]) == ByteOf(plotted[k]) && OddlyApart(y, plotted[k].1);
    if Comes(plotted, invert, true, x, y, invert, invert) != invert {
      var last := OneParityShows(plotted, invert, x, y);
      SameLast(plotted, ByteOf((x, y)), last, k);
    }
  }

  lemma SameLast(plotted: seq<(int, int)>, byte: (int, int), j: nat, k: nat)
    requires LastIn(plotted, byte, j) && LastIn(plotted, byte, k)
    ensures j == k
  {}

  /** On a flipped display that is blank, or full if pixels are put out, what is plotted in this way is what shows
      exactly if no two pixels share a byte. */
  lemma FlippedExactly(plotted: seq<(int, int)>, invert: bool)
    requires Winds(plotted)
    ensures (forall x, y :: Comes(plotted, invert, true, x, y, invert, invert) != invert <==> (x, y) in plotted)
       <==> NoSharedByte(plotted)
  {
    hide Comes;
    if NoSharedByte(plotted) {
      forall x, y ensures Comes(plotted, invert, true, x, y, invert, invert) != invert <==> (x, y) in plotted {
        AloneShows(plotted, invert, x, y);
      }
    } else {
      var i, j :| 0 <= i < j < |plotted| && ByteOf(plotted[i]) == ByteOf(plotted[j]);
      var hidden := SharedIsHidden(plotted, invert, i, j);
      assert plotted[hidden] in plotted;
    }
  }

  // Lines wind like that.

  /** All pixels of a line. */
  function LinePixels(x1: int, y1: int, x2: int, y2: int): (line: seq<(int, int)>)
    ensures |line| == Length(x1, y1, x2, y2) + 1
    ensures forall i :: 0 <= i < |line| ==> line[i] == LinePixel(x1, y1, x2, y2, i)
  {
    seq(Length(x1, y1, x2, y2) + 1, i requires 0 <= i => LinePixel(x1, y1, x2, y2, i))
  }

  lemma OffsetGrows(i: nat, j: nat, minor: nat, major: nat)
    requires i <= j
    ensures Offset(i, minor, major) <= Offset(j, minor, major)
  {
    if major > 0 {
      TimesAtMost(i, j, minor);
      assert 2 * i * minor == 2 * (i * minor) && 2 * j * minor == 2 * (j * minor);
      var p, q := Offset(i, minor, major), Offset(j, minor, major);
      TimesOrdered(2 * major, q, p);
    }
  }

  lemma LineWinds(x1: int, y1: int, x2: int, y2: int)
    ensures Winds(LinePixels(x1, y1, x2, y2))
  {
    var line := LinePixels(x1, y1, x2, y2);
    hide LinePixels, LinePixel;
    forall i, j | 0 <= i < j < |line| && ByteOf(line[i]) == ByteOf(line[j])
      ensures ByteOf(line[j - 1]) == ByteOf(line[j]) && OddlyApart(line[j - 1].1, line[j].1)
    {
      PixelsWind(x1, y1, x2, y2, i, j);
    }
  }

  lemma PixelsWind(x1: int, y1: int, x2: int, y2: int, i: nat, j: nat)
    requires i < j && ByteOf(LinePixel(x1, y1, x2, y2, i)) == ByteOf(LinePixel(x1, y1, x2, y2, j))
    ensures ByteOf(LinePixel(x1, y1, x2, y2, j - 1)) == ByteOf(LinePixel(x1, y1, x2, y2, j))
    ensures OddlyApart(LinePixel(x1, y1, x2, y2, j - 1).1, LinePixel(x1, y1, x2, y2, j).1)
  {
    var dx, dy := Abs(x2 - x1), Abs(y2 - y1);
    OffsetGrows(i, j - 1, dx, dy);
    OffsetGrows(j - 1, j, dx, dy);
    hide Offset, Abs;
  }

  /** So a line on such a display shows exactly its pixels if and only if no two of them share a byte. */
  lemma FlippedLineExactly(x1: int, y1: int, x2: int, y2: int, invert: bool)
    ensures var line := LinePixels(x1, y1, x2, y2);
            ((forall x, y :: Comes(line, invert, true, x, y, invert, invert) != invert <==> (x, y) in line)
             <==> NoSharedByte(line))
  {
    LineWinds(x1, y1, x2, y2);
    FlippedExactly(LinePixels(x1, y1, x2, y2), invert);
  }

  /** It is enough to look at neighbours. */
  lemma NeighboursDecide(x1: int, y1: int, x2: int, y2: int)
    ensures var line := LinePixels(x1, y1, x2, y2);
            (NoSharedByte(line) <==> forall j :: 0 < j < |line| ==> ByteOf(line[j - 1]) != ByteOf(line[j]))
  {
    LineWinds(x1, y1, x2, y2);
    var line := LinePixels(x1, y1, x2, y2);
    hide LinePixels, ByteOf, OddlyApart;
    if !NoSharedByte(line) {
      var i, j :| 0 <= i < j < |line| && ByteOf(line[i]) == ByteOf(line[j]);
      assert ByteOf(line[j - 1]) == ByteOf(line[j]);
    }
  }

  /** Lines of an inclination of at most 1 are all right. */
  lemma GentleLinesCome(x1: int, y1: int, x2: int, y2: int)
    requires Abs(y2 - y1) <= Abs(x2 - x1)
    ensures NoSharedByte(LinePixels(x1, y1, x2, y2))
  {
    NeighboursDecide(x1, y1, x2, y2);
    var line := LinePixels(x1, y1, x2, y2);
    forall j | 0 < j < |line| ensures ByteOf(line[j - 1]) != ByteOf(line[j]) {
      if Abs(y2 - y1) == Abs(x2 - x1) {
        OffsetEven(j - 1, Abs(x2 - x1));
        OffsetEven(j, Abs(x2 - x1));
      }
      hide Offset;
    }
  }

  lemma OffsetEven(i: nat, n: nat)
    requires n > 0
    ensures Offset(i, n, n) == i
  {
    assert 2 * i * n == (2 * n) * i;
    QuotientIs(2 * i * n + n, 2 * n, i);
  }

  /** On a blank flipped display, a line from (x, 0) to (x, 1) shows its second pixel and not its first one. */
  lemma FlippedLineBreaks(x: int)
    ensures var line := LinePixels(x, 0, x, 1);
            line == [(x, 0), (x, 1)] && !NoSharedByte(line)
            && !Comes(line, false, true, x, 0, false, false) && Comes(line, false, true, x, 1, false, false)
  {
    var line := LinePixels(x, 0, x, 1);
    assert line == [(x, 0), (x, 1)] && ByteOf(line[0]) == ByteOf(line[1]);
    assert line[..1] == [(x, 0)] && [(x, 0)][..0] == [];
    assert Mirrored(0) == 7 && Mirrored(7) == 0;
    assert !Comes([(x, 0)], false, true, x, 7, false, false);
  }

  type Screen = map<(int, int), bool>

  /** What a display shows. */
  ghost function ScreenOf(dev: Display): (screen: Screen)
    requires dev.Valid()
    reads dev.segs
    ensures forall x, y :: dev.Has(x, y) ==> (x, y) in screen && screen[(x, y)] == dev.Lit(x, y)
  {
    map x, y | 0 <= x < SEGMENTS && 0 <= y < 8 * dev.pages :: (x, y) := dev.Lit(x, y)
  }

  /** A display that has shown `was` shows what comes of plotting these pixels in this order. */
  ghost predicate Drawn(dev: Display, was: Screen, plotted: seq<(int, int)>, invert: bool)
    requires dev.Valid()
    reads dev.segs
  {
    forall x, y :: dev.Has(x, y) ==> PixelDrawn(dev, was, plotted, invert, x, y)
  }

  ghost predicate PixelDrawn(dev: Display, was: Screen, plotted: seq<(int, int)>, invert: bool, x: int, y: int)
    requires dev.Valid() && dev.Has(x, y)
    reads dev.segs
  {
    && (x, y) in was && (x, Mirrored(y)) in was
    && dev.Lit(x, y) == Comes(plotted, invert, dev.flip, x, y, was[(x, y)], was[(x, Mirrored(y))])
  }

  lemma MirroredInside(dev: Display, x: int, y: int)
    requires dev.Has(x, y)
    ensures dev.Has(x, Mirrored(y)) && Mirrored(Mirrored(y)) == y
  {}

  lemma NothingDrawn(dev: Display)
    requires dev.Valid()
    ensures Drawn(dev, ScreenOf(dev), [], false) && Drawn(dev, ScreenOf(dev), [], true)
  {
    hide Bit, Rotated, Mirrored;
    forall x, y | dev.Has(x, y)
      ensures PixelDrawn(dev, ScreenOf(dev), [], false, x, y) && PixelDrawn(dev, ScreenOf(dev), [], true, x, y)
    {
      MirroredInside(dev, x, y);
    }
  }

  method Plot(dev: Display, x: int, y: int, invert: bool, ghost was: Screen, ghost plotted: seq<(int, int)>)
    requires dev.Valid() && dev.Has(x, y) && Drawn(dev, was, plotted, invert)
    modifies dev.segs
    ensures Drawn(dev, was, plotted + [(x, y)], invert)
  {
    hide Comes, Bit, Rotated, Mirrored, Shown;
    dev.Pixel(x, y, invert);
    forall u, v | dev.Has(u, v) ensures PixelDrawn(dev, was, plotted + [(x, y)], invert, u, v) {
      MirroredInside(dev, u, v);
      assert old(PixelDrawn(dev, was, plotted, invert, u, v));
      assert old(PixelDrawn(dev, was, plotted, invert, u, Mirrored(v)));
      ComesNext(plotted, (x, y), invert, dev.flip, u, v, was[(u, v)], was[(u, Mirrored(v))]);
    }
  }

  /** What has been plotted so far. */
  ghost predicate FollowsLine(plotted: seq<(int, int)>, x1: int, y1: int, x2: int, y2: int) {
    forall j :: 0 <= j < |plotted| ==> plotted[j] == LinePixel(x1, y1, x2, y2, j)
  }

  lemma IsWholeLine(plotted: seq<(int, int)>, x1: int, y1: int, x2: int, y2: int)
    requires |plotted| == Length(x1, y1, x2, y2) + 1 && FollowsLine(plotted, x1, y1, x2, y2)
    ensures plotted == LinePixels(x1, y1, x2, y2)
  {
    hide LinePixel;
  }

  /** On a display that has been blank, or full, everything outside the buffer is as it should be. */
  lemma ShownIsComes(dev: Display, was: Screen, x1: int, y1: int, x2: int, y2: int, invert: bool)
    requires dev.Valid() && dev.flip && dev.Has(x1, y1) && dev.Has(x2, y2)
    requires forall x, y :: dev.Has(x, y) ==> (x, y) in was && was[(x, y)] == invert
    requires Drawn(dev, was, LinePixels(x1, y1, x2, y2), invert)
    ensures var line := LinePixels(x1, y1, x2, y2);
            ((forall x, y :: dev.Has(x, y) ==> (dev.Lit(x, y) != invert <==> (x, y) in line))
             <==> (forall x, y :: Comes(line, invert, true, x, y, invert, invert) != invert <==> (x, y) in line))
  {
    hide Comes, Bit, Rotated, Mirrored;
    var line := LinePixels(x1, y1, x2, y2);
    forall x, y | dev.Has(x, y) ensures dev.Lit(x, y) == Comes(line, invert, true, x, y, invert, invert) {
      assert PixelDrawn(dev, was, line, invert, x, y);
      MirroredInside(dev, x, y);
    }
    forall x, y | !dev.Has(x, y)
      ensures Comes(line, invert, true, x, y, invert, invert) != invert <==> (x, y) in line
    {
      OutsideStays(dev, x1, y1, x2, y2, invert, x, y);
    }
  }

  lemma OutsideStays(dev: Display, x1: int, y1: int, x2: int, y2: int, invert: bool, x: int, y: int)
    requires dev.Has(x1, y1) && dev.Has(x2, y2) && !dev.Has(x, y)
    ensures var line := LinePixels(x1, y1, x2, y2);
            Comes(line, invert, true, x, y, invert, invert) == invert && (x, y) !in line
  {
    var line := LinePixels(x1, y1, x2, y2);
    forall i | 0 <= i < |line| ensures !SameByte(x, y, line[i].0, line[i].1) {
      LineEnds(x1, y1, x2, y2, i);
      hide LinePixel;
    }
    OtherBytesStay(line, invert, true, x, y, invert, invert);
  }

  method Line(dev: Display, x1: int, y1: int, x2: int, y2: int, invert: bool) returns (ghost plotted: seq<(int, int)>)
    requires dev.Valid() && dev.Has(x1, y1) && dev.Has(x2, y2)
    modifies dev.segs
    ensures plotted == LinePixels(x1, y1, x2, y2)
    ensures Drawn(dev, old(ScreenOf(dev)), plotted, invert)
    ensures !dev.flip ==>
              forall x, y :: dev.Has(x, y) ==>
                dev.Lit(x, y) == if (x, y) in plotted then !invert else old(dev.Lit(x, y))
    ensures dev.flip && (forall x, y :: dev.Has(x, y) ==> old(dev.Lit(x, y)) == invert) ==>
              ((forall x, y :: dev.Has(x, y) ==> (dev.Lit(x, y) != invert <==> (x, y) in plotted))
               <==> NoSharedByte(plotted))
  {
    var dx := if x2 > x1 then x2 - x1 else x1 - x2;
    var dy := if y2 > y1 then y2 - y1 else y1 - y2;
    var sx := if x2 > x1 then 1 else -1;
    var sy := if y2 > y1 then 1 else -1;
    hide FollowsLine, Comes, Bit, Rotated, Mirrored, ScreenOf;
    ghost var was := ScreenOf(dev);
    NothingDrawn(dev);
    if dx > dy {
      plotted := FlatLine(dev, x1, y1, x2, y2, dx, dy, sx, sy, invert, was);
    } else {
      plotted := SteepLine(dev, x1, y1, x2, y2, dx, dy, sx, sy, invert, was);
    }
    IsWholeLine(plotted, x1, y1, x2, y2);
    if !dev.flip {
      forall x, y | dev.Has(x, y) ensures dev.Lit(x, y) == if (x, y) in plotted then !invert else old(dev.Lit(x, y)) {
        assert PixelDrawn(dev, was, plotted, invert, x, y);
        ComesUnflipped(plotted, invert, x, y, was[(x, y)], was[(x, Mirrored(y))]);
      }
    } else if forall x, y :: dev.Has(x, y) ==> was[(x, y)] == invert {
      FlippedLineExactly(x1, y1, x2, y2, invert);
      ShownIsComes(dev, was, x1, y1, x2, y2, invert);
    }
  }

  /** Inclination below 1. */
  method FlatLine(dev: Display, x1: int, y1: int, x2: int, y2: int, dx: nat, dy: nat, sx: int, sy: int, invert: bool,
                  ghost was: Screen)
    returns (ghost plotted: seq<(int, int)>)
    requires dev.Valid() && dev.Has(x1, y1) && dev.Has(x2, y2)
    requires dx == Abs(x2 - x1) > dy == Abs(y2 - y1) && sx == Sign(x2, x1) && sy == Sign(y2, y1)
    requires Drawn(dev, was, [], invert)
    modifies dev.segs
    ensures |plotted| == dx + 1 && FollowsLine(plotted, x1, y1, x2, y2) && Drawn(dev, was, plotted, invert)
  {
    hide LinePixel, Offset, InStep, Sign, Abs, Drawn;
    var x, y := x1, y1;
    plotted := [];
    ghost var k: nat := 0;
    var E: int := 0 - dx;
    FirstStep(dy, dx);
    var i: nat := 0;
    while i <= dx
      invariant i <= dx + 1 && |plotted| == i && InStep(E, i, k, dy, dx) && x == x1 + sx * i && y == y1 + sy * k
      invariant FollowsLine(plotted, x1, y1, x2, y2) && Drawn(dev, was, plotted, invert)
    {
      StepOffset(E, i, k, dy, dx);
      Flat(x1, y1, x2, y2, i);
      LineEnds(x1, y1, x2, y2, i);
      Plot(dev, x, y, invert, was, plotted);
      plotted := plotted + [(x, y)];
      NextStep(E, i, k, dy, dx);
      Across(sx, i);
      Across(sy, k);
      x := x + sx;
      E := E + 2 * dy;
      if E >= 0 {
        y := y + sy;
        E := E - 2 * dx;
        k := k + 1;
      }
      i := i + 1;
    }
  }

  /** Inclination 1 or more; also a single point. */
  method SteepLine(dev: Display, x1: int, y1: int, x2: int, y2: int, dx: nat, dy: nat, sx: int, sy: int, invert: bool,
                  ghost was: Screen)
    returns (ghost plotted: seq<(int, int)>)
    requires dev.Valid() && dev.Has(x1, y1) && dev.Has(x2, y2)
    requires dx == Abs(x2 - x1) <= dy == Abs(y2 - y1) && sx == Sign(x2, x1) && sy == Sign(y2, y1)
    requires Drawn(dev, was, [], invert)
    modifies dev.segs
    ensures |plotted| == dy + 1 && FollowsLine(plotted, x1, y1, x2, y2) && Drawn(dev, was, plotted, invert)
  {
    hide LinePixel, Offset, InStep, Sign, Abs, Drawn;
    var x, y := x1, y1;
    plotted := [];
    ghost var k: nat := 0;
    var E: int := 0 - dy;
    if dy > 0 {
      FirstStep(dx, dy);
    }
    var i: nat := 0;
    while i <= dy
      invariant i <= dy + 1 && |plotted| == i
      invariant dy > 0 ==> InStep(E, i, k, dx, dy)
      invariant i <= dy && dy == 0 ==> E == 0 && k == 0
      invariant x == x1 + sx * k && y == y1 + sy * i
      invariant FollowsLine(plotted, x1, y1, x2, y2) && Drawn(dev, was, plotted, invert)
    {
      if dy > 0 {
        StepOffset(E, i, k, dx, dy);
        NextStep(E, i, k, dx, dy);
      } else {
        NoOffset(i, dx);
      }
      Steep(x1, y1, x2, y2, i);
      LineEnds(x1, y1, x2, y2, i);
      Plot(dev, x, y, invert, was, plotted);
      plotted := plotted + [(x, y)];
      Across(sy, i);
      Across(sx, k);
      y := y + sy;
      E := E + 2 * dx;
      if E >= 0 {
        x := x + sx;
        E := E - 2 * dy;
        k := k + 1;
      }
      i := i + 1;
    }
  }

  lemma Across(s: int, k: nat)
    ensures s * (k + 1) == s * k + s
  {}

  lemma NoOffset(i: nat, minor: nat)
    ensures Offset(i, minor, 0) == 0
  {}

  lemma Flat(x1: int, y1: int, x2: int, y2: int, i: nat)
    requires Abs(x2 - x1) > Abs(y2 - y1)
    ensures LinePixel(x1, y1, x2, y2, i)
         == (x1 + Sign(x2, x1) * i, y1 + Sign(y2, y1) * Offset(i, Abs(y2 - y1), Abs(x2 - x1)))
  {}

  lemma Steep(x1: int, y1: int, x2: int, y2: int, i: nat)
    requires Abs(x2 - x1) <= Abs(y2 - y1)
    ensures LinePixel(x1, y1, x2, y2, i)
         == (x1 + Sign(x2, x1) * Offset(i, Abs(x2 - x1), Abs(y2 - y1)), y1 + Sign(y2, y1) * i)
  {}
}
