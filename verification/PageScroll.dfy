/** The vertical scroll with wrap-around in `ssd1306_wrap_arround`: whole columns of pixels rotate. */
module PageScroll {
  import opened Framebuffer

  // ---------------------------------------------------------------------------------------------
  // Columns
  // ---------------------------------------------------------------------------------------------

  /** The bytes of a column as they appear, top page first. */
  type Column = seq<bv8>

  function UpByte(here: bv8, below: bv8): bv8 {
    (here >> 1) | ((below & 0x01) << 7)
  }

  function DownByte(here: bv8, above: bv8): bv8 {
    (here << 1) | ((above & 0x80) >> 7)
  }

  function Below(p: nat, n: nat): nat {
    if p + 1 < n then p + 1 else 0
  }

  function Above(p: nat, n: nat): nat
    requires n > 0
  {
    if p > 0 then p - 1 else n - 1
  }

  function Up(c: Column): (r: Column)
    ensures |r| == |c|
  {
    seq(|c|, p requires 0 <= p < |c| => UpByte(c[p], c[Below(p, |c|)]))
  }

  function Down(c: Column): (r: Column)
    ensures |r| == |c|
  {
    seq(|c|, p requires 0 <= p < |c| => DownByte(c[p], c[Above(p, |c|)]))
  }

  /** Pixel number `y` of a column, counted from the top. */
  predicate PixelOf(c: Column, y: nat)
    requires y < 8 * |c|
  {
    Bit(c[y / 8], y % 8)
  }

  function NextRow(y: nat, rows: nat): nat {
    if y + 1 < rows then y + 1 else 0
  }

  lemma UpByteBits(here: bv8, below: bv8, k: nat)
    requires k < 8
    ensures Bit(UpByte(here, below), k) == if k < 7 then Bit(here, k + 1) else Bit(below, 0)
  {
    if k < 4 {
      UpByteLow(here, below, k);
    } else {
      UpByteHigh(here, below, k);
    }
  }

  lemma UpByteLow(here: bv8, below: bv8, k: nat)
    requires k < 4
    ensures Bit(UpByte(here, below), k) == Bit(here, k + 1)
  {}

  lemma UpByteHigh(here: bv8, below: bv8, k: nat)
    requires 4 <= k < 8
    ensures Bit(UpByte(here, below), k) == if k < 7 then Bit(here, k + 1) else Bit(below, 0)
  {}

  /** Scrolling up rotates the whole column of pixels by one row. */
  lemma UpRotates(c: Column, y: nat)
    requires y < 8 * |c|
    ensures PixelOf(Up(c), y) == PixelOf(c, NextRow(y, 8 * |c|))
  {
    hide Bit, UpByte;
    var p, k := y / 8, y % 8;
    UpByteBits(c[p], c[Below(p, |c|)], k);
  }

  lemma DownUndoesUpByte(above: bv8, here: bv8, below: bv8)
    ensures DownByte(UpByte(here, below), UpByte(above, here)) == here
  {}

  lemma UpUndoesDownByte(above: bv8, here: bv8, below: bv8)
    ensures UpByte(DownByte(here, above), DownByte(below, here)) == here
  {}

  /** Scrolling down undoes scrolling up, and the other way round. */
  lemma DownUndoesUp(c: Column)
    ensures Down(Up(c)) == c && Up(Down(c)) == c
  {
    hide UpByte, DownByte;
    forall p | 0 <= p < |c| ensures Down(Up(c))[p] == c[p] && Up(Down(c))[p] == c[p] {
      DownUndoesUpByte(c[Above(p, |c|)], c[p], c[Below(p, |c|)]);
      UpUndoesDownByte(c[Above(p, |c|)], c[p], c[Below(p, |c|)]);
    }
  }

  function Ups(c: Column, times: nat): (r: Column)
    ensures |r| == |c|
  {
    if times == 0 then c else Up(Ups(c, times - 1))
  }

  lemma {:induction false} UpsRotate(c: Column, times: nat, y: nat)
    requires y < 8 * |c| && times <= 8 * |c|
    ensures PixelOf(Ups(c, times), y) == PixelOf(c, if y + times < 8 * |c| then y + times else y + times - 8 * |c|)
    decreases times
  {
    hide PixelOf, Up;
    if times > 0 {
      var z := NextRow(y, 8 * |c|);
      UpRotates(Ups(c, times - 1), y);
      UpsRotate(c, times - 1, z);
    }
  }

  /** After as many scrolls as there are rows the column is as before. */
  lemma FullTurn(c: Column)
    ensures Ups(c, 8 * |c|) == c
  {
    var r := Ups(c, 8 * |c|);
    forall p | 0 <= p < |c| ensures r[p] == c[p] {
      forall k: nat | k < 8 ensures Bit(r[p], k) == Bit(c[p], k) {
        hide Ups, Bit;
        UpsRotate(c, 8 * |c|, 8 * p + k);
        assert (8 * p + k) / 8 == p && (8 * p + k) % 8 == k;
      }
      SameBits(r[p], c[p]);
    }
  }

  // ---------------------------------------------------------------------------------------------
  // The scroll
  // ---------------------------------------------------------------------------------------------

  /** A column of the display, top page first, as it appears. */
  ghost function ColumnOf(dev: Display, x: nat): (c: Column)
    requires dev.Valid() && x < SEGMENTS
    reads dev.segs
    ensures |c| == dev.pages && forall p :: 0 <= p < dev.pages ==> c[p] == Shown(dev.segs[p, x], dev.flip)
  {
    seq(dev.pages, p requires 0 <= p < dev.pages && dev.Valid() reads dev.segs => Shown(dev.segs[p, x], dev.flip))
  }

  function Raised(wk0: bv8, wk1: bv8, flip: bool): bv8 {
    Shown(UpByte(Shown(wk0, flip), Shown(wk1, flip)), flip)
  }

  function Lowered(wk0: bv8, wk1: bv8, flip: bool): bv8 {
    Shown(DownByte(Shown(wk0, flip), Shown(wk1, flip)), flip)
  }

  /** One byte of the scroll upwards: a flipped display holds its bytes turned around. */
  method RaiseByte(first: bv8, second: bv8, flip: bool) returns (wk2: bv8)
    ensures wk2 == Raised(first, second, flip)
  {
    var wk0, wk1 := first, second;
    if flip {
      wk0 := RotateByte(wk0);
      wk1 := RotateByte(wk1);
    }
    wk0 := wk0 >> 1;
    wk1 := wk1 & 0x01;
    wk1 := wk1 << 7;
    wk2 := wk0 | wk1;
    if flip {
      wk2 := RotateByte(wk2);
    }
  }

  method LowerByte(first: bv8, second: bv8, flip: bool) returns (wk2: bv8)
    ensures wk2 == Lowered(first, second, flip)
  {
    var wk0, wk1 := first, second;
    if flip {
      wk0 := RotateByte(wk0);
      wk1 := RotateByte(wk1);
    }
    wk0 := wk0 << 1;
    wk1 := wk1 & 0x80;
    wk1 := wk1 >> 7;
    wk2 := wk0 | wk1;
    if flip {
      wk2 := RotateByte(wk2);
    }
  }

  /** The columns that are scrolled: none to the right of the display. */
  predicate Selected(dev: Display, start: nat, end: int, x: int) {
    start <= x <= end && x < dev.width
  }

  /** `SCROLL_UP`: every selected column is rotated up, and the others stay. */
  method ScrollUp(dev: Display, start: nat, end: int)
    requires dev.Valid()
    modifies dev.segs
    ensures forall x: nat :: x < SEGMENTS ==>
              ColumnOf(dev, x) == if Selected(dev, start, end, x) then Up(old(ColumnOf(dev, x)))
                                  else old(ColumnOf(dev, x))
  {
    hide Raised, Selected, Shown, UpByte, Down;
    var save := new bv8[SEGMENTS](x requires 0 <= x < SEGMENTS && dev.Valid() reads dev.segs => dev.segs[0, x]);
    var last := if end >= dev.width then dev.width - 1 else end;
    SelectedUpTo(dev, start, end, last);
    var page: nat := 0;
    while page < dev.pages
      invariant page <= dev.pages
      invariant forall x :: 0 <= x < SEGMENTS ==> save[x] == old(dev.segs[0, x])
      invariant forall p, x :: 0 <= p < dev.pages && 0 <= x < SEGMENTS ==>
                  dev.segs[p, x] == if p < page && Selected(dev, start, end, x)
                                    then Raised(old(dev.segs[p, x]), old(dev.segs[Below(p, dev.pages), x]), dev.flip)
                                    else old(dev.segs[p, x])
    {
      var seg := start;
      while seg <= last
        invariant start <= seg && (seg <= last + 1 || seg == start)
        invariant forall x :: 0 <= x < SEGMENTS ==> save[x] == old(dev.segs[0, x])
        invariant forall p, x :: 0 <= p < dev.pages && 0 <= x < SEGMENTS ==>
                    dev.segs[p, x] == if (p < page || (p == page && x < seg)) && Selected(dev, start, end, x)
                                      then Raised(old(dev.segs[p, x]), old(dev.segs[Below(p, dev.pages), x]), dev.flip)
                                      else old(dev.segs[p, x])
      {
        // The last page takes its new row from the first one as it was.
        var below := if page < dev.pages - 1 then dev.segs[page + 1, seg] else save[seg];
        var wk2 := RaiseByte(dev.segs[page, seg], below, dev.flip);
        dev.segs[page, seg] := wk2;
        seg := seg + 1;
      }
      page := page + 1;
    }
    forall x: nat | x < SEGMENTS
      ensures ColumnOf(dev, x)
           == if Selected(dev, start, end, x) then Up(old(ColumnOf(dev, x))) else old(ColumnOf(dev, x))
    {
      forall p | 0 <= p < dev.pages && Selected(dev, start, end, x)
        ensures ColumnOf(dev, x)[p] == Up(old(ColumnOf(dev, x)))[p]
      {
        RaisedIsShown(old(dev.segs[p, x]), old(dev.segs[Below(p, dev.pages), x]), dev.flip);
      }
    }
  }

  lemma RaisedIsShown(wk0: bv8, wk1: bv8, flip: bool)
    ensures Shown(Raised(wk0, wk1, flip), flip) == UpByte(Shown(wk0, flip), Shown(wk1, flip))
  {
    ShownTwice(UpByte(Shown(wk0, flip), Shown(wk1, flip)), flip);
  }

  lemma LoweredIsShown(wk0: bv8, wk1: bv8, flip: bool)
    ensures Shown(Lowered(wk0, wk1, flip), flip) == DownByte(Shown(wk0, flip), Shown(wk1, flip))
  {
    ShownTwice(DownByte(Shown(wk0, flip), Shown(wk1, flip)), flip);
  }

  /** `SCROLL_DOWN`. */
  method ScrollDown(dev: Display, start: nat, end: int)
    requires dev.Valid()
    modifies dev.segs
    ensures forall x: nat :: x < SEGMENTS ==>
              ColumnOf(dev, x) == if Selected(dev, start, end, x) then Down(old(ColumnOf(dev, x)))
                                  else old(ColumnOf(dev, x))
  {
    hide Lowered, Selected, Shown, DownByte, Up;
    var pages := dev.pages - 1;
    var save := new bv8[SEGMENTS](
      x requires 0 <= x < SEGMENTS && dev.Valid() reads dev.segs => dev.segs[dev.pages - 1, x]);
    var last := if end >= dev.width then dev.width - 1 else end;
    SelectedUpTo(dev, start, end, last);
    var page := pages;
    while page >= 0
      invariant -1 <= page <= pages
      invariant forall x :: 0 <= x < SEGMENTS ==> save[x] == old(dev.segs[dev.pages - 1, x])
      invariant forall p, x :: 0 <= p < dev.pages && 0 <= x < SEGMENTS ==>
                  dev.segs[p, x] == if p > page && Selected(dev, start, end, x)
                                    then Lowered(old(dev.segs[p, x]), old(dev.segs[Above(p, dev.pages), x]), dev.flip)
                                    else old(dev.segs[p, x])
    {
      var seg := start;
      while seg <= last
        invariant start <= seg && (seg <= last + 1 || seg == start)
        invariant forall x :: 0 <= x < SEGMENTS ==> save[x] == old(dev.segs[dev.pages - 1, x])
        invariant forall p, x :: 0 <= p < dev.pages && 0 <= x < SEGMENTS ==>
                    dev.segs[p, x] == if (p > page || (p == page && x < seg)) && Selected(dev, start, end, x)
                                      then Lowered(old(dev.segs[p, x]), old(dev.segs[Above(p, dev.pages), x]), dev.flip)
                                      else old(dev.segs[p, x])
      {
        // The first page takes its new row from the last one as it was.
        var above := if page > 0 then dev.segs[page - 1, seg] else save[seg];
        var wk2 := LowerByte(dev.segs[page, seg], above, dev.flip);
        dev.segs[page, seg] := wk2;
        seg := seg + 1;
      }
      page := page - 1;
    }
    forall x: nat | x < SEGMENTS
      ensures ColumnOf(dev, x)
           == if Selected(dev, start, end, x) then Down(old(ColumnOf(dev, x))) else old(ColumnOf(dev, x))
    {
      forall p | 0 <= p < dev.pages && Selected(dev, start, end, x)
        ensures ColumnOf(dev, x)[p] == Down(old(ColumnOf(dev, x)))[p]
      {
        LoweredIsShown(old(dev.segs[p, x]), old(dev.segs[Above(p, dev.pages), x]), dev.flip);
      }
    }
  }

  /** On the display itself: down undoes up, with or without flip. */
  method UpAndDown(dev: Display, start: nat, end: int)
    requires dev.Valid()
    modifies dev.segs
    ensures forall x: nat :: x < SEGMENTS ==> ColumnOf(dev, x) == old(ColumnOf(dev, x))
  {
    hide Up, Down, Selected;
    ScrollUp(dev, start, end);
    label Between:
    ScrollDown(dev, start, end);
    forall x: nat | x < SEGMENTS ensures ColumnOf(dev, x) == old(ColumnOf(dev, x)) {
      DownUndoesUp(old(ColumnOf(dev, x)));
    }
  }

  lemma SelectedUpTo(dev: Display, start: nat, end: int, last: int)
    requires last == if end >= dev.width then dev.width - 1 else end
    ensures forall x :: Selected(dev, start, end, x) <==> start <= x <= last
  {}
}
