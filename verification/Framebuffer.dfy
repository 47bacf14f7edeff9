/** The page buffer of an SSD1306 display: each byte holds eight pixels of one column, the lowest bit on top. */
module Framebuffer {

  const SEGMENTS: nat := 128

  function Mask(k: nat): bv8 {
    if k == 0 then 0x01 else if k == 1 then 0x02 else if k == 2 then 0x04 else if k == 3 then 0x08
    else if k == 4 then 0x10 else if k == 5 then 0x20 else if k == 6 then 0x40 else 0x80
  }

  predicate Bit(b: bv8, k: nat) {
    b & Mask(k) != 0
  }

  lemma ShiftIsMask(k: nat)
    requires k < 8
    ensures (1 as bv8) << k == Mask(k)
  {
    if k < 4 {
      ShiftLow(k);
    } else {
      ShiftHigh(k);
    }
  }

  lemma ShiftLow(k: nat)
    requires k < 4
    ensures (1 as bv8) << k == Mask(k)
  {}

  lemma ShiftHigh(k: nat)
    requires 4 <= k < 8
    ensures (1 as bv8) << k == Mask(k)
  {}

  lemma SetBit(b: bv8, j: nat, k: nat)
    requires j < 8 && k < 8
    ensures Bit(b | Mask(j), k) == (j == k || Bit(b, k))
  {}

  lemma ClearBit(b: bv8, j: nat, k: nat)
    requires j < 8 && k < 8
    ensures Bit(b & !Mask(j), k) == (j != k && Bit(b, k))
  {}

  lemma SameBits(a: bv8, b: bv8)
    requires forall k: nat :: k < 8 ==> Bit(a, k) == Bit(b, k)
    ensures a == b
  {
    assert Bit(a, 0) == Bit(b, 0) && Bit(a, 1) == Bit(b, 1) && Bit(a, 2) == Bit(b, 2) && Bit(a, 3) == Bit(b, 3);
    assert Bit(a, 4) == Bit(b, 4) && Bit(a, 5) == Bit(b, 5) && Bit(a, 6) == Bit(b, 6) && Bit(a, 7) == Bit(b, 7);
  }

  // ---------------------------------------------------------------------------------------------
  // Turning a byte around
  // ---------------------------------------------------------------------------------------------

  /** The eight bits in reverse order. */
  function Rotated(b: bv8): bv8 {
    ((b & 0x01) << 7) | ((b & 0x02) << 5) | ((b & 0x04) << 3) | ((b & 0x08) << 1)
    | ((b & 0x10) >> 1) | ((b & 0x20) >> 3) | ((b & 0x40) >> 5) | ((b & 0x80) >> 7)
  }

  function RotateLoop(ch1: bv8, ch2: bv8, rounds: nat): bv8
    decreases rounds
  {
    if rounds == 0 then ch2 else RotateLoop(ch1 >> 1, (ch2 << 1) + (ch1 & 0x01), rounds - 1)
  }

  lemma LoopRotates(b: bv8)
    ensures RotateLoop(b, 0, 8) == Rotated(b)
  {
    var c1 := (0 as bv8 << 1) + (b & 0x01);
    var c2 := (c1 << 1) + ((b >> 1) & 0x01);
    var c3 := (c2 << 1) + ((b >> 2) & 0x01);
    var c4 := (c3 << 1) + ((b >> 3) & 0x01);
    var c5 := (c4 << 1) + ((b >> 4) & 0x01);
    var c6 := (c5 << 1) + ((b >> 5) & 0x01);
    var c7 := (c6 << 1) + ((b >> 6) & 0x01);
    var c8 := (c7 << 1) + ((b >> 7) & 0x01);
    assert RotateLoop(b, 0, 8) == RotateLoop(b >> 1, c1, 7);
    assert RotateLoop(b >> 1, c1, 7) == RotateLoop(b >> 2, c2, 6);
    assert RotateLoop(b >> 2, c2, 6) == RotateLoop(b >> 3, c3, 5);
    assert RotateLoop(b >> 3, c3, 5) == RotateLoop(b >> 4, c4, 4);
    assert RotateLoop(b >> 4, c4, 4) == RotateLoop(b >> 5, c5, 3);
    assert RotateLoop(b >> 5, c5, 3) == RotateLoop(b >> 6, c6, 2);
    assert RotateLoop(b >> 6, c6, 2) == RotateLoop(b >> 7, c7, 1);
    assert RotateLoop(b >> 7, c7, 1) == RotateLoop(b >> 7 >> 1, c8, 0);
  }

  /** `ssd1306_rotate_byte`. */
  method RotateByte(byte: bv8) returns (ch2: bv8)
    ensures ch2 == Rotated(byte)
  {
    var ch1 := byte;
    ch2 := 0;
    var j: nat := 0;
    while j < 8
      invariant j <= 8 && RotateLoop(ch1, ch2, 8 - j) == RotateLoop(byte, 0, 8)
    {
      ch2 := (ch2 << 1) + (ch1 & 0x01);
      ch1 := ch1 >> 1;
      j := j + 1;
    }
    LoopRotates(byte);
  }

  lemma RotateTwice(b: bv8)
    ensures Rotated(Rotated(b)) == b
  {}

  /** A byte as it appears on the display. */
  function Shown(b: bv8, flip: bool): bv8 {
    if flip then Rotated(b) else b
  }

  lemma ShownTwice(b: bv8, flip: bool)
    ensures Shown(Shown(b, flip), flip) == b
  {
    RotateTwice(b);
  }

  lemma RotatedBit(b: bv8, k: nat)
    requires k < 8
    ensures Bit(Rotated(b), k) == Bit(b, 7 - k)
  {}

  /** The row at the same distance from the other end of its byte. */
  function Mirrored(y: int): (m: int)
    ensures m / 8 == y / 8 && m % 8 == 7 - y % 8
  {
    y / 8 * 8 + 7 - y % 8
  }

  predicate SameByte(x: int, y: int, x': int, y': int) {
    x == x' && y / 8 == y' / 8
  }

  class Display {
    const pages: nat
    const width: nat
    const flip: bool
    const segs: array2<bv8>

    ghost predicate Valid() {
      segs.Length0 == pages > 0 && segs.Length1 == SEGMENTS && width <= SEGMENTS
    }

    constructor (width: nat, pages: nat, flip: bool)
      requires 0 < pages && width <= SEGMENTS
      ensures Valid() && fresh(segs) && this.pages == pages && this.width == width && this.flip == flip
    {
      this.width, this.pages, this.flip := width, pages, flip;
      segs := new bv8[pages, SEGMENTS]((_, _) => 0);
    }

    /** Inside the buffer. */
    predicate Has(x: int, y: int) {
      0 <= x < SEGMENTS && 0 <= y < 8 * pages
    }

    /** Whether a pixel appears on the display: a flipped one holds its bytes turned around. */
    predicate Lit(x: int, y: int)
      reads segs
      requires Valid() && Has(x, y)
    {
      Bit(Shown(segs[y / 8, x], flip), y % 8)
    }

    /** `_ssd1306_pixel`. The byte that is read is not turned back before the pixel is set in it, so on a flipped
        display the other seven pixels of the byte are mirrored. */
    method Pixel(xpos: int, ypos: int, invert: bool)
      requires Valid() && Has(xpos, ypos)
      modifies segs
      ensures forall x, y :: Has(x, y) ==>
                Lit(x, y) == if x == xpos && y == ypos then !invert
                             else if flip && SameByte(x, y, xpos, ypos) then old(Lit(x, Mirrored(y)))
                             else old(Lit(x, y))
      ensures (forall x, y :: Has(x, y) && (x, y) != (xpos, ypos) ==> Lit(x, y) == old(Lit(x, y)))
         <==> !flip || forall y :: Has(xpos, y) && y != ypos && y / 8 == ypos / 8 ==>
                         old(Lit(xpos, y)) == old(Lit(xpos, Mirrored(y)))
    {
      hide Bit, PixelByte, Rotated;
      var page, bits, seg := ypos / 8, ypos % 8, xpos;
      var wk0 := segs[page, seg];
      wk0 := WithPixel(wk0, bits, invert);
      if flip {
        wk0 := RotateByte(wk0);
      }
      segs[page, seg] := wk0;
      forall x, y | Has(x, y)
        ensures Lit(x, y) == if x == xpos && y == ypos then !invert
                             else if flip && SameByte(x, y, xpos, ypos) then old(Lit(x, Mirrored(y)))
                             else old(Lit(x, y))
      {
        PixelByteBits(old(segs[page, seg]), bits, invert, y % 8);
        RotateTwice(PixelByte(old(segs[page, seg]), bits, invert));
        RotatedBit(old(segs[page, seg]), 7 - y % 8);
      }
    }
  }

  function PixelByte(b: bv8, j: nat, invert: bool): bv8 {
    if invert then b & !Mask(j) else b | Mask(j)
  }

  method WithPixel(byte: bv8, bits: nat, invert: bool) returns (wk0: bv8)
    requires bits < 8
    ensures wk0 == PixelByte(byte, bits, invert)
  {
    wk0 := byte;
    var wk1: bv8 := 1 << bits;
    ShiftIsMask(bits);
    if invert {
      wk0 := wk0 & !wk1;
    } else {
      wk0 := wk0 | wk1;
    }
  }

  lemma PixelByteBits(b: bv8, j: nat, invert: bool, k: nat)
    requires j < 8 && k < 8
    ensures Bit(PixelByte(b, j, invert), k) == if j == k then !invert else Bit(b, k)
  {
    SetBit(b, j, k);
    ClearBit(b, j, k);
    hide Bit, Mask;
  }
}
