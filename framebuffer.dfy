/**
 * The 1024-byte shadow framebuffer of the SSD1306 driver
 * (Core/Src/ssd1306_oled.c): pixel addressing, the byte-level updates the
 * driver performs, and what they mean pixel by pixel.
 */
module Framebuffer {
  import opened Bytes
  import opened Ssd1306Defs

  /** A pixel position: column x, row y. */
  datatype Point = Point(x: int, y: int)

  predicate OnScreen(p: Point)
  {
    0 <= p.x < Width && 0 <= p.y < Height
  }

  /** A shadow buffer image of the right size. */
  predicate IsBuffer(ram: seq<byte>)
  {
    |ram| == BufferSize
  }

  /** Index of the byte holding pixel (x, y): column x of page y / 8. */
  function PixelIndex(x: int, y: int): int
    requires 0 <= x < Width && 0 <= y < Height
  {
    x + 128 * (y / 8)
  }

  /** The bit of pixel row y inside its byte: 0x01 << (y % 8). */
  function RowMask(y: int): byte
    requires 0 <= y
  {
    ByteBit(y % 8)
  }

  /** Column of byte `pos`, as ramUpdateByte derives it. */
  function ByteColumn(pos: int): int
  {
    pos - 128 * (pos / 128)
  }

  /** Page of byte `pos`, as ramUpdateByte derives it. */
  function BytePage(pos: int): int
  {
    pos / 128
  }

  /** A pixel lives in a byte of the buffer, in column x of page y / 8. */
  lemma PixelIndexInRange(x: int, y: int)
    requires 0 <= x < Width && 0 <= y < Height
    ensures 0 <= PixelIndex(x, y) < BufferSize
    ensures ByteColumn(PixelIndex(x, y)) == x && BytePage(PixelIndex(x, y)) == y / 8
  {
  }

  /**
   * Byte indices and (column, page) cursor positions are in one-to-one
   * correspondence: the position ramUpdateByte moves the cursor to
   * addresses exactly byte `pos`.
   */
  lemma ByteCursorRoundTrip(pos: int)
    requires 0 <= pos < BufferSize
    ensures 0 <= ByteColumn(pos) < Width && 0 <= BytePage(pos) < Pages
    ensures ByteColumn(pos) + 128 * BytePage(pos) == pos
  {
  }

  /** Two pixels share a byte and a bit only when they are the same pixel. */
  lemma PixelAddressInjective(x: int, y: int, x': int, y': int)
    requires 0 <= x < Width && 0 <= y < Height
    requires 0 <= x' < Width && 0 <= y' < Height
    requires PixelIndex(x, y) == PixelIndex(x', y') && y % 8 == y' % 8
    ensures x == x' && y == y'
  {
    PixelIndexInRange(x, y);
    PixelIndexInRange(x', y');
  }

  /** Whether pixel (x, y) is lit in the buffer image `ram`. */
  predicate PixelOn(ram: seq<byte>, x: int, y: int)
    requires IsBuffer(ram) && 0 <= x < Width && 0 <= y < Height
  {
    TestBit(ram[PixelIndex(x, y)], y % 8)
  }

  /** drawPixel's update of the shadow: OR the pixel's bit into its byte. */
  function SetPixel(ram: seq<byte>, x: int, y: int): (r: seq<byte>)
    requires IsBuffer(ram) && 0 <= x < Width && 0 <= y < Height
    ensures IsBuffer(r)
  {
    var i := PixelIndex(x, y);
    ram[i := ByteOr(ram[i], RowMask(y))]
  }

  /** The digits of a byte after ORing in, or ANDing out, the bit of row y. */
  lemma RowMaskBits(y: int, y': int, b: byte)
    requires 0 <= y && 0 <= y'
    ensures TestBit(ByteOr(b, RowMask(y)), y % 8)
    ensures !TestBit(ByteAnd(b, Not(RowMask(y))), y % 8)
    ensures y % 8 != y' % 8 ==> (TestBit(ByteOr(b, RowMask(y)), y' % 8) <==> TestBit(b, y' % 8))
    ensures y % 8 != y' % 8 ==> (TestBit(ByteAnd(b, Not(RowMask(y))), y' % 8) <==> TestBit(b, y' % 8))
  {
    ByteDigits(b, RowMask(y), y % 8);
    ByteDigits(b, Not(RowMask(y)), y % 8);
    ByteDigits(RowMask(y), 0, y % 8);
    ByteDigits(b, RowMask(y), y' % 8);
    ByteDigits(b, Not(RowMask(y)), y' % 8);
    ByteDigits(RowMask(y), 0, y' % 8);
  }

  /**
   * drawPixel lights pixel (x, y), every other pixel keeps its state, and
   * only byte PixelIndex(x, y) changes, keeping all its previous bits.
   */
  lemma SetPixelEffect(ram: seq<byte>, x: int, y: int)
    requires IsBuffer(ram) && 0 <= x < Width && 0 <= y < Height
    ensures IsBuffer(SetPixel(ram, x, y))
    ensures PixelOn(SetPixel(ram, x, y), x, y)
    ensures forall x', y' {:trigger PixelOn(SetPixel(ram, x, y), x', y')} ::
      0 <= x' < Width && 0 <= y' < Height && (x' != x || y' != y) ==>
        (PixelOn(SetPixel(ram, x, y), x', y') <==> PixelOn(ram, x', y'))
    ensures forall i :: 0 <= i < BufferSize && i != PixelIndex(x, y) ==> SetPixel(ram, x, y)[i] == ram[i]
  {
    RowMaskBits(y, y, ram[PixelIndex(x, y)]);
    forall x', y' | 0 <= x' < Width && 0 <= y' < Height && (x' != x || y' != y)
      ensures PixelOn(SetPixel(ram, x, y), x', y') <==> PixelOn(ram, x', y')
    {
      OtherPixel(ram, x, y, x', y');
    }
  }

  /** Setting or clearing pixel (x, y) leaves pixel (x', y') as it was. */
  lemma OtherPixel(ram: seq<byte>, x: int, y: int, x': int, y': int)
    requires IsBuffer(ram) && 0 <= x < Width && 0 <= y < Height
    requires 0 <= x' < Width && 0 <= y' < Height && (x' != x || y' != y)
    ensures PixelOn(SetPixel(ram, x, y), x', y') <==> PixelOn(ram, x', y')
    ensures PixelOn(ClearPixel(ram, x, y), x', y') <==> PixelOn(ram, x', y')
  {
    var i := PixelIndex(x, y);
    if PixelIndex(x', y') == i {
      if y % 8 == y' % 8 {
        PixelAddressInjective(x, y, x', y');
      }
      RowMaskBits(y, y', ram[i]);
    }
  }

  /** Drawing the same pixel twice leaves the buffer as drawing it once. */
  lemma SetPixelIdempotent(ram: seq<byte>, x: int, y: int)
    requires IsBuffer(ram) && 0 <= x < Width && 0 <= y < Height
    ensures SetPixel(SetPixel(ram, x, y), x, y) == SetPixel(ram, x, y)
  {
    var i, m := PixelIndex(x, y), RowMask(y);
    var v := ByteOr(ram[i], m);
    var r := SetPixel(ram, x, y);
    assert r == ram[i := v];
    assert SetPixel(r, x, y) == r[i := ByteOr(v, m)];
    OrTwice(ram[i], m);
  }

  /** The value displayClearPixel stores: 0x00 << (y % 8), which is always 0. */
  function ClearPixelValue(y: int): byte
    requires 0 <= y
  {
    ToByte(0x00 * Bit(y % 8))
  }

  /** displayClearPixel's update of the shadow, as written: store ClearPixelValue(y). */
  function ClearPixelByte(ram: seq<byte>, x: int, y: int): seq<byte>
    requires IsBuffer(ram) && 0 <= x < Width && 0 <= y < Height
  {
    ram[PixelIndex(x, y) := ClearPixelValue(y)]
  }

  /**
   * As written, clearing one pixel clears the whole byte: all eight pixels
   * of column x in page y / 8 go dark, not only pixel (x, y).
   */
  lemma ClearPixelByteClearsColumnOfPage(ram: seq<byte>, x: int, y: int)
    requires IsBuffer(ram) && 0 <= x < Width && 0 <= y < Height
    ensures ClearPixelValue(y) == 0
    ensures forall y' :: 0 <= y' < Height && y' / 8 == y / 8 ==> !PixelOn(ClearPixelByte(ram, x, y), x, y')
  {
    forall y' | 0 <= y' < Height && y' / 8 == y / 8
      ensures !PixelOn(ClearPixelByte(ram, x, y), x, y')
    {
      TestBitOfZero(y' % 8);
    }
  }

  /** A concrete case: on a lit screen, clearing (0, 0) also darkens (0, 1). */
  lemma ClearPixelByteCounterexample()
    ensures var lit: seq<byte> := seq(BufferSize, _ => 0xFF);
      PixelOn(lit, 0, 1) && !PixelOn(ClearPixelByte(lit, 0, 0), 0, 1)
  {
    var lit: seq<byte> := seq(BufferSize, _ => 0xFF);
    assert lit[PixelIndex(0, 1)] == 0xFF;
    TestBitOfZero(1);
  }

  /** The evidently intended clear: AND the pixel's bit out of its byte. */
  function ClearPixel(ram: seq<byte>, x: int, y: int): (r: seq<byte>)
    requires IsBuffer(ram) && 0 <= x < Width && 0 <= y < Height
    ensures IsBuffer(r)
  {
    var i := PixelIndex(x, y);
    ram[i := ByteAnd(ram[i], Not(RowMask(y)))]
  }

  /** The intended clear darkens pixel (x, y) and no other pixel. */
  lemma ClearPixelEffect(ram: seq<byte>, x: int, y: int)
    requires IsBuffer(ram) && 0 <= x < Width && 0 <= y < Height
    ensures IsBuffer(ClearPixel(ram, x, y))
    ensures !PixelOn(ClearPixel(ram, x, y), x, y)
    ensures forall x', y' {:trigger PixelOn(ClearPixel(ram, x, y), x', y')} ::
      0 <= x' < Width && 0 <= y' < Height && (x' != x || y' != y) ==>
        (PixelOn(ClearPixel(ram, x, y), x', y') <==> PixelOn(ram, x', y'))
  {
    RowMaskBits(y, y, ram[PixelIndex(x, y)]);
    forall x', y' | 0 <= x' < Width && 0 <= y' < Height && (x' != x || y' != y)
      ensures PixelOn(ClearPixel(ram, x, y), x', y') <==> PixelOn(ram, x', y')
    {
      OtherPixel(ram, x, y, x', y');
    }
  }

  /** Clearing a pixel that was just drawn restores a buffer where it was dark. */
  lemma ClearUndoesSet(ram: seq<byte>, x: int, y: int)
    requires IsBuffer(ram) && 0 <= x < Width && 0 <= y < Height
    requires !PixelOn(ram, x, y)
    ensures ClearPixel(SetPixel(ram, x, y), x, y) == ram
  {
    var i := PixelIndex(x, y);
    var m := RowMask(y);
    var v := ByteOr(ram[i], m);
    var r := SetPixel(ram, x, y);
    assert r == ram[i := v];
    assert ClearPixel(r, x, y) == r[i := ByteAnd(v, Not(m))];
    ClearAfterSet(ram[i], y % 8);
  }

  /** ramWrite's update of the shadow: OR `v` into byte `pos`. */
  function OrByte(ram: seq<byte>, pos: int, v: byte): seq<byte>
    requires 0 <= pos < |ram|
  {
    ram[pos := ByteOr(ram[pos], v)]
  }

  /**
   * ramWrite sets in byte `pos` exactly the bits set before or set in `v`,
   * leaves the other bytes alone, and writing the same value twice is
   * writing it once.
   */
  lemma OrByteEffect(ram: seq<byte>, pos: int, v: byte)
    requires 0 <= pos < |ram|
    ensures |OrByte(ram, pos, v)| == |ram|
    ensures forall k :: 0 <= k < 8 ==>
      (TestBit(OrByte(ram, pos, v)[pos], k) <==> TestBit(ram[pos], k) || TestBit(v, k))
    ensures forall i :: 0 <= i < |ram| && i != pos ==> OrByte(ram, pos, v)[i] == ram[i]
    ensures OrByte(OrByte(ram, pos, v), pos, v) == OrByte(ram, pos, v)
  {
    forall k | 0 <= k < 8
      ensures TestBit(OrByte(ram, pos, v)[pos], k) <==> TestBit(ram[pos], k) || TestBit(v, k)
    {
      ByteDigits(ram[pos], v, k);
    }
    OrTwice(ram[pos], v);
  }

  /**
   * The buffer after drawing each pixel of `pts` in order. A point off the
   * screen, which no drawing operation produces, leaves the buffer alone.
   */
  function PlotAll(ram: seq<byte>, pts: seq<Point>): (r: seq<byte>)
    requires IsBuffer(ram)
    ensures IsBuffer(r)
  {
    if pts == [] then ram
    else
      var q := pts[|pts| - 1];
      var before := PlotAll(ram, pts[..|pts| - 1]);
      if OnScreen(q) then SetPixel(before, q.x, q.y) else before
  }

  /**
   * Drawing a list of pixels lights exactly those pixels: afterwards a
   * pixel is on if and only if it was on before or it is in the list.
   */
  lemma {:induction false} PlotAllPixels(ram: seq<byte>, pts: seq<Point>, x: int, y: int)
    requires IsBuffer(ram)
    requires 0 <= x < Width && 0 <= y < Height
    ensures PixelOn(PlotAll(ram, pts), x, y) <==> PixelOn(ram, x, y) || Point(x, y) in pts
    decreases |pts|
  {
    if pts != [] {
      var init := pts[..|pts| - 1];
      var q := pts[|pts| - 1];
      assert pts == init + [q];
      PlotAllPixels(ram, init, x, y);
      if OnScreen(q) {
        SetPixelEffect(PlotAll(ram, init), q.x, q.y);
      }
    }
  }
}
