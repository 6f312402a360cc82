/**
 * Constants and enumerations of the SSD1306 driver header
 * (Core/Inc/ssd1306_oled.h): panel geometry, the I2C slave address,
 * the two control bytes and the enumerations the driver functions take.
 */
module Ssd1306Defs {
  import opened Bytes

  /** Panel geometry: 128 columns by 64 pixel rows, one bit per pixel. */
  const Width: int := 128
  const Height: int := 64

  /** A GDDRAM byte holds eight vertically stacked pixels: one page row. */
  const PageRows: int := 8
  const Pages: int := Height / PageRows

  /** Size of the shadow framebuffer `ssd1306_ram`. */
  const BufferSize: int := 1024

  /** 7-bit slave address and the address bytes: shifted left once, R/W bit 0 clear or set. */
  const SlaveAddr: byte := 0x3C
  const SlaveAddrW: byte := SlaveAddr * 2
  const SlaveAddrR: byte := ByteOr(SlaveAddr * 2, 0x01)

  /** Control bytes: the rest of the transaction is commands, or GDDRAM data. */
  const CmdCtrlByte: byte := 0x00
  const DataCtrlByte: byte := 0x40

  /** Values of the scroll-direction enumeration. */
  const Right: byte := 0
  const Left: byte := 1
  const VRight: byte := 0x01
  const VLeft: byte := 0x02
  const Down: byte := 0
  const Up: byte := 1

  /** A scroll direction: one of the enumeration's values. */
  type ScrollDir = d: byte | d <= 2

  /** A page number PAGE0 .. PAGE7. */
  type PageNum = p: byte | p <= 7

  /** Values of the orientation enumeration taken by displayFlip. */
  const Vertical: byte := 0
  const Horizontal: byte := 1

  /** An orientation: one of the enumeration's values. */
  type Orientation = o: byte | o <= 1

  /** Values of the addressing-mode enumeration (parameter of command 20h). */
  const HorizontalMode: byte := 0x00
  const VerticalMode: byte := 0x01
  const PageMode: byte := 0x02

  /** An addressing mode: one of the enumeration's values. */
  type AddrMode = m: byte | m <= 2

  /** Scroll step interval, in frames; the enumeration lists them in this order. */
  datatype FrameFreq = Frame5 | Frame64 | Frame128 | Frame256 | Frame3 | Frame4 | Frame25 | Frame2
  {
    /** The 3-bit field value the enumeration gives each interval. */
    function Value(): (v: byte)
      ensures v <= 7
    {
      match this
      case Frame5 => 0
      case Frame64 => 1
      case Frame128 => 2
      case Frame256 => 3
      case Frame3 => 4
      case Frame4 => 5
      case Frame25 => 6
      case Frame2 => 7
    }
  }

  /** The interval a 3-bit field value stands for: the inverse of Value. */
  function FrameFreqOf(v: byte): (f: FrameFreq)
    requires v <= 7
    ensures f.Value() == v
  {
    if v == 0 then Frame5
    else if v == 1 then Frame64
    else if v == 2 then Frame128
    else if v == 3 then Frame256
    else if v == 4 then Frame3
    else if v == 5 then Frame4
    else if v == 6 then Frame25
    else Frame2
  }

  /** The eight intervals have eight distinct field values. */
  lemma FrameFreqValueInjective(f: FrameFreq, g: FrameFreq)
    ensures f.Value() == g.Value() ==> f == g
    ensures FrameFreqOf(f.Value()) == f
  {
    match f
    case Frame5 =>
    case Frame64 =>
    case Frame128 =>
    case Frame256 =>
    case Frame3 =>
    case Frame4 =>
    case Frame25 =>
    case Frame2 =>
  }

  /**
   * The write and read address bytes are 0x3C shifted left, and they
   * differ only in the R/W bit 0.
   */
  lemma SlaveAddressBytes()
    ensures SlaveAddrW == 0x78 && SlaveAddrR == 0x79
    ensures !TestBit(SlaveAddrW, 0) && TestBit(SlaveAddrR, 0)
    ensures forall k :: 1 <= k < 8 ==> (TestBit(SlaveAddrW, k) <==> TestBit(SlaveAddrR, k))
  {
    forall k | 1 <= k < 8
      ensures TestBit(SlaveAddrW, k) <==> TestBit(SlaveAddrR, k)
    {
      TestBitOr(SlaveAddrW, 1, k);
      TestBitOfBit(0, k);
      assert Bit(0) == 1;
    }
  }

  /** The framebuffer holds one bit per pixel: 8 pages of 128 column bytes. */
  lemma BufferGeometry()
    ensures BufferSize == Width * Height / 8
    ensures BufferSize == Pages * Width && Pages == 8
    ensures CmdCtrlByte != DataCtrlByte
  {
  }
}
