/**
 * The SSD1306 display driver of Core/Src/ssd1306_oled.c as a class: the
 * file-static shadow framebuffer `ssd1306_ram`, the pointer `p_ram` into
 * it (kept as an offset from the buffer base), and the I2C traffic the
 * driver has produced so far.
 */
module Ssd1306Oled {
  import opened Bytes
  import opened Ssd1306Defs
  import opened BusTrace
  import opened Framebuffer
  import opened Raster
  import opened Ssd1306Commands
  import opened Seqs

  /**
   * The traffic of drawPixel on a buffer `ram`: move the cursor to the
   * pixel's column and page, then send the pixel's updated byte.
   */
  function PixelTraffic(ram: seq<byte>, q: Point): seq<Event>
    requires IsBuffer(ram) && OnScreen(q)
  {
    PixelIndexInRange(q.x, q.y);
    CommandFrame(MoveCursorPayload(q.x, q.y / 8)) + DataFrame(SetPixel(ram, q.x, q.y)[PixelIndex(q.x, q.y)])
  }

  /** Sending two byte runs one after the other is sending their concatenation. */
  lemma WritesAppend(a: seq<byte>, b: seq<byte>)
    ensures Writes(a) + Writes(b) == Writes(a + b)
  {
  }

  /** Sending the bytes of two group lists one after the other is sending the bytes of both lists. */
  lemma WritesGroupsAppend(pre: seq<Event>, gs: seq<Group>, hs: seq<Group>)
    ensures pre + Writes(Flatten(gs)) + Writes(Flatten(hs)) == pre + Writes(Flatten(gs + hs))
  {
    FlattenAppend(gs, hs);
    WritesAppend(Flatten(gs), Flatten(hs));
    AppendAssoc(pre, Writes(Flatten(gs)), Writes(Flatten(hs)));
  }


  /**
   * The traffic of drawing each pixel of `pts` in order, starting from
   * `ram`; like PlotAll, a point off the screen sends nothing.
   */
  function PlotTraffic(ram: seq<byte>, pts: seq<Point>): seq<Event>
    requires IsBuffer(ram)
  {
    if pts == [] then []
    else
      var init := pts[..|pts| - 1];
      var q := pts[|pts| - 1];
      PlotTraffic(ram, init) + (if OnScreen(q) then PixelTraffic(PlotAll(ram, init), q) else [])
  }

  /** The head of a pixel list that starts with a guarded point. */
  lemma GuardedHead(pts: seq<Point>, k: int, g: bool, q: Point, rest: seq<Point>)
    requires 0 <= k <= |pts| && pts[k..] == Guarded(g, q) + rest
    ensures g ==> k < |pts| && pts[k] == q
    ensures 0 <= k + (if g then 1 else 0) <= |pts| && pts[k + (if g then 1 else 0)..] == rest
  {
    if g {
      assert pts[k] == pts[k..][0] && pts[k + 1..] == pts[k..][1..];
    }
  }

  /** Drawing one more pixel extends the buffer update and the traffic by that pixel's. */
  lemma PlotStep(ram: seq<byte>, pts: seq<Point>, q: Point)
    requires IsBuffer(ram) && OnScreen(q)
    ensures PlotAll(ram, pts + [q]) == SetPixel(PlotAll(ram, pts), q.x, q.y)
    ensures PlotTraffic(ram, pts + [q]) == PlotTraffic(ram, pts) + PixelTraffic(PlotAll(ram, pts), q)
  {
    assert (pts + [q])[..|pts|] == pts;
  }

  /** Drawing `a` then `b` leaves the buffer drawing `a + b` leaves. */
  lemma {:induction false} PlotAllAppend(ram: seq<byte>, a: seq<Point>, b: seq<Point>)
    requires IsBuffer(ram)
    ensures PlotAll(ram, a + b) == PlotAll(PlotAll(ram, a), b)
    decreases |b|
  {
    if b == [] {
      assert a + b == a;
    } else {
      var init := b[..|b| - 1];
      PlotAllAppend(ram, a, init);
      assert a + b == (a + init) + [b[|b| - 1]];
    }
  }

  /** Drawing `a` then `b` sends the traffic drawing `a + b` sends. */
  lemma {:induction false} PlotTrafficAppend(ram: seq<byte>, a: seq<Point>, b: seq<Point>)
    requires IsBuffer(ram)
    ensures PlotTraffic(ram, a + b) == PlotTraffic(ram, a) + PlotTraffic(PlotAll(ram, a), b)
    decreases |b|
  {
    if b == [] {
      assert a + b == a;
    } else {
      var init := b[..|b| - 1];
      var q := b[|b| - 1];
      PlotTrafficAppend(ram, a, init);
      assert a + b == (a + init) + [q] && b == init + [q];
      PlotTrafficAppendSnoc(ram, a, init, q);
    }
  }

  /** The step of PlotTrafficAppend: one more pixel at the end of `b`. */
  lemma PlotTrafficAppendSnoc(ram: seq<byte>, a: seq<Point>, b: seq<Point>, q: Point)
    requires IsBuffer(ram)
    requires PlotTraffic(ram, a + b) == PlotTraffic(ram, a) + PlotTraffic(PlotAll(ram, a), b)
    ensures PlotTraffic(ram, (a + b) + [q]) == PlotTraffic(ram, a) + PlotTraffic(PlotAll(ram, a), b + [q])
  {
    var tail := if OnScreen(q) then PixelTraffic(PlotAll(ram, a + b), q) else [];
    PlotAllAppend(ram, a, b);
    PlotTrafficSnoc(ram, a + b, q);
    PlotTrafficSnoc(PlotAll(ram, a), b, q);
    AppendAssoc(PlotTraffic(ram, a), PlotTraffic(PlotAll(ram, a), b), tail);
  }

  /** One more pixel, on screen or not, adds its own traffic or none. */
  lemma PlotTrafficSnoc(ram: seq<byte>, pts: seq<Point>, q: Point)
    requires IsBuffer(ram)
    ensures PlotTraffic(ram, pts + [q]) ==
      PlotTraffic(ram, pts) + (if OnScreen(q) then PixelTraffic(PlotAll(ram, pts), q) else [])
  {
    assert (pts + [q])[..|pts|] == pts;
  }

  /** The traffic of ramUpdateByte: cursor to the byte's column and page, then the merged byte. */
  function UpdateByteTraffic(ram: seq<byte>, pos: int, v: byte): seq<Event>
    requires IsBuffer(ram) && 0 <= pos < BufferSize
  {
    ByteCursorRoundTrip(pos);
    CommandFrame(MoveCursorPayload(ByteColumn(pos), BytePage(pos))) + DataFrame(OrByte(ram, pos, v)[pos])
  }

  /**
   * drawPixel is ramUpdateByte of the pixel's byte with the pixel's row
   * mask: the same buffer update and the same bus traffic.
   */
  lemma PixelIsUpdateByte(ram: seq<byte>, x: int, y: int)
    requires IsBuffer(ram) && 0 <= x < Width && 0 <= y < Height
    ensures 0 <= PixelIndex(x, y) < BufferSize
    ensures SetPixel(ram, x, y) == OrByte(ram, PixelIndex(x, y), RowMask(y))
    ensures PixelTraffic(ram, Point(x, y)) == UpdateByteTraffic(ram, PixelIndex(x, y), RowMask(y))
  {
    PixelIndexInRange(x, y);
  }

  /**
   * The traffic of drawPixel is two well-formed transactions: the cursor
   * move, which the panel reads as the column window x..127 and the page
   * window y/8..7, and a one-byte data write.
   */
  lemma PixelTrafficShape(ram: seq<byte>, q: Point)
    requires IsBuffer(ram) && OnScreen(q)
    ensures WellFramed(PixelTraffic(ram, q))
    ensures ParseCommands(MoveCursorPayload(q.x, q.y / 8)) == [ColumnRange(q.x, 0x7F), PageRange(q.y / 8, 0x07)]
  {
    PixelIndexInRange(q.x, q.y);
    CommandFrameWellFramed(MoveCursorPayload(q.x, q.y / 8));
    DataStreamWellFramed([SetPixel(ram, q.x, q.y)[PixelIndex(q.x, q.y)]]);
    WellFramedAppend(CommandFrame(MoveCursorPayload(q.x, q.y / 8)), DataFrame(SetPixel(ram, q.x, q.y)[PixelIndex(q.x, q.y)]));
    MoveCursorDecodes(q.x, q.y / 8);
  }

  /** A buffer of `n` zero bytes. */
  function Zeros(n: nat): (z: seq<byte>)
    ensures |z| == n && forall i :: 0 <= i < n ==> z[i] == 0
  {
    seq(n, _ => 0)
  }

  /**
   * Whether the byte `pos` positions past `p_ram` lies inside the shadow
   * buffer, when `p_ram` is `pRam` bytes past its base.
   */
  predicate InBuffer(pRam: int, pos: int)
  {
    0 <= pRam + pos < BufferSize
  }

  /**
   * With `p_ram` at the base exactly the indices below 1024 are inside the
   * buffer; once it has moved on by 1024 or more, as ramUpdateFull and
   * ramClear leave it, no access at a nonnegative index is.
   */
  lemma DriftLeavesBuffer(pRam: int)
    ensures forall pos :: 0 <= pos ==> (InBuffer(0, pos) <==> pos < BufferSize)
    ensures pRam >= BufferSize ==> forall pos :: 0 <= pos ==> !InBuffer(pRam, pos)
  {
  }

  /** Every character of `text` has a five-column glyph in `font`, which starts at character 20h. */
  predicate Printable(text: seq<byte>, font: seq<seq<byte>>)
  {
    forall i :: 0 <= i < |text| ==> 0x20 <= text[i] < 0x20 + |font| && |font[text[i] - 0x20]| == 5
  }

  /** The glyph bytes drawChar streams for `text`: five font columns per character. */
  function GlyphBytes(text: seq<byte>, font: seq<seq<byte>>): (bs: seq<byte>)
    requires Printable(text, font)
    ensures |bs| == 5 * |text|
  {
    if text == [] then []
    else GlyphBytes(text[..|text| - 1], font) + font[text[|text| - 1] - 0x20]
  }

  /** The glyph stream of one more character of `text` is its glyph appended. */
  lemma GlyphBytesPrefix(text: seq<byte>, font: seq<seq<byte>>, n: int)
    requires Printable(text, font) && 0 <= n < |text|
    ensures Printable(text[..n], font) && Printable(text[..n + 1], font)
    ensures GlyphBytes(text[..n + 1], font) == GlyphBytes(text[..n], font) + font[text[n] - 0x20]
  {
    assert text[..n + 1][..n] == text[..n];
  }

  /**
   * Each character contributes its five glyph columns at its own offset:
   * column k of character i is the byte 5 * i + k of the stream.
   */
  lemma {:induction false} GlyphBytesAt(text: seq<byte>, font: seq<seq<byte>>, i: int, k: int)
    requires Printable(text, font)
    requires 0 <= i < |text| && 0 <= k < 5
    ensures GlyphBytes(text, font)[5 * i + k] == font[text[i] - 0x20][k]
    decreases |text|
  {
    var init := text[..|text| - 1];
    if i < |text| - 1 {
      GlyphBytesAt(init, font, i, k);
    }
  }

  /**
   * The length of a NUL-terminated string: the index of its first zero
   * byte, which is what drawChar's first loop counts.
   */
  function TextLength(s: seq<byte>): (n: nat)
    requires 0 in s
    ensures n < |s| && s[n] == 0
    ensures forall j :: 0 <= j < n ==> s[j] != 0
  {
    if s[0] == 0 then 0 else 1 + TextLength(s[1..])
  }

  /** The writes of a byte string, given event by event. */
  lemma WritesEach(bs: seq<byte>, t: seq<Event>)
    requires |t| == |bs| && forall i :: 0 <= i < |bs| ==> t[i] == Write(bs[i])
    ensures Writes(bs) == t
  {
  }

  /** A header, the writes `t` of `payload` and a stop, sent after `pre`, are the payload's command frame. */
  lemma CommandFrameAfter(pre: seq<Event>, payload: seq<byte>, t: seq<Event>)
    requires |t| == |payload| && forall i :: 0 <= i < |payload| ==> t[i] == Write(payload[i])
    ensures pre + Header(CmdCtrlByte) + t + [Stop] == pre + CommandFrame(payload)
  {
    WritesEach(payload, t);
    AppendAssoc(pre, Header(CmdCtrlByte), t);
    AppendAssoc(pre, Header(CmdCtrlByte) + t, [Stop]);
  }

  class Oled {
    /** ssd1306_ram: the shadow of the panel's 1024-byte GDDRAM. */
    const ram: array<byte>
    /** How far p_ram has moved past the base of ssd1306_ram. */
    var pRam: int
    /** Every bus event the driver has produced, oldest first. */
    var bus: seq<Event>

    /** The buffer has its size and p_ram points at its base. */
    predicate Valid()
      reads this
    {
      ram.Length == BufferSize && pRam == 0
    }

    /** The static state at start-up: a zeroed buffer, p_ram at its base, a quiet bus. */
    constructor ()
      ensures Valid() && fresh(ram)
      ensures ram[..] == Zeros(BufferSize) && bus == []
    {
      ram := new byte[BufferSize](_ => 0);
      pRam := 0;
      bus := [];
    }

    // -----------------------------------------------------------------
    // The bus primitives of Core/Src/i2c.c, as the driver uses them
    // -----------------------------------------------------------------

    /** i2c_start: a (repeated) start condition. */
    method BusStart()
      modifies this
      ensures bus == old(bus) + [Start] && pRam == old(pRam)
    {
      bus := bus + [Start];
    }

    /** i2c_request: the slave address byte. */
    method BusRequest(addr: byte)
      modifies this
      ensures bus == old(bus) + [Addr(addr)] && pRam == old(pRam)
    {
      bus := bus + [Addr(addr)];
    }

    /** i2c_write: one data byte. */
    method BusWrite(b: byte)
      modifies this
      ensures bus == old(bus) + [Write(b)] && pRam == old(pRam)
    {
      bus := bus + [Write(b)];
    }

    /** i2c_stop: a stop condition. */
    method BusStop()
      modifies this
      ensures bus == old(bus) + [Stop] && pRam == old(pRam)
    {
      bus := bus + [Stop];
    }

    /** Start, write address and control byte of a transaction. */
    method BusHeader(ctrl: byte)
      modifies this
      ensures bus == old(bus) + Header(ctrl) && pRam == old(pRam)
    {
      BusStart();
      BusRequest(SlaveAddrW);
      BusWrite(ctrl);
    }

    // -----------------------------------------------------------------
    // Command transactions
    // -----------------------------------------------------------------

    /** ssd1306_cmd_single: one command byte in its own transaction. */
    method CmdSingle(cmd: byte)
      modifies this
      ensures bus == old(bus) + CommandFrame(Ssd1306Commands.CmdSingle(cmd)) && pRam == old(pRam)
    {
      BusHeader(CmdCtrlByte);
      BusWrite(cmd);
      BusStop();
    }

    /** ssd1306_cmd_double: a command byte and its parameter in one transaction. */
    method CmdDouble(cmd: byte, val: byte)
      modifies this
      ensures bus == old(bus) + CommandFrame(Ssd1306Commands.CmdDouble(cmd, val)) && pRam == old(pRam)
    {
      BusHeader(CmdCtrlByte);
      BusWrite(cmd);
      BusWrite(val);
      BusStop();
    }

    /** displayMoveCursor: column window col..127 and page window row..7. */
    method DisplayMoveCursor(col: byte, row: PageNum)
      modifies this
      ensures bus == old(bus) + CommandFrame(MoveCursorPayload(col, row)) && pRam == old(pRam)
    {
      BusHeader(0x00);
      BusWrite(0x21);
      BusWrite(col);
      BusWrite(0x7F);
      BusWrite(0x22);
      BusWrite(row);
      BusWrite(0x07);
      BusStop();
      assert Writes(MoveCursorPayload(col, row)) ==
        [Write(0x21), Write(col), Write(0x7F), Write(0x22), Write(row), Write(0x07)];
    }

    /** displayContrast. */
    method DisplayContrast(val: byte)
      modifies this
      ensures bus == old(bus) + CommandFrame(ContrastPayload(val)) && pRam == old(pRam)
    {
      CmdDouble(0x81, val);
    }

    /** displayInvert. */
    method DisplayInvert(state: bool)
      modifies this
      ensures bus == old(bus) + CommandFrame(InvertPayload(state)) && pRam == old(pRam)
    {
      if state {
        CmdSingle(0xA7);
      } else {
        CmdSingle(0xA6);
      }
    }

    /** displayOn. */
    method DisplayOn(state: bool)
      modifies this
      ensures bus == old(bus) + CommandFrame(OnPayload(state)) && pRam == old(pRam)
    {
      if state {
        CmdSingle(0xAF);
      } else {
        CmdSingle(0xAE);
      }
    }

    /** displayScrollState: activate or deactivate the last scroll set up. */
    method DisplayScrollState(state: bool)
      modifies this
      ensures bus == old(bus) + CommandFrame(ScrollStatePayload(state)) && pRam == old(pRam)
    {
      if state {
        CmdSingle(0x2F);
      } else {
        CmdSingle(0x2E);
      }
    }

    /** displayAddrMode. */
    method DisplayAddrMode(mode: AddrMode)
      modifies this
      ensures bus == old(bus) + CommandFrame(AddrModePayload(mode)) && pRam == old(pRam)
    {
      CmdDouble(0x20, mode);
    }

    /** displayFlip: segment remap for a nonzero orientation, COM scan direction otherwise. */
    method DisplayFlip(orientation: Orientation, state: bool)
      modifies this
      ensures bus == old(bus) + CommandFrame(FlipPayload(orientation, state)) && pRam == old(pRam)
    {
      if orientation != 0 {
        if state {
          CmdSingle(0xA0);
        } else {
          CmdSingle(0xA1);
        }
      } else {
        if state {
          CmdSingle(0xC0);
        } else {
          CmdSingle(0xC8);
        }
      }
    }

    /** displayScrollHorizontal. */
    method DisplayScrollHorizontal(dir: ScrollDir, freq: FrameFreq, pageStart: PageNum, pageEnd: PageNum)
      modifies this
      ensures bus == old(bus) + CommandFrame(ScrollHorizontalPayload(dir, freq, pageStart, pageEnd)) && pRam == old(pRam)
    {
      var op := ByteOr(0x26, dir);
      var interval := freq.Value();
      ghost var bus0 := bus;
      BusHeader(CmdCtrlByte);
      BusWrite(op);
      BusWrite(0x00);
      BusWrite(pageStart);
      BusWrite(interval);
      BusWrite(pageEnd);
      BusWrite(0x00);
      BusWrite(0xFF);
      ghost var t := [Write(op), Write(0x00), Write(pageStart), Write(interval), Write(pageEnd), Write(0x00), Write(0xFF)];
      assert bus == bus0 + Header(CmdCtrlByte) + t;
      BusStop();
      CommandFrameAfter(bus0, ScrollHorizontalPayload(dir, freq, pageStart, pageEnd), t);
    }

    /** displayScrollDiagonal. */
    method DisplayScrollDiagonal(dir: ScrollDir, freq: FrameFreq, pageStart: PageNum, pageEnd: PageNum, offset: byte)
      modifies this
      ensures bus == old(bus) + CommandFrame(ScrollDiagonalPayload(dir, freq, pageStart, pageEnd, offset)) && pRam == old(pRam)
    {
      var op := ByteOr(0x28, dir);
      var interval := freq.Value();
      ghost var bus0 := bus;
      BusHeader(CmdCtrlByte);
      BusWrite(op);
      BusWrite(0x00);
      BusWrite(pageStart);
      BusWrite(interval);
      BusWrite(pageEnd);
      BusWrite(offset);
      ghost var t := [Write(op), Write(0x00), Write(pageStart), Write(interval), Write(pageEnd), Write(offset)];
      assert bus == bus0 + Header(CmdCtrlByte) + t;
      BusStop();
      CommandFrameAfter(bus0, ScrollDiagonalPayload(dir, freq, pageStart, pageEnd, offset), t);
    }

    /** displaySetVerticalScrollArea: `fixed` frozen rows, 64 - fixed scrolled rows. */
    method DisplaySetVerticalScrollArea(fixed: byte)
      modifies this
      ensures bus == old(bus) + CommandFrame(VerticalScrollAreaPayload(fixed)) && pRam == old(pRam)
    {
      BusHeader(CmdCtrlByte);
      BusWrite(0xA3);
      BusWrite(fixed);
      BusWrite(ToByte(64 - fixed));
      BusStop();
      assert Writes(VerticalScrollAreaPayload(fixed)) == [Write(0xA3), Write(fixed), Write(ToByte(64 - fixed))];
    }

    /**
     * displayScrollVertical as written: a diagonal scroll set-up with
     * direction 0, that is opcode 28h, over page 7 only, then the scroll
     * area freezing pages 0..freeze.
     */
    method DisplayScrollVerticalAsWritten(dir: ScrollDir, freq: FrameFreq, freeze: PageNum)
      modifies this
      ensures bus == old(bus) + CommandFrame(ScrollDiagonalPayload(0, freq, 7, 7, VerticalOffset(dir)))
                              + CommandFrame(VerticalScrollAreaPayload(FrozenRows(freeze)))
      ensures pRam == old(pRam)
    {
      var offset: byte := if dir != 0 then 0x01 else 0x3F;
      var fixed: byte := 8 * (freeze + 1);
      DisplayScrollDiagonal(0, freq, 7, 7, offset);
      DisplaySetVerticalScrollArea(fixed);
    }

    /**
     * displayScrollVertical with the direction the diagonal set-up needs:
     * VRIGHT, so that the opcode is 29h, a vertical and right horizontal
     * scroll over page 7 only.
     */
    method DisplayScrollVertical(dir: ScrollDir, freq: FrameFreq, freeze: PageNum)
      modifies this
      ensures bus == old(bus) + CommandFrame(ScrollDiagonalPayload(VRight, freq, 7, 7, VerticalOffset(dir)))
                              + CommandFrame(VerticalScrollAreaPayload(FrozenRows(freeze)))
      ensures pRam == old(pRam)
    {
      var offset: byte := if dir != 0 then 0x01 else 0x3F;
      var fixed: byte := 8 * (freeze + 1);
      DisplayScrollDiagonal(VRight, freq, 7, 7, offset);
      DisplaySetVerticalScrollArea(fixed);
    }

    // -----------------------------------------------------------------
    // Pixels and the shadow buffer
    // -----------------------------------------------------------------

    /**
     * drawPixel: OR the pixel's row mask into its shadow byte, move the
     * cursor to the pixel's column and page, and send the updated byte.
     */
    method DrawPixel(x: int, y: int)
      requires Valid() && 0 <= x < Width && 0 <= y < Height
      modifies this, ram
      ensures Valid()
      ensures ram[..] == SetPixel(old(ram[..]), x, y)
      ensures bus == old(bus) + PixelTraffic(old(ram[..]), Point(x, y))
    {
      DisplayMoveCursor(x, y / 8);
      PixelIndexInRange(x, y);
      var pos := x + 128 * (y / 8);
      var v := ByteOr(ram[pos], RowMask(y));
      ram[pos] := v;
      BusHeader(DataCtrlByte);
      BusWrite(v);
      BusStop();
      DataFrameEvents(v);
    }

    /**
     * displayClearPixel as written: store 0x00 << (y % 8), that is 0, in
     * the pixel's byte and send it, so the whole byte goes dark.
     */
    method DisplayClearPixelAsWritten(x: int, y: int)
      requires Valid() && 0 <= x < Width && 0 <= y < Height
      modifies this, ram
      ensures Valid()
      ensures ram[..] == ClearPixelByte(old(ram[..]), x, y)
      ensures bus == old(bus) + CommandFrame(MoveCursorPayload(x, y / 8)) + DataFrame(0x00)
    {
      DisplayMoveCursor(x, y / 8);
      PixelIndexInRange(x, y);
      var pos := x + 128 * (y / 8);
      var v := ClearPixelValue(y);
      ClearPixelByteClearsColumnOfPage(ram[..], x, y);
      ram[pos] := v;
      BusHeader(DataCtrlByte);
      BusWrite(v);
      BusStop();
      DataFrameEvents(v);
    }

    /**
     * displayClearPixel as intended: AND the pixel's bit out of its byte
     * and send the updated byte.
     */
    method DisplayClearPixel(x: int, y: int)
      requires Valid() && 0 <= x < Width && 0 <= y < Height
      modifies this, ram
      ensures Valid()
      ensures ram[..] == ClearPixel(old(ram[..]), x, y)
      ensures bus == old(bus) + CommandFrame(MoveCursorPayload(x, y / 8)) + DataFrame(ClearPixel(old(ram[..]), x, y)[PixelIndex(x, y)])
    {
      DisplayMoveCursor(x, y / 8);
      PixelIndexInRange(x, y);
      var pos := x + 128 * (y / 8);
      var v := ByteAnd(ram[pos], Not(RowMask(y)));
      ram[pos] := v;
      BusHeader(DataCtrlByte);
      BusWrite(v);
      BusStop();
      DataFrameEvents(v);
    }

    /** ramWrite: OR `v` into shadow byte `pos`; nothing goes on the bus. */
    method RamWrite(pos: int, v: byte)
      requires Valid() && 0 <= pos < BufferSize
      modifies ram
      ensures ram[..] == OrByte(old(ram[..]), pos, v)
    {
      ram[pos] := ByteOr(ram[pos], v);
    }

    /**
     * ramUpdateByte: OR `v` into shadow byte `pos`, move the cursor to
     * that byte's column and page, and send the merged byte.
     */
    method RamUpdateByte(pos: int, v: byte)
      requires Valid() && 0 <= pos < BufferSize
      modifies this, ram
      ensures Valid()
      ensures ram[..] == OrByte(old(ram[..]), pos, v)
      ensures bus == old(bus) + UpdateByteTraffic(old(ram[..]), pos, v)
    {
      var row := pos / 128;
      var col := pos - 128 * row;
      ByteCursorRoundTrip(pos);
      DisplayMoveCursor(col, row);
      var merged := ByteOr(ram[pos], v);
      ghost var ram0, moved := ram[..], bus;
      ram[pos] := merged;
      assert ram[..] == OrByte(ram0, pos, v);
      BusHeader(DataCtrlByte);
      BusWrite(merged);
      BusStop();
      DataFrameEvents(merged);
      AppendAssoc(moved, Header(DataCtrlByte), [Write(merged)]);
      AppendAssoc(moved, Header(DataCtrlByte) + [Write(merged)], [Stop]);
      AppendAssoc(Header(DataCtrlByte), [Write(merged)], [Stop]);
      assert bus == moved + DataFrame(merged);
    }

    /**
     * ramUpdateFull as written: stream the 1024 bytes at p_ram, advancing
     * p_ram past each one, so that p_ram ends one past the buffer.
     */
    method RamUpdateFullAsWritten()
      requires Valid()
      modifies this
      ensures bus == old(bus) + DataStream(ram[..])
      ensures pRam == old(pRam) + BufferSize && !Valid()
      ensures forall pos :: 0 <= pos ==> !InBuffer(pRam, pos)
    {
      ghost var bus0 := bus;
      var i := 0;
      while i < 1024
        invariant 0 <= i <= 1024 && pRam == i
        invariant bus == bus0 + DataChunks(ram[..i])
      {
        var b := ram[pRam];
        BusHeader(DataCtrlByte);
        BusWrite(b);
        DataChunksSnoc(ram[..i], b);
        assert ram[..i + 1] == ram[..i] + [b];
        pRam := pRam + 1;
        i := i + 1;
      }
      BusStop();
      assert ram[..1024] == ram[..];
      DriftLeavesBuffer(pRam);
    }

    /** ramUpdateFull as intended: stream the 1024 shadow bytes and leave p_ram at the base. */
    method RamUpdateFull()
      requires Valid()
      modifies this
      ensures Valid()
      ensures bus == old(bus) + DataStream(ram[..])
      ensures forall pos :: 0 <= pos ==> (InBuffer(pRam, pos) <==> pos < BufferSize)
    {
      ghost var bus0 := bus;
      var i := 0;
      while i < 1024
        invariant 0 <= i <= 1024 && Valid()
        invariant bus == bus0 + DataChunks(ram[..i])
      {
        var b := ram[pRam + i];
        BusHeader(DataCtrlByte);
        BusWrite(b);
        DataChunksSnoc(ram[..i], b);
        assert ram[..i + 1] == ram[..i] + [b];
        i := i + 1;
      }
      BusStop();
      assert ram[..1024] == ram[..];
    }

    /**
     * ramClear as written: move the panel's cursor home, then zero the
     * 1024 bytes at p_ram, advancing p_ram past each one.
     */
    method RamClearAsWritten()
      requires Valid()
      modifies this, ram
      ensures ram[..] == Zeros(BufferSize)
      ensures bus == old(bus) + CommandFrame(MoveCursorPayload(0, 0))
      ensures pRam == old(pRam) + BufferSize && !Valid()
      ensures forall pos :: 0 <= pos ==> !InBuffer(pRam, pos)
    {
      DisplayMoveCursor(0, 0);
      var i := 0;
      while i < 1024
        invariant 0 <= i <= 1024 && pRam == i && ram.Length == BufferSize
        invariant forall k :: 0 <= k < i ==> ram[k] == 0
        invariant bus == old(bus) + CommandFrame(MoveCursorPayload(0, 0))
      {
        ram[pRam] := 0x00;
        pRam := pRam + 1;
        i := i + 1;
      }
      DriftLeavesBuffer(pRam);
    }

    /** ramClear as intended: zero the shadow buffer and leave p_ram at the base. */
    method RamClear()
      requires Valid()
      modifies this, ram
      ensures Valid()
      ensures ram[..] == Zeros(BufferSize)
      ensures bus == old(bus) + CommandFrame(MoveCursorPayload(0, 0))
      ensures forall pos :: 0 <= pos ==> (InBuffer(pRam, pos) <==> pos < BufferSize)
    {
      DisplayMoveCursor(0, 0);
      var i := 0;
      while i < 1024
        invariant 0 <= i <= 1024 && Valid()
        invariant forall k :: 0 <= k < i ==> ram[k] == 0
        invariant bus == old(bus) + CommandFrame(MoveCursorPayload(0, 0))
      {
        ram[pRam + i] := 0x00;
        i := i + 1;
      }
    }

    // -----------------------------------------------------------------
    // Whole-screen transfers and text
    // -----------------------------------------------------------------

    /**
     * displayClear: cursor home, then 1024 zero bytes streamed to the
     * panel; the shadow buffer is not touched.
     */
    method DisplayClear()
      modifies this
      ensures bus == old(bus) + CommandFrame(MoveCursorPayload(0, 0)) + DataStream(Zeros(BufferSize))
      ensures pRam == old(pRam)
    {
      DisplayMoveCursor(0, 0);
      ghost var bus0 := bus;
      var i := 0;
      while i < 1024
        invariant 0 <= i <= 1024 && pRam == old(pRam)
        invariant bus == bus0 + DataChunks(Zeros(i))
      {
        BusHeader(DataCtrlByte);
        BusWrite(0x00);
        DataChunksSnoc(Zeros(i), 0x00);
        assert Zeros(i + 1) == Zeros(i) + [0x00];
        i := i + 1;
      }
      BusStop();
    }

    /** drawBitmap: cursor home, then the first 1024 bytes of `bitmap` streamed to the panel. */
    method DrawBitmap(bitmap: seq<byte>)
      requires |bitmap| >= BufferSize
      modifies this
      ensures bus == old(bus) + CommandFrame(MoveCursorPayload(0, 0)) + DataStream(bitmap[..BufferSize])
      ensures pRam == old(pRam)
    {
      DisplayMoveCursor(0, 0);
      ghost var bus0 := bus;
      var i := 0;
      while i < 1024
        invariant 0 <= i <= 1024 && pRam == old(pRam)
        invariant bus == bus0 + DataChunks(bitmap[..i])
      {
        BusHeader(DataCtrlByte);
        BusWrite(bitmap[i]);
        DataChunksSnoc(bitmap[..i], bitmap[i]);
        assert bitmap[..i + 1] == bitmap[..i] + [bitmap[i]];
        i := i + 1;
      }
      BusStop();
    }

    /** The first loop of drawChar: count the bytes before the terminating NUL. */
    static method CountText(ch: seq<byte>) returns (len: int)
      requires 0 in ch
      ensures len == TextLength(ch)
    {
      ghost var n := TextLength(ch);
      len := 0;
      while ch[len] != 0
        invariant 0 <= len <= n
        decreases n - len
      {
        len := len + 1;
      }
    }

    /** The inner loop of drawChar: the five columns of one glyph, each in its own chunk. */
    method SendGlyph(glyph: seq<byte>)
      requires |glyph| == 5
      modifies this
      ensures bus == old(bus) + DataChunks(glyph) && pRam == old(pRam)
    {
      var bitmap := 0;
      while bitmap < 5
        invariant 0 <= bitmap <= 5 && pRam == old(pRam)
        invariant bus == old(bus) + DataChunks(glyph[..bitmap])
      {
        BusHeader(DataCtrlByte);
        BusWrite(glyph[bitmap]);
        DataChunksSnoc(glyph[..bitmap], glyph[bitmap]);
        assert glyph[..bitmap + 1] == glyph[..bitmap] + [glyph[bitmap]];
        bitmap := bitmap + 1;
      }
      assert glyph[..5] == glyph;
    }

    /** The glyph of character n of `text`, streamed after those of the characters before it. */
    method SendTextGlyph(ghost bus0: seq<Event>, ghost text: seq<byte>, font: seq<seq<byte>>, ghost n: int, glyph: seq<byte>)
      requires Printable(text, font) && 0 <= n < |text| && glyph == font[text[n] - 0x20]
      requires Printable(text[..n], font) && bus == bus0 + DataChunks(GlyphBytes(text[..n], font))
      modifies this
      ensures Printable(text[..n + 1], font) && bus == bus0 + DataChunks(GlyphBytes(text[..n + 1], font))
      ensures pRam == old(pRam)
    {
      GlyphBytesPrefix(text, font, n);
      ghost var before := GlyphBytes(text[..n], font);
      SendGlyph(glyph);
      DataChunksAppend(before, glyph);
      AppendAssoc(bus0, DataChunks(before), DataChunks(glyph));
    }

    /**
     * drawChar: count the characters up to the terminating NUL, then
     * stream the five font columns of each character at the panel's
     * current cursor, and close with one stop.
     */
    method DrawChar(ch: seq<byte>, font: seq<seq<byte>>)
      requires 0 in ch
      requires Printable(ch[..TextLength(ch)], font)
      modifies this
      ensures bus == old(bus) + DataStream(GlyphBytes(ch[..TextLength(ch)], font))
      ensures pRam == old(pRam)
    {
      var len := CountText(ch);
      ghost var text := ch[..len];
      ghost var bus0 := bus;
      var bitpos := 0;
      assert text[..0] == [];
      while bitpos < len
        invariant 0 <= bitpos <= len && pRam == old(pRam)
        invariant Printable(text[..bitpos], font)
        invariant bus == bus0 + DataChunks(GlyphBytes(text[..bitpos], font))
      {
        assert ch[bitpos] == text[bitpos];
        var glyph := font[ch[bitpos] - 0x20];
        SendTextGlyph(bus0, text, font, bitpos, glyph);
        bitpos := bitpos + 1;
      }
      assert text[..len] == text;
      BusStop();
      assert bus == bus0 + DataChunks(GlyphBytes(text, font)) + [Stop];
    }

    // -----------------------------------------------------------------
    // Lines and circles
    // -----------------------------------------------------------------

    /**
     * drawPixel inside a drawing loop: after the first k pixels of `pts`
     * have been drawn from `ram0` and `bus0`, drawing pixel k as well
     * gives the first k + 1.
     */
    method Plot(ghost ram0: seq<byte>, ghost bus0: seq<Event>, ghost pts: seq<Point>, ghost k: int, x: int, y: int)
      requires Valid() && IsBuffer(ram0)
      requires 0 <= k < |pts| && pts[k] == Point(x, y) && OnScreen(Point(x, y))
      requires ram[..] == PlotAll(ram0, pts[..k]) && bus == bus0 + PlotTraffic(ram0, pts[..k])
      modifies this, ram
      ensures Valid()
      ensures ram[..] == PlotAll(ram0, pts[..k + 1])
      ensures bus == bus0 + PlotTraffic(ram0, pts[..k + 1])
    {
      DrawPixel(x, y);
      PlotStep(ram0, pts[..k], Point(x, y));
      TakeSnoc(pts, k);
      AppendAssoc(bus0, PlotTraffic(ram0, pts[..k]), PixelTraffic(PlotAll(ram0, pts[..k]), Point(x, y)));
    }

    /**
     * The pixel drawLine's loop draws before each step: the first pixel
     * of the remaining walk, which adds one to the pixels drawn.
     */
    method PlotWalkHead(ghost ram0: seq<byte>, ghost bus0: seq<Event>, ghost pts: seq<Point>, ghost k: int,
                        ghost a: int, ghost b: int, ghost aEnd: int, ghost sa: int, ghost sb: int,
                        ghost dA: int, ghost dB: int, ghost p: int, ghost swap: bool, x: int, y: int)
      requires Drawn(ram0, bus0, pts, k) && forall q :: q in pts ==> OnScreen(q)
      requires (sa == 1 || sa == -1) && Dist(a, aEnd, sa) >= 0
      requires pts[k..] == Walk(a, b, aEnd, sa, sb, dA, dB, p, swap) && Pt(a, b, swap) == Point(x, y)
      modifies this, ram
      ensures Drawn(ram0, bus0, pts, k + 1)
    {
      WalkHead(pts, k, a, b, aEnd, sa, sb, dA, dB, p, swap);
      PlotNext(ram0, bus0, pts, k, x, y);
    }

    /** drawPixel on the last pixel of a list of on-screen pixels: the whole list is drawn. */
    method PlotLast(ghost ram0: seq<byte>, ghost bus0: seq<Event>, ghost pts: seq<Point>, ghost k: int, x: int, y: int)
      requires Drawn(ram0, bus0, pts, k) && k + 1 == |pts| && pts[k] == Point(x, y)
      requires forall q :: q in pts ==> OnScreen(q)
      modifies this, ram
      ensures Valid() && ram[..] == PlotAll(ram0, pts) && bus == bus0 + PlotTraffic(ram0, pts)
    {
      PlotNext(ram0, bus0, pts, k, x, y);
      TakeAll(pts, k + 1);
    }

    /** drawPixel on the next pixel of a list of on-screen pixels. */
    method PlotNext(ghost ram0: seq<byte>, ghost bus0: seq<Event>, ghost pts: seq<Point>, ghost k: int, x: int, y: int)
      requires Drawn(ram0, bus0, pts, k) && k < |pts| && pts[k] == Point(x, y)
      requires forall q :: q in pts ==> OnScreen(q)
      modifies this, ram
      ensures Drawn(ram0, bus0, pts, k + 1)
    {
      assert pts[k] in pts;
      Plot(ram0, bus0, pts, k, x, y);
    }

    /**
     * The loop of drawLine when the line is at least as wide as it is tall:
     * draw each pixel of the walk but the last, stepping the decision
     * value, and return where the walk ends.
     */
    method DrawLineAlongX(ghost ram0: seq<byte>, ghost bus0: seq<Event>, ghost pts: seq<Point>,
                      x1: int, y1: int, x2: int, sx: int, sy: int, dx: int, dy: int)
      returns (x: int, y: int, ghost k: int)
      requires Valid() && IsBuffer(ram0) && ram[..] == ram0 && bus == bus0
      requires sx == 1 || sx == -1
      requires Dist(x1, x2, sx) >= 0
      requires pts == Walk(x1, y1, x2, sx, sy, dx, dy, 2 * dy - dx, false)
      requires forall q :: q in pts ==> OnScreen(q)
      modifies this, ram
      ensures Drawn(ram0, bus0, pts, k) && k + 1 == |pts| && pts[k] == Point(x, y)
    {
      var dx2 := 2 * dx;
      var dy2 := 2 * dy;
      x, y := x1, y1;
      k := 0;
      var pk := dy2 - dx;
      assert pts[..0] == [] && pts[0..] == pts;
      while x != x2
        invariant Dist(x, x2, sx) >= 0
        invariant 0 <= k <= |pts| && pts[k..] == Walk(x, y, x2, sx, sy, dx, dy, pk, false)
        invariant Drawn(ram0, bus0, pts, k)
        decreases Dist(x, x2, sx)
      {
        PlotWalkHead(ram0, bus0, pts, k, x, y, x2, sx, sy, dx, dy, pk, false, x, y);
        ghost var x0, y0, pk0 := x, y, pk;
        x := x + sx;
        if pk < 0 {
          pk := pk + dy2;
        } else {
          pk := pk + dy2 - dx2;
          y := y + sy;
        }
        WalkAdvance(pts, k, x0, y0, x2, sx, sy, dx, dy, pk0, false, x, y, pk);
        k := k + 1;
      }
      WalkFinish(pts, k, x, y, sx, sy, dx, dy, pk, false);
    }

    /**
     * The loop of drawLine when the line is taller than it is wide:
     * draw each pixel of the walk but the last, stepping the decision
     * value, and return where the walk ends.
     */
    method DrawLineAlongY(ghost ram0: seq<byte>, ghost bus0: seq<Event>, ghost pts: seq<Point>,
                      x1: int, y1: int, y2: int, sx: int, sy: int, dx: int, dy: int)
      returns (x: int, y: int, ghost k: int)
      requires Valid() && IsBuffer(ram0) && ram[..] == ram0 && bus == bus0
      requires sy == 1 || sy == -1
      requires Dist(y1, y2, sy) >= 0
      requires pts == Walk(y1, x1, y2, sy, sx, dy, dx, 2 * dx - dy, true)
      requires forall q :: q in pts ==> OnScreen(q)
      modifies this, ram
      ensures Drawn(ram0, bus0, pts, k) && k + 1 == |pts| && pts[k] == Point(x, y)
    {
      var dx2 := 2 * dx;
      var dy2 := 2 * dy;
      x, y := x1, y1;
      k := 0;
      var pk := dx2 - dy;
      assert pts[..0] == [] && pts[0..] == pts;
      while y != y2
        invariant Dist(y, y2, sy) >= 0
        invariant 0 <= k <= |pts| && pts[k..] == Walk(y, x, y2, sy, sx, dy, dx, pk, true)
        invariant Drawn(ram0, bus0, pts, k)
        decreases Dist(y, y2, sy)
      {
        PlotWalkHead(ram0, bus0, pts, k, y, x, y2, sy, sx, dy, dx, pk, true, x, y);
        ghost var y0, x0, pk0 := y, x, pk;
        y := y + sy;
        if pk < 0 {
          pk := pk + dx2;
        } else {
          pk := pk + dx2 - dy2;
          x := x + sx;
        }
        WalkAdvance(pts, k, y0, x0, y2, sy, sx, dy, dx, pk0, true, y, x, pk);
        k := k + 1;
      }
      WalkFinish(pts, k, y, x, sy, sx, dy, dx, pk, true);
    }

    /** The first `k` pixels of `pts` have been drawn on `ram0` and sent after `bus0`. */
    ghost predicate Drawn(ram0: seq<byte>, bus0: seq<Event>, pts: seq<Point>, k: int)
      reads this, ram
    {
      Valid() && IsBuffer(ram0) && 0 <= k <= |pts| &&
      ram[..] == PlotAll(ram0, pts[..k]) && bus == bus0 + PlotTraffic(ram0, pts[..k])
    }

    /**
     * drawPixel behind a bound check: when the guard holds, the next
     * pixel of `pts` is drawn and the count of pixels drawn goes up.
     */
    method PlotIf(ghost ram0: seq<byte>, ghost bus0: seq<Event>, ghost pts: seq<Point>, ghost k: int,
                  guard: bool, x: int, y: int, ghost rest: seq<Point>)
      returns (ghost k': int)
      requires Drawn(ram0, bus0, pts, k)
      requires guard ==> OnScreen(Point(x, y))
      requires pts[k..] == Guarded(guard, Point(x, y)) + rest
      modifies this, ram
      ensures Drawn(ram0, bus0, pts, k') && k <= k' <= |pts| && pts[k'..] == rest
    {
      GuardedHead(pts, k, guard, Point(x, y), rest);
      k' := k;
      if guard {
        Plot(ram0, bus0, pts, k, x, y);
        k' := k + 1;
      }
    }

    /**
     * drawLine: Bresenham's algorithm stepping the coordinate with the
     * larger distance, drawing each pixel before the step, then the end
     * point. The pixels drawn, in order, are LinePoints.
     */
    method DrawLine(x1: int, y1: int, x2: int, y2: int)
      requires Valid() && OnScreen(Point(x1, y1)) && OnScreen(Point(x2, y2))
      modifies this, ram
      ensures Valid()
      ensures forall q :: q in LinePoints(x1, y1, x2, y2) ==> OnScreen(q)
      ensures ram[..] == PlotAll(old(ram[..]), LinePoints(x1, y1, x2, y2))
      ensures bus == old(bus) + PlotTraffic(old(ram[..]), LinePoints(x1, y1, x2, y2))
    {
      LineOnScreen(x1, y1, x2, y2);
      ghost var pts := LinePoints(x1, y1, x2, y2);
      ghost var ram0 := ram[..];
      ghost var bus0 := bus;
      var dx := x2 - x1;
      var dy := y2 - y1;
      var sx := if dx > 0 then 1 else -1;
      var sy := if dy > 0 then 1 else -1;
      dx := dx * sx;
      dy := dy * sy;
      assert dx == Abs(x2 - x1) && dy == Abs(y2 - y1);
      var x, y;
      ghost var k;
      if dx >= dy {
        x, y, k := DrawLineAlongX(ram0, bus0, pts, x1, y1, x2, sx, sy, dx, dy);
      } else {
        x, y, k := DrawLineAlongY(ram0, bus0, pts, x1, y1, y2, sx, sy, dx, dy);
      }
      PlotLast(ram0, bus0, pts, k, x, y);
    }

    /** drawVerticalLine: pixels of column x from y1 towards y2, both ends included. */
    method DrawVerticalLine(x: int, y1: int, y2: int)
      requires Valid() && OnScreen(Point(x, y1)) && OnScreen(Point(x, y2))
      modifies this, ram
      ensures Valid()
      ensures forall q :: q in VerticalPoints(x, y1, y2) ==> OnScreen(q)
      ensures ram[..] == PlotAll(old(ram[..]), VerticalPoints(x, y1, y2))
      ensures bus == old(bus) + PlotTraffic(old(ram[..]), VerticalPoints(x, y1, y2))
    {
      ghost var pts := VerticalPoints(x, y1, y2);
      ghost var ram0 := ram[..];
      ghost var bus0 := bus;
      VerticalOnScreen(x, y1, y2);
      var up := y2 > y1;
      var dist := if up then y2 - y1 else y1 - y2;
      VerticalPointAt(x, y1, y2, 0);
      var i := 0;
      while i <= dist
        invariant i <= dist + 1 && |pts| == dist + 1
        invariant Drawn(ram0, bus0, pts, i)
      {
        var y := if up then y1 + i else y1 - i;
        VerticalPointAt(x, y1, y2, i);
        PlotNext(ram0, bus0, pts, i, x, y);
        i := i + 1;
      }
      assert pts[..i] == pts;
    }

    /** drawHorizontalLine: pixels of row y from x1 towards x2, both ends included. */
    method DrawHorizontalLine(y: int, x1: int, x2: int)
      requires Valid() && OnScreen(Point(x1, y)) && OnScreen(Point(x2, y))
      modifies this, ram
      ensures Valid()
      ensures forall q :: q in HorizontalPoints(y, x1, x2) ==> OnScreen(q)
      ensures ram[..] == PlotAll(old(ram[..]), HorizontalPoints(y, x1, x2))
      ensures bus == old(bus) + PlotTraffic(old(ram[..]), HorizontalPoints(y, x1, x2))
    {
      ghost var pts := HorizontalPoints(y, x1, x2);
      ghost var ram0 := ram[..];
      ghost var bus0 := bus;
      HorizontalOnScreen(y, x1, x2);
      var right := x2 > x1;
      var dist := if right then x2 - x1 else x1 - x2;
      HorizontalPointAt(y, x1, x2, 0);
      var i := 0;
      while i <= dist
        invariant i <= dist + 1 && |pts| == dist + 1
        invariant Drawn(ram0, bus0, pts, i)
      {
        var x := if right then x1 + i else x1 - i;
        HorizontalPointAt(y, x1, x2, i);
        PlotNext(ram0, bus0, pts, i, x, y);
        i := i + 1;
      }
      assert pts[..i] == pts;
    }

    /**
     * The eight bound-checked drawPixel calls of one pass of drawCircle's
     * loop: the octant points of (x, y), in the driver's order, the four
     * above the centre row and then the four below it. Each bound check
     * depends only on the centre and (x, y), so evaluating them before
     * drawing does not change what is drawn.
     */
    method DrawOctants(ghost ram0: seq<byte>, ghost bus0: seq<Event>, ghost pts: seq<Point>, ghost k: int,
                       cx: int, cy: int, x: int, y: int, ghost tail: seq<Point>)
      returns (ghost k': int)
      requires Drawn(ram0, bus0, pts, k) && OnScreen(Point(cx, cy)) && x >= 0 && y >= 0
      requires pts[k..] == OctantPoints(cx, cy, x, y) + tail
      modifies this, ram
      ensures Drawn(ram0, bus0, pts, k') && k <= k' <= |pts| && pts[k'..] == tail
    {
      var g0 := cx + y <= 127 && cy - x >= 0;
      var g1 := cx + x <= 127 && cy - y >= 0;
      var g2 := cx - x >= 0 && cy - y >= 0;
      var g3 := cx - y >= 0 && cy - x >= 0;
      var g4 := cx - y >= 0 && cy + x <= 63;
      var g5 := cx - x >= 0 && cy + y <= 63;
      var g6 := cx + x <= 127 && cy + y <= 63;
      var g7 := cx + y <= 127 && cy + x <= 63;
      OctantPointsSplit(cx, cy, x, y, tail);
      ghost var lower :=
        Guarded(g4, Point(cx - y, cy + x)) + (
        Guarded(g5, Point(cx - x, cy + y)) + (
        Guarded(g6, Point(cx + x, cy + y)) + (
        Guarded(g7, Point(cx + y, cy + x)) + tail)));
      k' := PlotFour(ram0, bus0, pts, k, g0, Point(cx + y, cy - x), g1, Point(cx + x, cy - y),
                    g2, Point(cx - x, cy - y), g3, Point(cx - y, cy - x), lower);
      k' := PlotFour(ram0, bus0, pts, k', g4, Point(cx - y, cy + x), g5, Point(cx - x, cy + y),
                    g6, Point(cx + x, cy + y), g7, Point(cx + y, cy + x), tail);
    }

    /** Four drawPixel calls, each behind its own bound check. */
    method PlotFour(ghost ram0: seq<byte>, ghost bus0: seq<Event>, ghost pts: seq<Point>, ghost k: int,
                    g0: bool, p0: Point, g1: bool, p1: Point, g2: bool, p2: Point, g3: bool, p3: Point,
                    ghost tail: seq<Point>)
      returns (ghost k': int)
      requires Drawn(ram0, bus0, pts, k)
      requires (g0 ==> OnScreen(p0)) && (g1 ==> OnScreen(p1)) && (g2 ==> OnScreen(p2)) && (g3 ==> OnScreen(p3))
      requires pts[k..] == Guarded(g0, p0) + (Guarded(g1, p1) + (Guarded(g2, p2) + (Guarded(g3, p3) + tail)))
      modifies this, ram
      ensures Drawn(ram0, bus0, pts, k') && k <= k' <= |pts| && pts[k'..] == tail
    {
      k' := PlotIf(ram0, bus0, pts, k, g0, p0.x, p0.y, Guarded(g1, p1) + (Guarded(g2, p2) + (Guarded(g3, p3) + tail)));
      k' := PlotIf(ram0, bus0, pts, k', g1, p1.x, p1.y, Guarded(g2, p2) + (Guarded(g3, p3) + tail));
      k' := PlotIf(ram0, bus0, pts, k', g2, p2.x, p2.y, Guarded(g3, p3) + tail);
      k' := PlotIf(ram0, bus0, pts, k', g3, p3.x, p3.y, tail);
    }

    /**
     * The loop of drawCircle, from the state (x0, y0, d0) it starts with:
     * each pass steps the midpoint state and draws its octant points.
     */
    method DrawCircleLoop(ghost ram0: seq<byte>, ghost bus0: seq<Event>, ghost pts: seq<Point>, ghost k0: int,
                          cx: int, cy: int, x0: int, y0: int, d0: int, ghost tail: seq<Point>)
      returns (ghost k: int)
      requires OnScreen(Point(cx, cy)) && 0 <= x0
      requires Drawn(ram0, bus0, pts, k0) && pts[k0..] == CircleLoop(cx, cy, x0, y0, d0) + tail
      modifies this, ram
      ensures Drawn(ram0, bus0, pts, k) && k0 <= k && pts[k..] == tail
    {
      var x, y, d := x0, y0, d0;
      k := k0;
      while x < y
        invariant 0 <= x && k0 <= k
        invariant Drawn(ram0, bus0, pts, k) && pts[k..] == CircleLoop(cx, cy, x, y, d) + tail
        decreases y - x
      {
        ghost var px, py, pd := x, y, d;
        x := x + 1;
        if d < 0 {
          d := Int8(d + 2 * x + 1);
        } else {
          y := y - 1;
          d := Int8(d + 2 * (x - y) + 1);
        }
        CircleLoopStep(cx, cy, px, py, pd, x, y, d);
        AppendAssoc(OctantPoints(cx, cy, x, y), CircleLoop(cx, cy, x, y, d), tail);
        k := DrawOctants(ram0, bus0, pts, k, cx, cy, x, y, CircleLoop(cx, cy, x, y, d) + tail);
      }
    }

    /** The four bound-checked drawPixel calls after drawCircle's loop: the ends of the axes through the centre. */
    method DrawAxisPoints(ghost ram0: seq<byte>, ghost bus0: seq<Event>, ghost pts: seq<Point>, ghost k0: int,
                          cx: int, cy: int, radius: int)
      returns (ghost k: int)
      requires OnScreen(Point(cx, cy)) && 0 <= radius
      requires Drawn(ram0, bus0, pts, k0) && pts[k0..] == AxisPoints(cx, cy, radius)
      modifies this, ram
      ensures Drawn(ram0, bus0, pts, k) && k == |pts|
    {
      AxisPointsSplit(cx, cy, radius);
      k := PlotFour(ram0, bus0, pts, k0, cx + radius <= 127, Point(cx + radius, cy), cx - radius >= 0, Point(cx - radius, cy),
                    cy + radius <= 63, Point(cx, cy + radius), cy - radius >= 0, Point(cx, cy - radius), []);
    }

    /**
     * drawCircle: the midpoint circle algorithm with int8_t state, plotting
     * the visible octant points of each step and then the visible axis
     * points. The pixels drawn, in order, are CirclePoints.
     */
    method DrawCircle(cx: int, cy: int, radius: int)
      requires Valid() && OnScreen(Point(cx, cy)) && 0 <= radius < 256
      modifies this, ram
      ensures Valid()
      ensures forall q :: q in CirclePoints(cx, cy, radius) ==> OnScreen(q)
      ensures ram[..] == PlotAll(old(ram[..]), CirclePoints(cx, cy, radius))
      ensures bus == old(bus) + PlotTraffic(old(ram[..]), CirclePoints(cx, cy, radius))
    {
      CircleOnScreen(cx, cy, radius);
      ghost var pts := CirclePoints(cx, cy, radius);
      ghost var ram0 := ram[..];
      var x0 := 0;
      var y0 := Int8(radius);
      var d0 := Int8(1 - radius);
      ghost var axis := AxisPoints(cx, cy, radius);
      assert pts[..0] == [] && pts[0..] == CircleLoop(cx, cy, x0, y0, d0) + axis;
      var k := DrawCircleLoop(ram0, bus, pts, 0, cx, cy, x0, y0, d0, axis);
      k := DrawAxisPoints(ram0, old(bus), pts, k, cx, cy, radius);
      assert pts[..k] == pts;
    }

    /**
     * ssd1306_init: the whole configuration in one command transaction,
     * then displayClear. The local RAM buffer is not touched. The writes
     * of each section of the configuration are in a method of their own.
     */
    method Init()
      modifies this
      ensures bus == old(bus) + CommandFrame(InitPayload()) + CommandFrame(MoveCursorPayload(0, 0)) + DataStream(Zeros(BufferSize))
      ensures pRam == old(pRam)
    {
      ghost var bus0 := bus;
      BusHeader(CmdCtrlByte);
      ghost var bus1 := bus;
      SendInitOffTiming();
      SendInitDriving();
      WritesGroupsAppend(bus1, InitOffTiming, InitDriving);
      SendInitStartRemap();
      WritesGroupsAppend(bus1, InitOffTiming + InitDriving, InitStartRemap);
      SendInitComLayout();
      WritesGroupsAppend(bus1, InitOffTiming + InitDriving + InitStartRemap, InitComLayout);
      SendInitLevels();
      WritesGroupsAppend(bus1, InitOffTiming + InitDriving + InitStartRemap + InitComLayout, InitLevels);
      SendInitResume();
      WritesGroupsAppend(bus1, InitOffTiming + InitDriving + InitStartRemap + InitComLayout + InitLevels, InitResume);
      BusStop();
      assert InitPayload() == Flatten(InitGroups);
      AppendAssoc(bus0, Header(CmdCtrlByte), Writes(InitPayload()));
      AppendAssoc(bus0, Header(CmdCtrlByte) + Writes(InitPayload()), [Stop]);
      assert bus == bus0 + CommandFrame(InitPayload());
      DisplayClear();
    }

    /** The init writes for display off, clock divide ratio and oscillator, pre-charge period. */
    method SendInitOffTiming()
      modifies this
      ensures bus == old(bus) + Writes(Flatten(InitOffTiming)) && pRam == old(pRam)
    {
      ghost var bus0 := bus;
      BusWrite(0xAE);
      BusWrite(0xD5);
      BusWrite(0xF0);
      BusWrite(0xD9);
      BusWrite(0xF1);
      assert Flatten(InitOffTiming) == [0xAE, 0xD5, 0xF0, 0xD9, 0xF1];
      assert bus == bus0 + [Write(0xAE), Write(0xD5), Write(0xF0), Write(0xD9), Write(0xF1)];
      WritesEach(Flatten(InitOffTiming), [Write(0xAE), Write(0xD5), Write(0xF0), Write(0xD9), Write(0xF1)]);
    }

    /** The init writes for VCOMH deselect level, charge pump, memory addressing mode. */
    method SendInitDriving()
      modifies this
      ensures bus == old(bus) + Writes(Flatten(InitDriving)) && pRam == old(pRam)
    {
      ghost var bus0 := bus;
      BusWrite(0xDB);
      BusWrite(0x20);
      BusWrite(0x8D);
      BusWrite(0x14);
      BusWrite(0x20);
      BusWrite(0x00);
      assert Flatten(InitDriving) == [0xDB, 0x20, 0x8D, 0x14, 0x20, 0x00];
      assert bus == bus0 + [Write(0xDB), Write(0x20), Write(0x8D), Write(0x14), Write(0x20), Write(0x00)];
      WritesEach(Flatten(InitDriving), [Write(0xDB), Write(0x20), Write(0x8D), Write(0x14), Write(0x20), Write(0x00)]);
    }

    /** The init writes for start line, segment remap, multiplex ratio. */
    method SendInitStartRemap()
      modifies this
      ensures bus == old(bus) + Writes(Flatten(InitStartRemap)) && pRam == old(pRam)
    {
      ghost var bus0 := bus;
      BusWrite(0x40);
      BusWrite(0xA1);
      BusWrite(0xA8);
      BusWrite(0x3F);
      assert Flatten(InitStartRemap) == [0x40, 0xA1, 0xA8, 0x3F];
      assert bus == bus0 + [Write(0x40), Write(0xA1), Write(0xA8), Write(0x3F)];
      WritesEach(Flatten(InitStartRemap), [Write(0x40), Write(0xA1), Write(0xA8), Write(0x3F)]);
    }

    /** The init writes for COM scan direction, display offset, COM pins. */
    method SendInitComLayout()
      modifies this
      ensures bus == old(bus) + Writes(Flatten(InitComLayout)) && pRam == old(pRam)
    {
      ghost var bus0 := bus;
      BusWrite(0xC8);
      BusWrite(0xD3);
      BusWrite(0x00);
      BusWrite(0xDA);
      BusWrite(0x12);
      assert Flatten(InitComLayout) == [0xC8, 0xD3, 0x00, 0xDA, 0x12];
      assert bus == bus0 + [Write(0xC8), Write(0xD3), Write(0x00), Write(0xDA), Write(0x12)];
      WritesEach(Flatten(InitComLayout), [Write(0xC8), Write(0xD3), Write(0x00), Write(0xDA), Write(0x12)]);
    }

    /** The init writes for contrast, display follows RAM, normal mode. */
    method SendInitLevels()
      modifies this
      ensures bus == old(bus) + Writes(Flatten(InitLevels)) && pRam == old(pRam)
    {
      ghost var bus0 := bus;
      BusWrite(0x81);
      BusWrite(0x80);
      BusWrite(0xA4);
      BusWrite(0xA6);
      assert Flatten(InitLevels) == [0x81, 0x80, 0xA4, 0xA6];
      assert bus == bus0 + [Write(0x81), Write(0x80), Write(0xA4), Write(0xA6)];
      WritesEach(Flatten(InitLevels), [Write(0x81), Write(0x80), Write(0xA4), Write(0xA6)]);
    }

    /** The init writes for scrolling off, display on. */
    method SendInitResume()
      modifies this
      ensures bus == old(bus) + Writes(Flatten(InitResume)) && pRam == old(pRam)
    {
      ghost var bus0 := bus;
      BusWrite(0x2E);
      BusWrite(0xAF);
      assert Flatten(InitResume) == [0x2E, 0xAF];
      assert bus == bus0 + [Write(0x2E), Write(0xAF)];
      WritesEach(Flatten(InitResume), [Write(0x2E), Write(0xAF)]);
    }
  }
}
