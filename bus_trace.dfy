/**
 * The I2C bus as the display driver uses it: an append-only trace of
 * start conditions, address bytes, data bytes and stop conditions
 * (i2c_start, i2c_request, i2c_write and i2c_stop in Core/Src/i2c.c),
 * and the transaction shapes the driver produces.
 */
module BusTrace {
  import opened Bytes
  import opened Ssd1306Defs
  import opened Seqs

  /** One action of the bus master as seen on the wire. */
  datatype Event = Start | Addr(addr: byte) | Write(data: byte) | Stop

  /** The bytes `bs`, each sent with i2c_write, in order. */
  function Writes(bs: seq<byte>): (t: seq<Event>)
    ensures |t| == |bs|
    ensures forall i :: 0 <= i < |bs| ==> t[i] == Write(bs[i])
  {
    if bs == [] then [] else [Write(bs[0])] + Writes(bs[1..])
  }

  /** Start, slave write address, control byte: the head of every transaction. */
  function Header(ctrl: byte): seq<Event>
  {
    [Start, Addr(SlaveAddrW), Write(ctrl)]
  }

  /** A whole command transaction: [S][ADDR_W][0x00][payload...][P]. */
  function CommandFrame(payload: seq<byte>): seq<Event>
  {
    Header(CmdCtrlByte) + Writes(payload) + [Stop]
  }

  /** One data byte opened by a (repeated) start and left open. */
  function DataChunk(b: byte): seq<Event>
  {
    Header(DataCtrlByte) + [Write(b)]
  }

  /** A run of data chunks, one per byte, with no stop. */
  function DataChunks(bs: seq<byte>): seq<Event>
  {
    if bs == [] then [] else DataChunks(bs[..|bs| - 1]) + DataChunk(bs[|bs| - 1])
  }

  /** Streaming one more byte appends that byte's chunk. */
  lemma DataChunksSnoc(bs: seq<byte>, b: byte)
    ensures DataChunks(bs + [b]) == DataChunks(bs) + DataChunk(b)
  {
    assert (bs + [b])[..|bs|] == bs;
  }

  /** Streaming `a` then `b` chunk by chunk is streaming `a + b`. */
  lemma {:induction false} DataChunksAppend(a: seq<byte>, b: seq<byte>)
    ensures DataChunks(a + b) == DataChunks(a) + DataChunks(b)
    decreases |b|
  {
    if b == [] {
      assert a + b == a;
    } else {
      var init := b[..|b| - 1];
      var last := b[|b| - 1];
      DataChunksAppend(a, init);
      assert a + b == (a + init) + [last];
      DataChunksSnoc(a + init, last);
      assert DataChunks(b) == DataChunks(init) + DataChunk(last);
      AppendAssoc(DataChunks(a), DataChunks(init), DataChunk(last));
    }
  }

  /** A streamed data transfer: one chunk per byte, then a single stop. */
  function DataStream(bs: seq<byte>): seq<Event>
  {
    DataChunks(bs) + [Stop]
  }

  /** A single data byte in its own transaction: [S][ADDR_W][0x40][b][P]. */
  function DataFrame(b: byte): seq<Event>
  {
    DataStream([b])
  }

  /** A one-byte data frame, event by event. */
  lemma DataFrameEvents(b: byte)
    ensures DataFrame(b) == Header(DataCtrlByte) + [Write(b), Stop]
  {
    assert [] + [b] == [b];
    DataChunksSnoc([], b);
    AppendAssoc(Header(DataCtrlByte), [Write(b)], [Stop]);
  }

  /** Where a reader of the trace stands inside the transaction grammar. */
  datatype Scan = BusIdle | WantAddr | WantCtrl | InPayload | Malformed

  function ScanStep(s: Scan, e: Event): Scan
  {
    match (s, e)
    case (BusIdle, Start) => WantAddr
    case (WantAddr, Addr(a)) => if a == SlaveAddrW then WantCtrl else Malformed
    case (WantCtrl, Write(c)) => if c == CmdCtrlByte || c == DataCtrlByte then InPayload else Malformed
    case (InPayload, Write(_)) => InPayload
    case (InPayload, Start) => WantAddr
    case (InPayload, Stop) => BusIdle
    case (_, _) => Malformed
  }

  function ScanAll(s: Scan, t: seq<Event>): Scan
    decreases |t|
  {
    if t == [] then s else ScanAll(ScanStep(s, t[0]), t[1..])
  }

  /**
   * Every transaction in `t` has the shape [S][ADDR_W][ctrl][payload...]
   * closed by a repeated start or a stop, and the bus is idle at the end:
   * every start is eventually matched by a stop.
   */
  predicate WellFramed(t: seq<Event>)
  {
    ScanAll(BusIdle, t) == BusIdle
  }

  lemma {:induction false} ScanAllAppend(s: Scan, a: seq<Event>, b: seq<Event>)
    ensures ScanAll(s, a + b) == ScanAll(ScanAll(s, a), b)
    decreases |a|
  {
    if a == [] {
      assert a + b == b;
    } else {
      assert (a + b)[0] == a[0];
      assert (a + b)[1..] == a[1..] + b;
      ScanAllAppend(ScanStep(s, a[0]), a[1..], b);
    }
  }

  /** Well-framed traffic concatenates to well-framed traffic. */
  lemma WellFramedAppend(a: seq<Event>, b: seq<Event>)
    requires WellFramed(a) && WellFramed(b)
    ensures WellFramed(a + b)
  {
    ScanAllAppend(BusIdle, a, b);
  }

  /** A header with either control byte opens a payload, from idle or after a payload. */
  lemma ScanHeader(s: Scan, ctrl: byte)
    requires s == BusIdle || s == InPayload
    requires ctrl == CmdCtrlByte || ctrl == DataCtrlByte
    ensures ScanAll(s, Header(ctrl)) == InPayload
  {
    var h := Header(ctrl);
    var h1, h2 := [Addr(SlaveAddrW), Write(ctrl)], [Write(ctrl)];
    assert h[0] == Start && h[1..] == h1;
    assert h1[1..] == h2;
    assert ScanAll(s, h) == ScanAll(WantAddr, h1);
    assert ScanAll(WantAddr, h1) == ScanAll(WantCtrl, h2);
    assert ScanAll(WantCtrl, h2) == ScanAll(InPayload, []);
  }

  lemma {:induction false} ScanWrites(bs: seq<byte>)
    ensures ScanAll(InPayload, Writes(bs)) == InPayload
    decreases |bs|
  {
    if bs != [] {
      assert Writes(bs)[0] == Write(bs[0]);
      assert Writes(bs)[1..] == Writes(bs[1..]);
      ScanWrites(bs[1..]);
    }
  }

  /** Every command transaction is well framed. */
  lemma CommandFrameWellFramed(payload: seq<byte>)
    ensures WellFramed(CommandFrame(payload))
  {
    var h := Header(CmdCtrlByte);
    ScanHeader(BusIdle, CmdCtrlByte);
    ScanAllAppend(BusIdle, h, Writes(payload));
    ScanAllAppend(BusIdle, h + Writes(payload), [Stop]);
    ScanWrites(payload);
  }

  lemma {:induction false} ScanDataChunks(bs: seq<byte>)
    requires bs != []
    ensures ScanAll(BusIdle, DataChunks(bs)) == InPayload
    ensures ScanAll(InPayload, DataChunks(bs)) == InPayload
    decreases |bs|
  {
    var init := bs[..|bs| - 1];
    var c := DataChunk(bs[|bs| - 1]);
    ScanHeader(BusIdle, DataCtrlByte);
    ScanHeader(InPayload, DataCtrlByte);
    ScanAllAppend(BusIdle, Header(DataCtrlByte), [Write(bs[|bs| - 1])]);
    ScanAllAppend(InPayload, Header(DataCtrlByte), [Write(bs[|bs| - 1])]);
    if init == [] {
      assert DataChunks(init) == [];
      assert DataChunks(bs) == c;
    } else {
      ScanDataChunks(init);
      ScanAllAppend(BusIdle, DataChunks(init), c);
      ScanAllAppend(InPayload, DataChunks(init), c);
    }
  }

  /**
   * A streamed data transfer is well framed exactly when it carries at
   * least one byte; with no byte it is a lone stop.
   */
  lemma DataStreamWellFramed(bs: seq<byte>)
    ensures WellFramed(DataStream(bs)) <==> bs != []
  {
    if bs == [] {
      assert DataStream(bs) == [Stop];
      assert ScanAll(BusIdle, [Stop]) == ScanAll(Malformed, []);
    } else {
      ScanDataChunks(bs);
      ScanAllAppend(BusIdle, DataChunks(bs), [Stop]);
    }
  }
}
