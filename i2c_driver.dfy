/**
 * The I2C peripheral driver: i2c_init programs the peripheral's registers,
 * and the transfer primitives drive the bus one register access at a time.
 * A transfer is recorded as the sequence of register accesses it makes
 * (`Op`); each busy-wait on a status flag is one `Await` step whose
 * completion is up to the hardware, and the bytes the bus delivers to DR
 * come from an abstract peer stream, `incoming`.
 */
module I2cDriver {
  import opened Bytes
  import opened Seqs
  import opened I2cConfig

  /** i2cMode_t. The burst functions take the master branch for any non-zero mode. */
  const Slave: int := 0
  const Master: int := 1

  /** The SR1 status flags the driver waits on. */
  datatype Flag = SB | ADDR | TXE | BTF | RXNE | AF | STOPF

  /** The condition that ends a busy-wait loop. */
  datatype Cond = Raised(f: Flag) | Either(f: Flag, g: Flag) | Both(f: Flag, g: Flag)

  /** One register access of the driver. */
  datatype Op =
    | StartCond        // START requested in CR1
    | StopCond         // STOP requested in CR1
    | Ack(on: bool)    // ACK bit of CR1 set (ACK) or cleared (NACK)
    | Pos              // POS bit of CR1 set
    | ClearAddr        // SR2 read after SR1, which clears ADDR
    | Send(b: byte)    // a write of DR
    | Receive(b: byte) // a read of DR
    | Await(c: Cond)   // spin until the hardware makes `c` true
    | ClearAf          // AF cleared in SR1
    | ClearStopf       // CR1 written back after STOPF, which clears it

  /** The bytes written to DR, in order. */
  function Sent(ops: seq<Op>): seq<byte>
    decreases |ops|
  {
    if ops == [] then []
    else Sent(ops[..|ops| - 1]) + (if ops[|ops| - 1].Send? then [ops[|ops| - 1].b] else [])
  }

  /** The bytes read from DR, in order. */
  function Received(ops: seq<Op>): seq<byte>
    decreases |ops|
  {
    if ops == [] then []
    else Received(ops[..|ops| - 1]) + (if ops[|ops| - 1].Receive? then [ops[|ops| - 1].b] else [])
  }

  lemma {:induction false} SentAppend(a: seq<Op>, b: seq<Op>)
    ensures Sent(a + b) == Sent(a) + Sent(b)
    decreases |b|
  {
    if b == [] {
      assert a + b == a;
    } else {
      var b' := b[..|b| - 1];
      assert (a + b)[..|a + b| - 1] == a + b';
      SentAppend(a, b');
    }
  }

  lemma {:induction false} ReceivedAppend(a: seq<Op>, b: seq<Op>)
    ensures Received(a + b) == Received(a) + Received(b)
    decreases |b|
  {
    if b == [] {
      assert a + b == a;
    } else {
      var b' := b[..|b| - 1];
      assert (a + b)[..|a + b| - 1] == a + b';
      ReceivedAppend(a, b');
    }
  }

  // ---------------------------------------------------------------------
  // The shapes of the transfer loops
  // ---------------------------------------------------------------------

  /** How a loop iteration moves one byte through DR. */
  datatype Pace = WaitThenSend | SendThenWait | WaitThenReceive | ReceiveOnly

  function Step(p: Pace, b: byte): seq<Op>
  {
    match p
    case WaitThenSend => [Await(Raised(TXE))] + [Send(b)]
    case SendThenWait => [Send(b)] + [Await(Raised(TXE))]
    case WaitThenReceive => [Await(Raised(RXNE))] + [Receive(b)]
    case ReceiveOnly => [Receive(b)]
  }

  /** One iteration per byte of `bs`, in order. */
  function Steps(p: Pace, bs: seq<byte>): seq<Op>
    decreases |bs|
  {
    if bs == [] then [] else Steps(p, bs[..|bs| - 1]) + Step(p, bs[|bs| - 1])
  }

  predicate Sending(p: Pace)
  {
    p == WaitThenSend || p == SendThenWait
  }

  /** Sent and Received of a single access. */
  lemma Single(o: Op)
    ensures Sent([o]) == (if o.Send? then [o.b] else [])
    ensures Received([o]) == (if o.Receive? then [o.b] else [])
  {
    assert [o][..0] == [];
  }

  /** One iteration moves its byte in its direction and does not request STOP. */
  lemma StepCarries(p: Pace, b: byte)
    ensures Sent(Step(p, b)) == (if Sending(p) then [b] else [])
    ensures Received(Step(p, b)) == (if Sending(p) then [] else [b])
    ensures StopCond !in Step(p, b)
  {
    match p
    case WaitThenSend => Pair(Await(Raised(TXE)), Send(b));
    case SendThenWait => Pair(Send(b), Await(Raised(TXE)));
    case WaitThenReceive => Pair(Await(Raised(RXNE)), Receive(b));
    case ReceiveOnly => Single(Receive(b));
  }

  /** Sent and Received of two accesses in a row. */
  lemma Pair(x: Op, y: Op)
    ensures Sent([x] + [y]) == Sent([x]) + Sent([y])
    ensures Received([x] + [y]) == Received([x]) + Received([y])
    ensures Sent([x]) == (if x.Send? then [x.b] else []) && Sent([y]) == (if y.Send? then [y.b] else [])
    ensures Received([x]) == (if x.Receive? then [x.b] else [])
    ensures Received([y]) == (if y.Receive? then [y.b] else [])
  {
    Single(x);
    Single(y);
    SentAppend([x], [y]);
    ReceivedAppend([x], [y]);
  }

  /** A run of iterations sends exactly its bytes, in order, if it sends at all. */
  lemma {:induction false} StepsSent(p: Pace, bs: seq<byte>)
    ensures Sent(Steps(p, bs)) == (if Sending(p) then bs else [])
    decreases |bs|
  {
    if bs != [] {
      var init, last := bs[..|bs| - 1], bs[|bs| - 1];
      assert bs == init + [last];
      StepsSent(p, init);
      StepCarries(p, last);
      SentAppend(Steps(p, init), Step(p, last));
    }
  }

  /** A run of iterations receives exactly its bytes, in order, if it receives at all. */
  lemma {:induction false} StepsReceived(p: Pace, bs: seq<byte>)
    ensures Received(Steps(p, bs)) == (if Sending(p) then [] else bs)
    decreases |bs|
  {
    if bs != [] {
      var init, last := bs[..|bs| - 1], bs[|bs| - 1];
      assert bs == init + [last];
      StepsReceived(p, init);
      StepCarries(p, last);
      ReceivedAppend(Steps(p, init), Step(p, last));
    }
  }

  /** A run of iterations never requests STOP. */
  lemma {:induction false} StepsNoStop(p: Pace, bs: seq<byte>)
    ensures StopCond !in Steps(p, bs)
    decreases |bs|
  {
    if bs != [] {
      StepsNoStop(p, bs[..|bs| - 1]);
      StepCarries(p, bs[|bs| - 1]);
    }
  }

  /** A run of iterations moves exactly its bytes, in order, in its one direction, and never requests STOP. */
  lemma StepsCarry(p: Pace, bs: seq<byte>)
    ensures Sent(Steps(p, bs)) == (if Sending(p) then bs else [])
    ensures Received(Steps(p, bs)) == (if Sending(p) then [] else bs)
    ensures StopCond !in Steps(p, bs)
  {
    StepsSent(p, bs);
    StepsReceived(p, bs);
    StepsNoStop(p, bs);
  }

  /** The same iterations, one more byte. */
  lemma StepsSnoc(p: Pace, s: seq<byte>, i: int)
    requires 0 <= i < |s|
    ensures Steps(p, s[..i + 1]) == Steps(p, s[..i]) + Step(p, s[i])
  {
    assert s[..i + 1][..i] == s[..i];
  }

  /** Iterations over a sequence, one more byte at its end. */
  lemma StepsAppendOne(p: Pace, bs: seq<byte>, x: byte)
    ensures Steps(p, bs + [x]) == Steps(p, bs) + Step(p, x)
  {
    assert (bs + [x])[..|bs|] == bs;
  }

  /** Accesses that move no data. */
  predicate Quiet(ops: seq<Op>)
  {
    forall i :: 0 <= i < |ops| ==> !ops[i].Send? && !ops[i].Receive?
  }

  lemma {:induction false} QuietCarries(ops: seq<Op>)
    requires Quiet(ops)
    ensures Sent(ops) == [] && Received(ops) == []
    decreases |ops|
  {
    if ops != [] {
      QuietCarries(ops[..|ops| - 1]);
    }
  }

  // ---------------------------------------------------------------------
  // The register accesses of each primitive
  // ---------------------------------------------------------------------

  /** i2c_request: wait for SB, send the address byte, wait for ADDR. */
  function RequestOps(addr: byte): seq<Op>
  {
    [Await(Raised(SB)), Send(addr), Await(Raised(ADDR))]
  }

  /** i2c_write: clear ADDR, wait for TXE, send, wait for BTF or TXE. */
  function WriteOps(b: byte): seq<Op>
  {
    [ClearAddr, Await(Raised(TXE)), Send(b), Await(Either(BTF, TXE))]
  }

  /** i2c_write_burst as master: clear ADDR, each byte after TXE, then wait for BTF and TXE together. */
  function MasterWriteOps(bs: seq<byte>): seq<Op>
  {
    [ClearAddr] + Steps(WaitThenSend, bs) + [Await(Both(BTF, TXE))]
  }

  /** i2c_write_burst as slave: ACK, wait for and clear ADDR, each byte then TXE, clear AF. */
  function SlaveWriteOps(bs: seq<byte>): seq<Op>
  {
    [Ack(true), Await(Raised(ADDR)), ClearAddr] + Steps(SendThenWait, bs) + [ClearAf]
  }

  /** i2c_read: NACK, clear ADDR, STOP, then the one byte after RXNE. */
  function ReadOps(b: byte): seq<Op>
  {
    [Ack(false), ClearAddr, StopCond, Await(Raised(RXNE))] + [Receive(b)]
  }

  /** The part of a master burst read before its STOP request. */
  function MasterReadHead(bs: seq<byte>): seq<Op>
    requires |bs| >= 2
  {
    if |bs| == 2 then [Pos, Ack(true), ClearAddr, Ack(false), Await(Raised(BTF))]
    else [Ack(true), ClearAddr] + Steps(WaitThenReceive, bs[..|bs| - 3]) +
         [Await(Raised(BTF)), Ack(false)] + [Receive(bs[|bs| - 3])]
  }

  /** The part of a master burst read after its STOP request. */
  function MasterReadTail(bs: seq<byte>): seq<Op>
    requires |bs| >= 2
  {
    if |bs| == 2 then [Receive(bs[0])] + [Receive(bs[1])]
    else [Await(Raised(BTF))] + [Receive(bs[|bs| - 2])] + [Receive(bs[|bs| - 1])]
  }

  /** i2c_read_burst as master for two or more bytes. */
  function MasterReadOps(bs: seq<byte>): seq<Op>
    requires |bs| >= 2
  {
    MasterReadHead(bs) + [StopCond] + MasterReadTail(bs)
  }

  /** i2c_read_burst as slave: ACK, wait for and clear ADDR, each byte while RXNE, clear STOPF. */
  function SlaveReadOps(bs: seq<byte>): seq<Op>
  {
    [Ack(true), Await(Raised(ADDR)), ClearAddr] + Steps(ReceiveOnly, bs) + [ClearStopf]
  }

  /** Quiet accesses around a run of iterations leave the run's bytes as they are. */
  lemma FramedSteps(pre: seq<Op>, p: Pace, bs: seq<byte>, post: seq<Op>)
    requires Quiet(pre) && Quiet(post)
    ensures Sent(pre + Steps(p, bs) + post) == (if Sending(p) then bs else [])
    ensures Received(pre + Steps(p, bs) + post) == (if Sending(p) then [] else bs)
  {
    QuietCarries(pre);
    QuietCarries(post);
    StepsCarry(p, bs);
    SentAppend(pre, Steps(p, bs));
    SentAppend(pre + Steps(p, bs), post);
    ReceivedAppend(pre, Steps(p, bs));
    ReceivedAppend(pre + Steps(p, bs), post);
  }

  /** A master burst write sends the buffer's bytes, all of them, in order, and reads nothing. */
  lemma MasterWriteCarries(bs: seq<byte>)
    ensures Sent(MasterWriteOps(bs)) == bs && Received(MasterWriteOps(bs)) == []
  {
    FramedSteps([ClearAddr], WaitThenSend, bs, [Await(Both(BTF, TXE))]);
  }

  /** A slave burst write sends the given bytes in order and reads nothing. */
  lemma SlaveWriteCarries(bs: seq<byte>)
    ensures Sent(SlaveWriteOps(bs)) == bs && Received(SlaveWriteOps(bs)) == []
  {
    FramedSteps([Ack(true), Await(Raised(ADDR)), ClearAddr], SendThenWait, bs, [ClearAf]);
  }

  /** A slave burst read receives the given bytes in order and sends nothing. */
  lemma SlaveReadCarries(bs: seq<byte>)
    ensures Received(SlaveReadOps(bs)) == bs && Sent(SlaveReadOps(bs)) == []
  {
    FramedSteps([Ack(true), Await(Raised(ADDR)), ClearAddr], ReceiveOnly, bs, [ClearStopf]);
  }

  /** A single read requests STOP before its one byte arrives, and NACKs it. */
  lemma ReadCarries(b: byte)
    ensures ReadOps(b) == [Ack(false), ClearAddr] + [StopCond] + [Await(Raised(RXNE)), Receive(b)]
    ensures Received(ReadOps(b)) == [b] && Sent(ReadOps(b)) == []
  {
    LastRead(ReadOps(b), [Ack(false), ClearAddr, StopCond, Await(Raised(RXNE))], b);
  }

  /** i2c_request puts the address byte into DR and moves no other data. */
  lemma RequestCarries(addr: byte)
    ensures Sent(RequestOps(addr)) == [addr] && Received(RequestOps(addr)) == []
  {
    OneSend(RequestOps(addr), [Await(Raised(SB))], addr, [Await(Raised(ADDR))]);
  }

  /** i2c_write transmits exactly its one byte and receives nothing. */
  lemma WriteCarries(b: byte)
    ensures Sent(WriteOps(b)) == [b] && Received(WriteOps(b)) == []
  {
    OneSend(WriteOps(b), [ClearAddr, Await(Raised(TXE))], b, [Await(Either(BTF, TXE))]);
  }

  /** Quiet accesses around one byte written: that byte alone. */
  lemma OneSend(ops: seq<Op>, pre: seq<Op>, x: byte, post: seq<Op>)
    requires ops == pre + [Send(x)] + post && Quiet(pre) && Quiet(post)
    ensures Sent(ops) == [x] && Received(ops) == []
  {
    QuietCarries(pre);
    QuietCarries(post);
    Single(Send(x));
    SentAppend(pre, [Send(x)]);
    SentAppend(pre + [Send(x)], post);
    ReceivedAppend(pre, [Send(x)]);
    ReceivedAppend(pre + [Send(x)], post);
  }

  /** Quiet accesses, then one byte read: that byte alone. */
  lemma LastRead(ops: seq<Op>, pre: seq<Op>, x: byte)
    requires ops == pre + [Receive(x)] && Quiet(pre)
    ensures Received(ops) == [x] && Sent(ops) == []
  {
    QuietCarries(pre);
    Single(Receive(x));
    SentAppend(pre, [Receive(x)]);
    ReceivedAppend(pre, [Receive(x)]);
  }

  /** Before STOP a master burst read receives all but its last two bytes, and sets NACK. */
  lemma MasterReadHeadCarries(bs: seq<byte>)
    requires |bs| >= 2
    ensures Received(MasterReadHead(bs)) == bs[..|bs| - 2] && Sent(MasterReadHead(bs)) == []
    ensures StopCond !in MasterReadHead(bs) && Ack(false) in MasterReadHead(bs)
  {
    if |bs| == 2 {
      var head := [Pos, Ack(true), ClearAddr, Ack(false), Await(Raised(BTF))];
      QuietCarries(head);
      assert head[3] == Ack(false);
    } else {
      MasterReadHeadMany(bs);
    }
  }

  /** The head of a master burst read of three or more bytes: the loop, then the third-last byte. */
  lemma MasterReadHeadMany(bs: seq<byte>)
    requires |bs| >= 3
    ensures Received(MasterReadHead(bs)) == bs[..|bs| - 2] && Sent(MasterReadHead(bs)) == []
    ensures StopCond !in MasterReadHead(bs) && Ack(false) in MasterReadHead(bs)
  {
    var n := |bs|;
    var run := bs[..n - 3];
    assert run + [bs[n - 3]] == bs[..n - 2];
    HeadCarries(MasterReadHead(bs), [Ack(true), ClearAddr], run, [Await(Raised(BTF)), Ack(false)], bs[n - 3]);
    HeadSignals(MasterReadHead(bs), [Ack(true), ClearAddr], run, [Await(Raised(BTF)), Ack(false)], bs[n - 3]);
  }

  /** Quiet accesses around a receive loop, then one more byte read: the loop's bytes and that byte. */
  lemma HeadCarries(ops: seq<Op>, pre: seq<Op>, run: seq<byte>, post: seq<Op>, x: byte)
    requires ops == pre + Steps(WaitThenReceive, run) + post + [Receive(x)]
    requires Quiet(pre) && Quiet(post)
    ensures Received(ops) == run + [x] && Sent(ops) == []
  {
    var body := pre + Steps(WaitThenReceive, run) + post;
    FramedSteps(pre, WaitThenReceive, run, post);
    Single(Receive(x));
    SentAppend(body, [Receive(x)]);
    ReceivedAppend(body, [Receive(x)]);
  }

  /** A receive loop framed by accesses without STOP, the last of them a NACK, then a read: NACK and no STOP. */
  lemma HeadSignals(ops: seq<Op>, pre: seq<Op>, run: seq<byte>, post: seq<Op>, x: byte)
    requires ops == pre + Steps(WaitThenReceive, run) + post + [Receive(x)]
    requires StopCond !in pre && StopCond !in post
    requires |post| > 0 && post[|post| - 1] == Ack(false)
    ensures StopCond !in ops && Ack(false) in ops
  {
    var body := pre + Steps(WaitThenReceive, run) + post;
    StepsNoStop(WaitThenReceive, run);
    assert StopCond !in pre + Steps(WaitThenReceive, run);
    assert StopCond !in body;
    assert ops[|body| - 1] == Ack(false);
  }

  /** After STOP a master burst read receives its last two bytes. */
  lemma MasterReadTailCarries(bs: seq<byte>)
    requires |bs| >= 2
    ensures Received(MasterReadTail(bs)) == bs[|bs| - 2..] && Sent(MasterReadTail(bs)) == []
    ensures StopCond !in MasterReadTail(bs)
  {
    var n := |bs|;
    if n == 2 {
      assert MasterReadTail(bs) == [] + [Receive(bs[0])] + [Receive(bs[1])];
      TailCarries(MasterReadTail(bs), [], bs[0], bs[1]);
    } else {
      TailCarries(MasterReadTail(bs), [Await(Raised(BTF))], bs[n - 2], bs[n - 1]);
    }
    assert bs[n - 2..] == [bs[n - 2]] + [bs[n - 1]];
  }

  /** Quiet accesses without STOP, then two bytes read: those two bytes, and no STOP. */
  lemma TailCarries(ops: seq<Op>, pre: seq<Op>, x: byte, y: byte)
    requires ops == pre + [Receive(x)] + [Receive(y)]
    requires Quiet(pre) && StopCond !in pre
    ensures Received(ops) == [x] + [y] && Sent(ops) == [] && StopCond !in ops
  {
    QuietCarries(pre);
    Single(Receive(x));
    Single(Receive(y));
    SentAppend(pre, [Receive(x)]);
    ReceivedAppend(pre, [Receive(x)]);
    SentAppend(pre + [Receive(x)], [Receive(y)]);
    ReceivedAppend(pre + [Receive(x)], [Receive(y)]);
  }

  /**
   * A master burst read receives its bytes in order and sends none. It
   * requests STOP exactly once, with the last two bytes still to be read,
   * and sets NACK before that request.
   */
  lemma MasterReadStop(bs: seq<byte>)
    requires |bs| >= 2
    ensures Received(MasterReadOps(bs)) == bs && Sent(MasterReadOps(bs)) == []
    ensures Received(MasterReadHead(bs)) == bs[..|bs| - 2]
    ensures StopCond !in MasterReadHead(bs) && StopCond !in MasterReadTail(bs)
    ensures Ack(false) in MasterReadHead(bs)
  {
    MasterReadHeadCarries(bs);
    MasterReadTailCarries(bs);
    AroundStop(MasterReadHead(bs), MasterReadTail(bs));
    assert bs[..|bs| - 2] + bs[|bs| - 2..] == bs;
  }

  /** The accesses of a master burst read of three or more bytes, grouped as the driver makes them. */
  lemma MasterReadManyOps(in0: seq<byte>, n: nat)
    requires 3 <= n <= |in0|
    ensures MasterReadOps(in0[..n]) ==
      ([Ack(true)] + [ClearAddr] + Steps(WaitThenReceive, in0[..n - 3])) +
      ([Await(Raised(BTF)), Ack(false)] + [Receive(in0[n - 3])] + [StopCond] +
       ([Await(Raised(BTF))] + [Receive(in0[n - 2])] + [Receive(in0[n - 1])]))
  {
    var bs := in0[..n];
    assert bs[..n - 3] == in0[..n - 3];
    assert [Ack(true)] + [ClearAddr] == [Ack(true), ClearAddr];
  }

  /** The accesses of the last three reads, appended to those before them, make up the whole read. */
  lemma MasterReadManyTrace(t0: seq<Op>, in0: seq<byte>, n: nat)
    requires 3 <= n <= |in0|
    ensures t0 + [Ack(true)] + [ClearAddr] + Steps(WaitThenReceive, in0[..n - 3]) +
            ([Await(Raised(BTF)), Ack(false)] + [Receive(in0[n - 3])]) +
            ([StopCond] + ([Await(Raised(BTF))] + [Receive(in0[n - 2])] + [Receive(in0[n - 1])])) ==
            t0 + MasterReadOps(in0[..n])
  {
    var pre := [Ack(true)] + [ClearAddr] + Steps(WaitThenReceive, in0[..n - 3]);
    var third := [Await(Raised(BTF)), Ack(false)] + [Receive(in0[n - 3])];
    var tail := [Await(Raised(BTF))] + [Receive(in0[n - 2])] + [Receive(in0[n - 1])];
    AppendAssoc(t0, [Ack(true)], [ClearAddr]);
    AppendAssoc(t0, [Ack(true)] + [ClearAddr], Steps(WaitThenReceive, in0[..n - 3]));
    AppendAssoc(t0 + pre, third, [StopCond] + tail);
    AppendAssoc(third, [StopCond], tail);
    AppendAssoc(t0, pre, third + [StopCond] + tail);
    MasterReadManyOps(in0, n);
  }

  /** A STOP request between two parts of a transfer moves no data. */
  lemma AroundStop(head: seq<Op>, tail: seq<Op>)
    ensures Received(head + [StopCond] + tail) == Received(head) + Received(tail)
    ensures Sent(head + [StopCond] + tail) == Sent(head) + Sent(tail)
  {
    Single(StopCond);
    ReceivedAppend(head, [StopCond]);
    ReceivedAppend(head + [StopCond], tail);
    SentAppend(head, [StopCond]);
    SentAppend(head + [StopCond], tail);
  }

  // ---------------------------------------------------------------------
  // The slave loops' buffer index
  // ---------------------------------------------------------------------

  /**
   * The uint8_t index of the slave loops only ever reaches `t % 256`, so a
   * buffer of `len` bytes holds it for `rounds` iterations when it is at
   * least that long or at least 256 bytes long.
   */
  predicate IndexFits(len: nat, rounds: nat)
  {
    rounds <= len || 256 <= len
  }

  /** The value of a uint8_t counter after `r` increments from zero. */
  function Index8(r: nat): byte
    decreases r
  {
    if r == 0 then 0 else (Index8(r - 1) + 1) % 256
  }

  /** The counter is the number of increments modulo 256. */
  lemma {:induction false} Index8Mod(r: nat)
    ensures Index8(r) == r % 256
    decreases r
  {
    if r > 0 {
      Index8Mod(r - 1);
      IndexNext(r - 1);
    }
  }

  /** The uint8_t index after one more increment still counts rounds modulo 256. */
  lemma IndexNext(r: nat)
    ensures (r % 256 + 1) % 256 == (r + 1) % 256
  {
    var q := r / 256;
    assert r == 256 * q + r % 256;
    if r % 256 == 255 {
      assert r + 1 == 256 * (q + 1);
    } else {
      assert r + 1 == 256 * q + (r % 256 + 1);
    }
  }

  /** What the slave transmitter writes to DR in round `t`. */
  function SlaveByte(data: seq<byte>, dataBytes: nat, t: nat): byte
    requires |data| > 0 && (dataBytes > 1 ==> t % 256 < |data|)
  {
    if dataBytes > 1 then data[t % 256] else data[0]
  }

  /**
   * The slave transmitter stays inside its buffer for `rounds` rounds: it
   * reads the first byte whenever it sends, and with a count above one it
   * also advances its uint8_t index, which must then fit the buffer.
   */
  predicate SlaveTxFits(len: nat, dataBytes: nat, rounds: nat)
  {
    rounds == 0 || (len > 0 && (dataBytes > 1 ==> IndexFits(len, rounds)))
  }

  /** The slave transmitter's bytes over `rounds` rounds, until the master's NACK raises AF. */
  function SlaveTx(data: seq<byte>, dataBytes: nat, rounds: nat): (r: seq<byte>)
    requires SlaveTxFits(|data|, dataBytes, rounds)
    ensures |r| == rounds
    decreases rounds
  {
    if rounds == 0 then []
    else SlaveTx(data, dataBytes, rounds - 1) + [SlaveByte(data, dataBytes, rounds - 1)]
  }

  /**
   * With a count above one the slave sends the buffer from its start, and
   * nothing bounds it by the count: a master that keeps acknowledging gets
   * the bytes that follow the first `dataBytes`. With a count of one or
   * zero it repeats the first byte for as many rounds as the master asks.
   */
  lemma SlaveTxFromStart(data: seq<byte>, dataBytes: nat, rounds: nat)
    requires 0 < rounds && 0 < |data|
    ensures dataBytes > 1 && rounds <= 256 && rounds <= |data| ==>
      SlaveTx(data, dataBytes, rounds) == data[..rounds]
    ensures dataBytes <= 1 ==> SlaveTx(data, dataBytes, rounds) == seq(rounds, t => data[0])
  {
    if dataBytes <= 1 || (rounds <= 256 && rounds <= |data|) {
      forall t | 0 <= t < rounds
        ensures SlaveTx(data, dataBytes, rounds)[t] == SlaveByte(data, dataBytes, t)
      {
        SlaveTxAt(data, dataBytes, rounds, t);
      }
    }
  }

  /** Past 256 rounds the index wraps and the slave starts over at the buffer's first byte. */
  lemma SlaveTxWraps(data: seq<byte>, dataBytes: nat)
    requires 256 <= |data| && dataBytes > 1
    ensures SlaveTx(data, dataBytes, 257)[256] == data[0]
  {
    SlaveTxAt(data, dataBytes, 257, 256);
  }

  /** Round `t` of the slave transmitter sends the byte at the uint8_t index `t % 256`. */
  lemma {:induction false} SlaveTxAt(data: seq<byte>, dataBytes: nat, rounds: nat, t: nat)
    requires t < rounds && SlaveTxFits(|data|, dataBytes, rounds)
    ensures dataBytes > 1 ==> t % 256 < |data|
    ensures SlaveTx(data, dataBytes, rounds)[t] == SlaveByte(data, dataBytes, t)
    decreases rounds
  {
    if t < rounds - 1 {
      SlaveTxAt(data, dataBytes, rounds - 1, t);
    }
  }

  /** One more round of the slave transmitter appends the byte at its index, or the first byte. */
  lemma SlaveTxNext(data: seq<byte>, dataBytes: nat, rounds: nat, acked: nat)
    requires rounds < acked && SlaveTxFits(|data|, dataBytes, acked)
    ensures SlaveTxFits(|data|, dataBytes, rounds) && SlaveTxFits(|data|, dataBytes, rounds + 1)
    ensures dataBytes > 1 ==> rounds % 256 < |data|
    ensures SlaveTx(data, dataBytes, rounds + 1) ==
      SlaveTx(data, dataBytes, rounds) + [if dataBytes > 1 then data[rounds % 256] else data[0]]
  {
  }

  /** Round `rounds` may index the buffer, and the uint8_t counter stands at `rounds % 256`. */
  lemma SlaveIndexFits(len: nat, rounds: nat, acked: nat)
    requires rounds < acked && IndexFits(len, acked) && len > 0
    ensures Index8(rounds) == rounds % 256 < len
  {
    Index8Mod(rounds);
  }

  /** The slave receiver's buffer after storing `bs`: byte `t` goes to index `t % 256`. */
  function SlaveStore(buf: seq<byte>, bs: seq<byte>): (r: seq<byte>)
    requires IndexFits(|buf|, |bs|)
    ensures |r| == |buf|
    decreases |bs|
  {
    if bs == [] then buf
    else SlaveStore(buf, bs[..|bs| - 1])[(|bs| - 1) % 256 := bs[|bs| - 1]]
  }

  /** Storing one more received byte. */
  lemma SlaveStoreNext(buf: seq<byte>, bs: seq<byte>, k: nat)
    requires k < |bs| && IndexFits(|buf|, k + 1)
    ensures IndexFits(|buf|, k) && k % 256 < |buf|
    ensures SlaveStore(buf, bs[..k + 1]) == SlaveStore(buf, bs[..k])[k % 256 := bs[k]]
  {
    assert bs[..k + 1][..k] == bs[..k];
  }

  /** Up to 256 received bytes land at the start of the buffer, in order; the rest is untouched. */
  lemma {:induction false} SlaveStoreInOrder(buf: seq<byte>, bs: seq<byte>)
    requires |bs| <= 256 && |bs| <= |buf|
    ensures SlaveStore(buf, bs) == bs + buf[|bs|..]
    decreases |bs|
  {
    if bs != [] {
      var n := |bs|;
      SlaveStoreInOrder(buf, bs[..n - 1]);
      assert (bs[..n - 1] + buf[n - 1..])[n - 1 := bs[n - 1]] == bs + buf[n..];
    }
  }

  /** The 257th received byte overwrites the first. */
  lemma SlaveStoreWraps(buf: seq<byte>, bs: seq<byte>)
    requires |bs| == 257 && 256 <= |buf|
    ensures SlaveStore(buf, bs)[0] == bs[256]
  {
  }

  /** The total of the per-poll byte counts. */
  function Sum(s: seq<nat>): nat
    decreases |s|
  {
    if s == [] then 0 else Sum(s[..|s| - 1]) + s[|s| - 1]
  }

  lemma {:induction false} SumPrefix(s: seq<nat>, k: nat)
    requires k <= |s|
    ensures Sum(s[..k]) <= Sum(s)
    decreases |s| - k
  {
    if k < |s| {
      SumPrefix(s, k + 1);
      assert s[..k + 1][..k] == s[..k];
    } else {
      assert s[..k] == s;
    }
  }

  /**
   * The I2C peripheral: the registers i2c_init programs, the register
   * accesses made so far, and the bytes the bus has yet to deliver to DR.
   * The control bits the transfers set and clear in CR1 (START, STOP, ACK,
   * POS) are recorded as steps of `trace` rather than as bits of `regs`.
   */
  class I2cPeriph {
    var regs: Registers
    var trace: seq<Op>
    var incoming: seq<byte>

    constructor(peer: seq<byte>)
      ensures regs == ResetRegisters && trace == [] && incoming == peer
    {
      regs := ResetRegisters;
      trace := [];
      incoming := peer;
    }

    /**
     * i2c_init, from the software reset on: the reset returns every
     * register to zero, then each register is ORed with its part of the
     * configuration. `cfgr` is RCC->CFGR and `sysclk` SystemCoreClock.
     */
    method Init(c: I2cInit, cfgr: u32, sysclk: u32)
      requires 0 < c.clockSpeed <= 400000
      modifies this
      ensures regs == InitRegisters(c, ApbPrescaler(cfgr), sysclk)
      ensures trace == old(trace) && incoming == old(incoming)
    {
      regs := ResetRegisters;
      regs := regs.(cr1 := Or(regs.cr1, Cr1Options(c)));
      regs := regs.(oar1 := Or(regs.oar1, Oar1(c)));
      if c.dualAddressingMode == 0x0001 {
        regs := regs.(oar2 := Or(regs.oar2, c.dualAddressingMode));
        regs := regs.(oar2 := Or(regs.oar2, c.ownAddress2 * 2));
      }
      var p := ApbPrescaler(cfgr);
      regs := regs.(cr2 := Or(regs.cr2, Freq(p, sysclk)));
      regs := regs.(ccr := Or(regs.ccr, CcrMode(c)));
      var tmp := (sysclk / (4 * c.clockSpeed)) % 0x1_0000;
      if tmp < 4 {
        if TestBit(regs.ccr, CcrFsBit) && TestBit(regs.ccr, CcrDutyBit) {
          tmp := 1;
        } else {
          tmp := 4;
        }
      }
      regs := regs.(ccr := Or(regs.ccr, tmp));
      var riseTime := if c.clockSpeed == 400000 && TestBit(regs.ccr, CcrFsBit) then 300 else 1000;
      regs := regs.(trise := riseTime * regs.cr2 / 1000 + 1);
      regs := regs.(cr1 := Or(regs.cr1, Cr1Pe));
    }

    /** i2c_start: request a START (a repeated START when the bus is held). */
    method Start()
      modifies this
      ensures trace == old(trace) + [StartCond]
      ensures regs == old(regs) && incoming == old(incoming)
    {
      trace := trace + [StartCond];
    }

    /** i2c_stop: request a STOP, releasing the bus. */
    method Stop()
      modifies this
      ensures trace == old(trace) + [StopCond]
      ensures regs == old(regs) && incoming == old(incoming)
    {
      trace := trace + [StopCond];
    }

    /** i2c_ack_bit: set ACK when `on`, clear it otherwise. */
    method AckBit(on: bool)
      modifies this
      ensures trace == old(trace) + [Ack(on)]
      ensures regs == old(regs) && incoming == old(incoming)
    {
      trace := trace + [Ack(on)];
    }

    /** One iteration of a transmit loop: the write of DR and its TXE wait, in the order `p` gives. */
    method SendStep(p: Pace, b: byte)
      requires Sending(p)
      modifies this
      ensures trace == old(trace) + Step(p, b)
      ensures regs == old(regs) && incoming == old(incoming)
    {
      if p == WaitThenSend {
        trace := trace + [Await(Raised(TXE))];
        trace := trace + [Send(b)];
      } else {
        trace := trace + [Send(b)];
        trace := trace + [Await(Raised(TXE))];
      }
    }

    /** One iteration of a receive loop: the read of DR, after an RXNE wait when `p` has one. */
    method ReceiveStep(p: Pace) returns (b: byte)
      requires !Sending(p) && |incoming| > 0
      modifies this
      ensures b == old(incoming[0]) && incoming == old(incoming[1..])
      ensures trace == old(trace) + Step(p, b)
      ensures regs == old(regs)
    {
      if p == WaitThenReceive {
        trace := trace + [Await(Raised(RXNE))];
      }
      b := incoming[0];
      incoming := incoming[1..];
      trace := trace + [Receive(b)];
    }

    /** i2c_request: after START, send the address byte (address and R/W bit). */
    method Request(addr: byte)
      modifies this
      ensures trace == old(trace) + RequestOps(addr)
      ensures Sent(trace) == Sent(old(trace)) + [addr] && Received(trace) == Received(old(trace))
      ensures regs == old(regs) && incoming == old(incoming)
    {
      trace := trace + [Await(Raised(SB)), Send(addr), Await(Raised(ADDR))];
      RequestCarries(addr);
      SentAppend(old(trace), RequestOps(addr));
      ReceivedAppend(old(trace), RequestOps(addr));
    }

    /** i2c_write: transmit one byte as master. */
    method Write(data: byte)
      modifies this
      ensures trace == old(trace) + WriteOps(data)
      ensures Sent(trace) == Sent(old(trace)) + [data] && Received(trace) == Received(old(trace))
      ensures regs == old(regs) && incoming == old(incoming)
    {
      trace := trace + [ClearAddr, Await(Raised(TXE)), Send(data), Await(Either(BTF, TXE))];
      WriteCarries(data);
      SentAppend(old(trace), WriteOps(data));
      ReceivedAppend(old(trace), WriteOps(data));
    }

    /**
     * i2c_write_burst, which only reads the buffer, given here as the
     * sequence `data`. As master it sends the first `dataBytes` bytes of
     * `data`. As slave it sends until the master's NACK raises AF, which the
     * peer does after `acked` rounds.
     */
    method WriteBurst(mode: int, dataBytes: byte, data: seq<byte>, acked: nat)
      requires mode != Slave ==> dataBytes <= |data|
      requires mode == Slave ==> SlaveTxFits(|data|, dataBytes, acked)
      modifies this
      ensures mode != Slave ==> trace == old(trace) + MasterWriteOps(data[..dataBytes])
      ensures mode == Slave ==> trace == old(trace) + SlaveWriteOps(SlaveTx(data, dataBytes, acked))
      ensures regs == old(regs) && incoming == old(incoming)
    {
      if mode != Slave {
        MasterWriteBurst(dataBytes, data);
      } else {
        SlaveWriteBurst(dataBytes, data, acked);
      }
    }

    /** The master branch of i2c_write_burst. */
    method MasterWriteBurst(dataBytes: byte, data: seq<byte>)
      requires dataBytes <= |data|
      modifies this
      ensures trace == old(trace) + MasterWriteOps(data[..dataBytes])
      ensures regs == old(regs) && incoming == old(incoming)
    {
      trace := trace + [ClearAddr];
      ghost var t1 := trace;
      var i := 0;
      while i != dataBytes
        invariant 0 <= i <= dataBytes
        invariant trace == t1 + Steps(WaitThenSend, data[..i])
        invariant regs == old(regs) && incoming == old(incoming)
        decreases dataBytes - i
      {
        StepsSnoc(WaitThenSend, data, i);
        AppendAssoc(t1, Steps(WaitThenSend, data[..i]), Step(WaitThenSend, data[i]));
        SendStep(WaitThenSend, data[i]);
        i := i + 1;
      }
      trace := trace + [Await(Both(BTF, TXE))];
    }

    /** The slave branch of i2c_write_burst; `j` is the uint8_t buffer index. */
    method SlaveWriteBurst(dataBytes: byte, data: seq<byte>, acked: nat)
      requires SlaveTxFits(|data|, dataBytes, acked)
      modifies this
      ensures trace == old(trace) + SlaveWriteOps(SlaveTx(data, dataBytes, acked))
      ensures regs == old(regs) && incoming == old(incoming)
    {
      trace := trace + [Ack(true), Await(Raised(ADDR)), ClearAddr];
      SlaveTransmit(dataBytes, data, acked);
      ghost var loop := Steps(SendThenWait, SlaveTx(data, dataBytes, acked));
      trace := trace + [ClearAf];
      AppendAssoc(old(trace), [Ack(true), Await(Raised(ADDR)), ClearAddr], loop);
      AppendAssoc(old(trace), [Ack(true), Await(Raised(ADDR)), ClearAddr] + loop, [ClearAf]);
    }

    /** The EV3-1 loop of the slave transmitter: one round per byte until AF. */
    method SlaveTransmit(dataBytes: byte, data: seq<byte>, acked: nat)
      requires SlaveTxFits(|data|, dataBytes, acked)
      modifies this
      ensures trace == old(trace) + Steps(SendThenWait, SlaveTx(data, dataBytes, acked))
      ensures regs == old(regs) && incoming == old(incoming)
    {
      ghost var t1 := trace;
      var j: byte := 0;
      var rounds := 0;
      while rounds != acked
        invariant rounds <= acked
        invariant j == (if dataBytes > 1 then Index8(rounds) else 0)
        invariant trace == t1 + Steps(SendThenWait, SlaveTx(data, dataBytes, rounds))
        invariant regs == old(regs) && incoming == old(incoming)
        decreases acked - rounds
      {
        j := SlaveRound(dataBytes, data, j, rounds, acked, t1);
        rounds := rounds + 1;
      }
    }

    /** One pass of the slave transmit loop: the byte at `j` (or the first byte), then the TXE wait. */
    method SlaveRound(dataBytes: byte, data: seq<byte>, j: byte, ghost rounds: nat, ghost acked: nat,
                      ghost t1: seq<Op>) returns (j': byte)
      requires rounds < acked && SlaveTxFits(|data|, dataBytes, acked)
      requires j == (if dataBytes > 1 then Index8(rounds) else 0)
      requires trace == t1 + Steps(SendThenWait, SlaveTx(data, dataBytes, rounds))
      modifies this
      ensures j' == (if dataBytes > 1 then Index8(rounds + 1) else 0)
      ensures trace == t1 + Steps(SendThenWait, SlaveTx(data, dataBytes, rounds + 1))
      ensures regs == old(regs) && incoming == old(incoming)
    {
      SlaveTxNext(data, dataBytes, rounds, acked);
      var b;
      b, j' := SlaveNextByte(dataBytes, data, j, rounds, acked);
      ghost var sent := SlaveTx(data, dataBytes, rounds);
      StepsAppendOne(SendThenWait, sent, b);
      AppendAssoc(t1, Steps(SendThenWait, sent), Step(SendThenWait, b));
      SendStep(SendThenWait, b);
    }

    /** The byte the slave transmitter sends in round `rounds`, and its index afterwards. */
    method SlaveNextByte(dataBytes: byte, data: seq<byte>, j: byte, ghost rounds: nat, ghost acked: nat)
      returns (b: byte, j': byte)
      requires rounds < acked && SlaveTxFits(|data|, dataBytes, acked)
      requires j == (if dataBytes > 1 then Index8(rounds) else 0)
      ensures b == (if dataBytes > 1 then data[rounds % 256] else data[0])
      ensures j' == (if dataBytes > 1 then Index8(rounds + 1) else 0)
    {
      if dataBytes > 1 {
        SlaveIndexFits(|data|, rounds, acked);
        b := data[j];
        j' := (j + 1) % 256;
      } else {
        b := data[0];
        j' := j;
      }
    }

    /** i2c_read: receive exactly one byte as master, with STOP requested before it arrives. */
    method Read() returns (b: byte)
      requires |incoming| > 0
      modifies this
      ensures b == old(incoming[0]) && incoming == old(incoming[1..])
      ensures trace == old(trace) + ReadOps(b)
      ensures regs == old(regs)
    {
      AckBit(false);
      trace := trace + [ClearAddr];
      Stop();
      trace := trace + [Await(Raised(RXNE))];
      ghost var t1 := trace;
      b := ReceiveStep(ReceiveOnly);
      AppendAssoc(old(trace), [Ack(false), ClearAddr, StopCond, Await(Raised(RXNE))], [Receive(b)]);
    }

    /**
     * i2c_read_burst. As master it reads `dataBytes` bytes into `data`; for
     * fewer than two bytes the source spins forever, which the model reports
     * as `hung` without changing anything. As slave it ignores `dataBytes`
     * and stores bytes until the master's STOP; `polls` gives how many bytes
     * each pass of the outer loop finds waiting.
     */
    method ReadBurst(mode: int, dataBytes: byte, data: array<byte>, polls: seq<nat>) returns (hung: bool)
      requires mode != Slave && dataBytes >= 2 ==> dataBytes <= data.Length && dataBytes <= |incoming|
      requires mode == Slave ==> Sum(polls) <= |incoming| && IndexFits(data.Length, Sum(polls))
      modifies this, data
      ensures hung <==> mode != Slave && dataBytes < 2
      ensures hung ==> trace == old(trace) && incoming == old(incoming) && data[..] == old(data[..])
      ensures mode != Slave && dataBytes >= 2 ==>
        data[..] == old(incoming[..dataBytes]) + old(data[dataBytes..]) &&
        incoming == old(incoming[dataBytes..]) &&
        trace == old(trace) + MasterReadOps(old(incoming[..dataBytes]))
      ensures mode == Slave ==>
        data[..] == SlaveStore(old(data[..]), old(incoming[..Sum(polls)])) &&
        incoming == old(incoming[Sum(polls)..]) &&
        trace == old(trace) + SlaveReadOps(old(incoming[..Sum(polls)]))
      ensures regs == old(regs)
    {
      hung := false;
      if mode != Slave {
        if dataBytes == 2 {
          ReadTwo(data);
        } else if dataBytes > 2 {
          ReadMany(dataBytes, data);
        } else {
          hung := true;
        }
      } else {
        SlaveReadBurst(data, polls);
      }
    }

    /** The master branch of i2c_read_burst for exactly two bytes. */
    method ReadTwo(data: array<byte>)
      requires 2 <= data.Length && 2 <= |incoming|
      modifies this, data
      ensures data[..] == old(incoming[..2]) + old(data[2..])
      ensures incoming == old(incoming[2..])
      ensures trace == old(trace) + MasterReadOps(old(incoming[..2]))
      ensures regs == old(regs)
    {
      ghost var in0 := incoming;
      trace := trace + [Pos];
      AckBit(true);
      trace := trace + [ClearAddr];
      AckBit(false);
      trace := trace + [Await(Raised(BTF))];
      Stop();
      var b := ReceiveStep(ReceiveOnly);
      data[0] := b;
      b := ReceiveStep(ReceiveOnly);
      data[1] := b;
      assert in0[..2] == [in0[0], in0[1]];
      assert in0[2..] == in0[1..][1..];
    }

    /** The master branch of i2c_read_burst for more than two bytes. */
    method ReadMany(dataBytes: byte, data: array<byte>)
      requires 2 < dataBytes <= data.Length && dataBytes <= |incoming|
      modifies this, data
      ensures data[..] == old(incoming[..dataBytes]) + old(data[dataBytes..])
      ensures incoming == old(incoming[dataBytes..])
      ensures trace == old(trace) + MasterReadOps(old(incoming[..dataBytes]))
      ensures regs == old(regs)
    {
      ghost var in0, d0, t0 := incoming, data[..], trace;
      AckBit(true);
      trace := trace + [ClearAddr];
      var j := ReceiveUntilThree(dataBytes, data, in0, d0);
      ReceiveThirdLast(data, in0, d0, j);
      ReceiveLastTwo(data, in0, d0, j + 1);
      MasterReadManyTrace(t0, in0, dataBytes);
    }

    /** The EV7 loop of the master burst read: every byte but the last three, each after RXNE. */
    method ReceiveUntilThree(dataBytes: byte, data: array<byte>, ghost in0: seq<byte>, ghost d0: seq<byte>)
      returns (j: nat)
      requires 2 < dataBytes <= data.Length && dataBytes <= |in0| && |d0| == data.Length
      requires data[..] == d0 && incoming == in0
      modifies this, data
      ensures j == dataBytes - 3
      ensures data[..] == in0[..j] + d0[j..] && incoming == in0[j..]
      ensures trace == old(trace) + Steps(WaitThenReceive, in0[..j])
      ensures regs == old(regs)
    {
      ghost var t1 := trace;
      j := 0;
      var i := dataBytes;
      while i != 3
        invariant 3 <= i <= dataBytes && j == dataBytes - i
        invariant data[..] == in0[..j] + d0[j..] && incoming == in0[j..]
        invariant trace == t1 + Steps(WaitThenReceive, in0[..j])
        invariant regs == old(regs)
        decreases i
      {
        StepsSnoc(WaitThenReceive, in0, j);
        DropNext(in0, j);
        AppendAssoc(t1, Steps(WaitThenReceive, in0[..j]), Step(WaitThenReceive, in0[j]));
        var b := ReceiveStep(WaitThenReceive);
        CopyNext(in0, d0, j);
        data[j] := b;
        j := j + 1;
        i := i - 1;
      }
    }

    /** EV7_2: wait for BTF, set NACK, and read the third-last byte. */
    method ReceiveThirdLast(data: array<byte>, ghost in0: seq<byte>, ghost d0: seq<byte>, j: nat)
      requires j < data.Length && j < |in0| && |d0| == data.Length
      requires data[..] == in0[..j] + d0[j..] && incoming == in0[j..]
      modifies this, data
      ensures data[..] == in0[..j + 1] + d0[j + 1..] && incoming == in0[j + 1..]
      ensures trace == old(trace) + ([Await(Raised(BTF)), Ack(false)] + [Receive(in0[j])])
      ensures regs == old(regs)
    {
      trace := trace + [Await(Raised(BTF))];
      AckBit(false);
      DropNext(in0, j);
      CopyNext(in0, d0, j);
      var b := ReceiveStep(ReceiveOnly);
      data[j] := b;
    }

    /** EV7_3: request STOP, wait for BTF, and read the last two bytes. */
    method ReceiveLastTwo(data: array<byte>, ghost in0: seq<byte>, ghost d0: seq<byte>, j0: nat)
      requires j0 + 1 < data.Length && j0 + 1 < |in0| && |d0| == data.Length
      requires data[..] == in0[..j0] + d0[j0..] && incoming == in0[j0..]
      modifies this, data
      ensures data[..] == in0[..j0 + 2] + d0[j0 + 2..] && incoming == in0[j0 + 2..]
      ensures trace == old(trace) + ([StopCond] + ([Await(Raised(BTF))] + [Receive(in0[j0])] + [Receive(in0[j0 + 1])]))
      ensures regs == old(regs)
    {
      var j := j0;
      Stop();
      trace := trace + [Await(Raised(BTF))];
      DropNext(in0, j);
      CopyNext(in0, d0, j);
      var b := ReceiveStep(ReceiveOnly);
      data[j] := b;
      j := j + 1;
      DropNext(in0, j);
      CopyNext(in0, d0, j);
      b := ReceiveStep(ReceiveOnly);
      data[j] := b;
    }

    /** The slave branch of i2c_read_burst; `j` is the uint8_t buffer index. */
    method SlaveReadBurst(data: array<byte>, polls: seq<nat>)
      requires Sum(polls) <= |incoming| && IndexFits(data.Length, Sum(polls))
      modifies this, data
      ensures data[..] == SlaveStore(old(data[..]), old(incoming[..Sum(polls)]))
      ensures incoming == old(incoming[Sum(polls)..])
      ensures trace == old(trace) + SlaveReadOps(old(incoming[..Sum(polls)]))
      ensures regs == old(regs)
    {
      ghost var in0 := incoming;
      ghost var d0 := data[..];
      AckBit(true);
      trace := trace + [Await(Raised(ADDR)), ClearAddr];
      ghost var t1 := trace;
      var j: byte := 0;
      ghost var got := 0;
      var p := 0;
      while p < |polls|
        invariant 0 <= p <= |polls| && got == Sum(polls[..p]) && got <= Sum(polls) && j == got % 256
        invariant data[..] == SlaveStore(d0, in0[..got]) && incoming == in0[got..]
        invariant trace == t1 + Steps(ReceiveOnly, in0[..got])
        invariant regs == old(regs)
      {
        SumPrefix(polls, p + 1);
        assert polls[..p + 1][..p] == polls[..p];
        j, got := DrainRx(data, polls[p], j, in0, d0, t1, got, Sum(polls));
        p := p + 1;
      }
      assert polls[..p] == polls;
      trace := trace + [ClearStopf];
    }

    /** The EV2 loop of the slave burst read: the `ready` bytes found with RXNE set in one pass. */
    method DrainRx(data: array<byte>, ready: nat, j0: byte, ghost in0: seq<byte>, ghost d0: seq<byte>,
                   ghost t1: seq<Op>, ghost got0: nat, ghost total: nat) returns (j: byte, ghost got: nat)
      requires got0 + ready <= total <= |in0| && |d0| == data.Length && IndexFits(data.Length, total)
      requires j0 == got0 % 256
      requires data[..] == SlaveStore(d0, in0[..got0]) && incoming == in0[got0..]
      requires trace == t1 + Steps(ReceiveOnly, in0[..got0])
      modifies this, data
      ensures got == got0 + ready && j == got % 256
      ensures data[..] == SlaveStore(d0, in0[..got]) && incoming == in0[got..]
      ensures trace == t1 + Steps(ReceiveOnly, in0[..got])
      ensures regs == old(regs)
    {
      j, got := j0, got0;
      var r := 0;
      while r < ready
        invariant 0 <= r <= ready && got == got0 + r && j == got % 256
        invariant data[..] == SlaveStore(d0, in0[..got]) && incoming == in0[got..]
        invariant trace == t1 + Steps(ReceiveOnly, in0[..got])
        invariant regs == old(regs)
      {
        StepsSnoc(ReceiveOnly, in0, got);
        DropNext(in0, got);
        AppendAssoc(t1, Steps(ReceiveOnly, in0[..got]), Step(ReceiveOnly, in0[got]));
        assert in0[..got + 1][..got] == in0[..got];
        IndexNext(got);
        SlaveStoreNext(d0, in0, got);
        var b := ReceiveStep(ReceiveOnly);
        data[j] := b;
        j := (j + 1) % 256;
        got := got + 1;
        r := r + 1;
      }
    }
  }
}
