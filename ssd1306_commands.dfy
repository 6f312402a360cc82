/**
 * The command bytes the driver sends after a 0x00 control byte
 * (Core/Src/ssd1306_oled.c), and a decoder for them that follows the
 * SSD1306 command table: how many parameter bytes each opcode takes and
 * what the opcode and its parameters mean.
 */
module Ssd1306Commands {
  import opened Bytes
  import opened Ssd1306Defs
  import opened Seqs

  /** A decoded SSD1306 command. */
  datatype Command =
    | AddressingMode(mode: byte)                    // 20h
    | ColumnRange(first: byte, last: byte)           // 21h
    | PageRange(first: byte, last: byte)             // 22h
    | HorizontalScroll(left: bool, startPage: byte, interval: byte, endPage: byte)                 // 26h / 27h
    | DiagonalScroll(left: bool, startPage: byte, interval: byte, endPage: byte, offset: byte)      // 29h / 2Ah
    | Scrolling(active: bool)                      // 2Eh / 2Fh
    | StartLine(line: byte)                         // 40h .. 7Fh
    | Contrast(level: byte)                         // 81h
    | SegmentRemap(remapped: bool)                 // A0h / A1h
    | VerticalScrollArea(fixedRows: byte, scrollRows: byte)  // A3h
    | EntireDisplayOn(ignoreRam: bool)             // A4h / A5h
    | Inverse(inverted: bool)                      // A6h / A7h
    | Power(on: bool)                              // AEh / AFh
    | ComScan(remapped: bool)                      // C0h / C8h
    | Setting(op: byte, arg: byte)                   // one-parameter timing and hardware settings
    | Unknown(op: byte)                             // an opcode outside the table: no parameters, no effect
    | Incomplete(op: byte)                          // an opcode whose parameters were cut off

  /** The one-parameter timing and hardware configuration opcodes. */
  predicate IsSettingOp(op: byte)
  {
    op == 0x8D || op == 0xA8 || op == 0xD3 || op == 0xD5 || op == 0xD9 || op == 0xDA || op == 0xDB
  }

  /** Number of parameter bytes that follow opcode `op`. */
  function ArgCount(op: byte): (n: nat)
    ensures n <= 6
  {
    if op == 0x20 || op == 0x81 || IsSettingOp(op) then 1
    else if op == 0x21 || op == 0x22 || op == 0xA3 then 2
    else if op == 0x26 || op == 0x27 then 6
    else if op == 0x29 || op == 0x2A then 5
    else 0
  }

  /** The meaning of opcode `op` with its parameter bytes. */
  function DecodeOne(op: byte, args: seq<byte>): Command
    requires |args| == ArgCount(op)
  {
    if op == 0x20 then AddressingMode(args[0])
    else if op == 0x21 then ColumnRange(args[0], args[1])
    else if op == 0x22 then PageRange(args[0], args[1])
    else if op == 0x26 || op == 0x27 then HorizontalScroll(op == 0x27, args[1], args[2], args[3])
    else if op == 0x29 || op == 0x2A then DiagonalScroll(op == 0x2A, args[1], args[2], args[3], args[4])
    else if op == 0x2E || op == 0x2F then Scrolling(op == 0x2F)
    else if 0x40 <= op <= 0x7F then StartLine(op - 0x40)
    else if op == 0x81 then Contrast(args[0])
    else if op == 0xA0 || op == 0xA1 then SegmentRemap(op == 0xA1)
    else if op == 0xA3 then VerticalScrollArea(args[0], args[1])
    else if op == 0xA4 || op == 0xA5 then EntireDisplayOn(op == 0xA5)
    else if op == 0xA6 || op == 0xA7 then Inverse(op == 0xA7)
    else if op == 0xAE || op == 0xAF then Power(op == 0xAF)
    else if op == 0xC0 || op == 0xC8 then ComScan(op == 0xC8)
    else if IsSettingOp(op) then Setting(op, args[0])
    else Unknown(op)
  }

  /** An opcode with the parameter bytes that followed it. */
  datatype Group = Group(op: byte, args: seq<byte>)

  /**
   * Splits a command byte stream into its commands, in order: each group
   * is an opcode and its parameters; only the last group can come up short.
   */
  function SplitCommands(bs: seq<byte>): seq<Group>
    decreases |bs|
  {
    if bs == [] then []
    else
      var n := ArgCount(bs[0]);
      if |bs| - 1 < n then [Group(bs[0], bs[1..])]
      else [Group(bs[0], bs[1..1 + n])] + SplitCommands(bs[1 + n..])
  }

  /** The bytes of a list of groups, one after the other. */
  function Flatten(gs: seq<Group>): seq<byte>
  {
    if gs == [] then [] else [gs[0].op] + gs[0].args + Flatten(gs[1..])
  }

  /** Splitting loses, adds and reorders nothing: the groups make up the stream. */
  lemma {:induction false} SplitFlatten(bs: seq<byte>)
    ensures Flatten(SplitCommands(bs)) == bs
    decreases |bs|
  {
    if bs != [] {
      var n := ArgCount(bs[0]);
      if |bs| - 1 >= n {
        var args, tail := bs[1..1 + n], bs[1 + n..];
        assert bs == [bs[0]] + args + tail;
        SplitFlatten(tail);
        FlattenFullHead(bs[0], args, tail);
      } else {
        FlattenShortHead(bs);
      }
    }
  }

  /** A whole first command followed by a stream that splits back into itself. */
  lemma FlattenFullHead(op: byte, args: seq<byte>, tail: seq<byte>)
    requires |args| == ArgCount(op) && Flatten(SplitCommands(tail)) == tail
    ensures Flatten(SplitCommands([op] + args + tail)) == [op] + args + tail
  {
    SplitFirst(op, args, tail);
    FlattenCons(Group(op, args), SplitCommands(tail));
  }

  /** A first command cut short is the whole stream. */
  lemma FlattenShortHead(bs: seq<byte>)
    requires bs != [] && |bs| - 1 < ArgCount(bs[0])
    ensures Flatten(SplitCommands(bs)) == bs
  {
    var g := Group(bs[0], bs[1..]);
    assert SplitCommands(bs) == [g] + [];
    FlattenCons(g, []);
    assert bs == [bs[0]] + bs[1..] + [];
  }

  /** The bytes of a group followed by more groups. */
  lemma FlattenCons(g: Group, gs: seq<Group>)
    ensures Flatten([g] + gs) == [g.op] + g.args + Flatten(gs)
  {
    assert ([g] + gs)[1..] == gs;
  }

  /** The meaning of one group: a whole command, or a command cut short. */
  function DecodeGroup(g: Group): Command
  {
    if |g.args| != ArgCount(g.op) then Incomplete(g.op) else DecodeOne(g.op, g.args)
  }

  /** The meanings of a list of groups, one by one. */
  function DecodeAll(gs: seq<Group>): (cs: seq<Command>)
    ensures |cs| == |gs|
    ensures forall i :: 0 <= i < |gs| ==> cs[i] == DecodeGroup(gs[i])
  {
    if gs == [] then [] else [DecodeGroup(gs[0])] + DecodeAll(gs[1..])
  }

  /** The commands of a command byte stream, in the order the panel runs them. */
  function ParseCommands(bs: seq<byte>): seq<Command>
  {
    DecodeAll(SplitCommands(bs))
  }

  /** A command stream that ends on a command boundary. */
  predicate Complete(bs: seq<byte>)
    decreases |bs|
  {
    bs == [] || (ArgCount(bs[0]) <= |bs| - 1 && Complete(bs[1 + ArgCount(bs[0])..]))
  }

  /** No command of `cs` was cut short. */
  predicate NoIncomplete(cs: seq<Command>)
  {
    forall i :: 0 <= i < |cs| ==> !cs[i].Incomplete?
  }

  lemma NoIncompleteCons(d: Command, cs: seq<Command>)
    ensures NoIncomplete([d] + cs) <==> !d.Incomplete? && NoIncomplete(cs)
  {
    var ds := [d] + cs;
    if !d.Incomplete? && NoIncomplete(cs) {
      forall i | 0 <= i < |ds| ensures !ds[i].Incomplete? {
        if i > 0 { assert ds[i] == cs[i - 1]; }
      }
    }
    if NoIncomplete(ds) {
      assert ds[0] == d;
      forall i | 0 <= i < |cs| ensures !cs[i].Incomplete? {
        assert ds[i + 1] == cs[i];
      }
    }
  }

  /**
   * A command stream ends on a command boundary exactly when none of its
   * commands is cut short.
   */
  lemma {:induction false} CompleteHasNoIncomplete(bs: seq<byte>)
    ensures Complete(bs) <==> NoIncomplete(ParseCommands(bs))
    decreases |bs|
  {
    if bs != [] {
      var op, n := bs[0], ArgCount(bs[0]);
      if |bs| - 1 >= n {
        var args, rest := bs[1..1 + n], bs[1 + n..];
        CompleteHasNoIncomplete(rest);
        assert bs == [op] + args + rest;
        ParseFirst(op, args, rest);
        DecodeOneWhole(op, args);
        NoIncompleteCons(DecodeOne(op, args), ParseCommands(rest));
      } else {
        ShortStreamIncomplete(bs);
      }
    }
  }

  /** A whole command is never reported as cut short. */
  lemma DecodeOneWhole(op: byte, args: seq<byte>)
    requires |args| == ArgCount(op)
    ensures !DecodeOne(op, args).Incomplete?
  {
  }

  /** A stream too short for its first opcode's parameters is one command cut short. */
  lemma ShortStreamIncomplete(bs: seq<byte>)
    requires bs != [] && |bs| - 1 < ArgCount(bs[0])
    ensures ParseCommands(bs) == [Incomplete(bs[0])]
    ensures !Complete(bs)
  {
    assert SplitCommands(bs) == [Group(bs[0], bs[1..])];
  }


  lemma {:induction false} DecodeAllAppend(gs: seq<Group>, hs: seq<Group>)
    ensures DecodeAll(gs + hs) == DecodeAll(gs) + DecodeAll(hs)
    decreases |gs|
  {
    if gs == [] {
      assert gs + hs == hs;
    } else {
      assert (gs + hs)[0] == gs[0] && (gs + hs)[1..] == gs[1..] + hs;
      DecodeAllAppend(gs[1..], hs);
    }
  }

  /** Splitting a stream of whole commands followed by more bytes splits each part on its own. */
  lemma {:induction false} SplitAppend(a: seq<byte>, b: seq<byte>)
    requires Complete(a)
    ensures SplitCommands(a + b) == SplitCommands(a) + SplitCommands(b)
    decreases |a|
  {
    if a == [] {
      assert a + b == b;
    } else {
      var n := ArgCount(a[0]);
      var args, rest := a[1..1 + n], a[1 + n..];
      assert a == [a[0]] + args + rest;
      SplitAppend(rest, b);
      SplitAppendStep(a[0], args, rest, b);
    }
  }

  /** One leading command in front of streams whose split already distributes over appending. */
  lemma SplitAppendStep(op: byte, args: seq<byte>, rest: seq<byte>, b: seq<byte>)
    requires |args| == ArgCount(op)
    requires SplitCommands(rest + b) == SplitCommands(rest) + SplitCommands(b)
    ensures SplitCommands([op] + args + rest + b) == SplitCommands([op] + args + rest) + SplitCommands(b)
  {
    var head := [op] + args;
    AppendAssoc(head, rest, b);
    SplitFirst(op, args, rest);
    SplitFirst(op, args, rest + b);
    AppendAssoc([Group(op, args)], SplitCommands(rest), SplitCommands(b));
  }

  /** Two streams that end on a command boundary make one that does. */
  lemma {:induction false} CompleteAppend(a: seq<byte>, b: seq<byte>)
    requires Complete(a) && Complete(b)
    ensures Complete(a + b)
    decreases |a|
  {
    if a != [] {
      var n := ArgCount(a[0]);
      assert (a + b)[0] == a[0] && (a + b)[1 + n..] == a[1 + n..] + b;
      CompleteAppend(a[1 + n..], b);
    } else {
      assert a + b == b;
    }
  }

  /**
   * Decoding is compositional over a stream that ends on a command
   * boundary: what follows it is decoded as if sent on its own.
   */
  lemma ParseCommandsAppend(a: seq<byte>, b: seq<byte>)
    requires Complete(a)
    ensures ParseCommands(a + b) == ParseCommands(a) + ParseCommands(b)
  {
    SplitAppend(a, b);
    DecodeAllAppend(SplitCommands(a), SplitCommands(b));
  }

  /** An opcode with all its parameters splits off as the first group. */
  lemma SplitFirst(op: byte, args: seq<byte>, rest: seq<byte>)
    requires |args| == ArgCount(op)
    ensures SplitCommands([op] + args + rest) == [Group(op, args)] + SplitCommands(rest)
  {
    var bs := [op] + args + rest;
    assert bs[0] == op;
    assert bs[1..1 + |args|] == args;
    assert bs[1 + |args|..] == rest;
  }

  /** A command stream with one leading command and its parameters. */
  lemma ParseFirst(op: byte, args: seq<byte>, rest: seq<byte>)
    requires |args| == ArgCount(op)
    ensures SplitCommands([op] + args + rest) == [Group(op, args)] + SplitCommands(rest)
    ensures ParseCommands([op] + args + rest) == [DecodeOne(op, args)] + ParseCommands(rest)
    ensures Complete([op] + args + rest) <==> Complete(rest)
  {
    var bs := [op] + args + rest;
    assert bs[0] == op;
    assert bs[1..1 + |args|] == args;
    assert bs[1 + |args|..] == rest;
    assert SplitCommands(bs) == [Group(op, args)] + SplitCommands(rest);
  }

  /** A group that carries all the parameters its opcode takes. */
  predicate Full(g: Group)
  {
    |g.args| == ArgCount(g.op)
  }

  /** Every group of `gs` carries all its parameters. */
  predicate AllFull(gs: seq<Group>)
  {
    forall i :: 0 <= i < |gs| ==> Full(gs[i])
  }

  lemma FlattenStep(gs: seq<Group>, rest: seq<byte>)
    requires gs != []
    ensures Flatten(gs) + rest == [gs[0].op] + gs[0].args + (Flatten(gs[1..]) + rest)
  {
  }

  /**
   * Whole commands written one after the other are split back into exactly
   * those commands, whatever follows them.
   */
  lemma {:induction false} SplitFlattenFull(gs: seq<Group>, rest: seq<byte>)
    requires AllFull(gs)
    ensures SplitCommands(Flatten(gs) + rest) == gs + SplitCommands(rest)
    ensures Complete(Flatten(gs) + rest) <==> Complete(rest)
    decreases |gs|
  {
    if gs == [] {
      assert Flatten(gs) + rest == rest;
    } else {
      var g := gs[0];
      assert Full(g);
      SplitFlattenFull(gs[1..], rest);
      var tail := Flatten(gs[1..]) + rest;
      FlattenStep(gs, rest);
      ParseFirst(g.op, g.args, tail);
      calc {
        SplitCommands(Flatten(gs) + rest);
        [g] + SplitCommands(tail);
        [g] + (gs[1..] + SplitCommands(rest));
        ([g] + gs[1..]) + SplitCommands(rest);
        { assert [g] + gs[1..] == gs; }
        gs + SplitCommands(rest);
      }
    }
  }

  /** Whole commands written one after the other decode to their meanings, in order. */
  lemma ParseFlatten(gs: seq<Group>, rest: seq<byte>)
    requires AllFull(gs)
    ensures ParseCommands(Flatten(gs) + rest) == DecodeAll(gs) + ParseCommands(rest)
    ensures Complete(Flatten(gs) + rest) <==> Complete(rest)
  {
    SplitFlattenFull(gs, rest);
    DecodeAllAppend(gs, SplitCommands(rest));
  }

  // ---------------------------------------------------------------------
  // Command payloads built by the driver (the bytes after CMD_CTRL_BYTE)
  // ---------------------------------------------------------------------

  /** ssd1306_cmd_single: one opcode. */
  function CmdSingle(cmd: byte): seq<byte>
  {
    [cmd]
  }

  /** ssd1306_cmd_double: an opcode and one parameter. */
  function CmdDouble(cmd: byte, val: byte): seq<byte>
  {
    [cmd, val]
  }

  /** displayMoveCursor: column window col..127, page window row..7. */
  function MoveCursorPayload(col: byte, row: PageNum): seq<byte>
  {
    [0x21, col, 0x7F, 0x22, row, 0x07]
  }

  function ContrastPayload(val: byte): seq<byte>
  {
    CmdDouble(0x81, val)
  }

  function InvertPayload(state: bool): seq<byte>
  {
    if state then CmdSingle(0xA7) else CmdSingle(0xA6)
  }

  function OnPayload(state: bool): seq<byte>
  {
    if state then CmdSingle(0xAF) else CmdSingle(0xAE)
  }

  function ScrollStatePayload(state: bool): seq<byte>
  {
    if state then CmdSingle(0x2F) else CmdSingle(0x2E)
  }

  function AddrModePayload(mode: AddrMode): seq<byte>
  {
    CmdDouble(0x20, mode)
  }

  /** displayFlip: segment remap for a nonzero orientation, COM scan direction otherwise. */
  function FlipPayload(orientation: Orientation, state: bool): seq<byte>
  {
    if orientation != 0 then
      (if state then CmdSingle(0xA0) else CmdSingle(0xA1))
    else
      (if state then CmdSingle(0xC0) else CmdSingle(0xC8))
  }

  /** displayScrollHorizontal: 26h|dir, dummy 00h, start page, interval, end page, dummies 00h FFh. */
  function ScrollHorizontalPayload(dir: ScrollDir, freq: FrameFreq, pageStart: PageNum, pageEnd: PageNum): seq<byte>
  {
    [ByteOr(0x26, dir), 0x00, pageStart, freq.Value(), pageEnd, 0x00, 0xFF]
  }

  /** displayScrollDiagonal: 28h|dir, dummy 00h, start page, interval, end page, vertical offset. */
  function ScrollDiagonalPayload(dir: ScrollDir, freq: FrameFreq, pageStart: PageNum, pageEnd: PageNum, offset: byte): seq<byte>
  {
    [ByteOr(0x28, dir), 0x00, pageStart, freq.Value(), pageEnd, offset]
  }

  /** displaySetVerticalScrollArea: A3h, fixed rows, 64 - fixed scrolled rows (8-bit). */
  function VerticalScrollAreaPayload(fixed: byte): seq<byte>
  {
    [0xA3, fixed, ToByte(64 - fixed)]
  }

  /** The vertical offset displayScrollVertical picks: one row up, or 63 rows (one down). */
  function VerticalOffset(dir: ScrollDir): byte
  {
    if dir != 0 then 0x01 else 0x3F
  }

  /** The rows displayScrollVertical freezes: pages 0..freeze. */
  function FrozenRows(freeze: PageNum): byte
  {
    8 * (freeze + 1)
  }

  /**
   * The command list of ssd1306_init, in the order it is sent in its one
   * command transaction: each opcode with its parameter, if any.
   */
  const InitGroups: seq<Group> :=
    InitOffTiming + InitDriving + InitStartRemap +
    InitComLayout + InitLevels + InitResume

  /** Display off; clock divide ratio and oscillator; pre-charge period. */
  const InitOffTiming: seq<Group> :=
    [Group(0xAE, []), Group(0xD5, [0xF0]), Group(0xD9, [0xF1])]

  /** VCOMH deselect level; charge pump on; horizontal addressing. */
  const InitDriving: seq<Group> :=
    [Group(0xDB, [0x20]), Group(0x8D, [0x14]), Group(0x20, [0x00])]

  /** Start line 0; segment remap; multiplex ratio 64. */
  const InitStartRemap: seq<Group> :=
    [Group(0x40, []), Group(0xA1, []), Group(0xA8, [0x3F])]

  /** COM scan remapped; no display offset; COM pins configuration. */
  const InitComLayout: seq<Group> :=
    [Group(0xC8, []), Group(0xD3, [0x00]), Group(0xDA, [0x12])]

  /** Contrast 80h; display follows RAM; normal (not inverted) mode. */
  const InitLevels: seq<Group> :=
    [Group(0x81, [0x80]), Group(0xA4, []), Group(0xA6, [])]

  /** Scrolling off; display on. */
  const InitResume: seq<Group> :=
    [Group(0x2E, []), Group(0xAF, [])]

  /** The bytes ssd1306_init writes after the command control byte. */
  function InitPayload(): seq<byte>
  {
    Flatten(InitGroups)
  }

  /** Flattening distributes over concatenation of group lists. */
  lemma {:induction false} FlattenAppend(gs: seq<Group>, hs: seq<Group>)
    ensures Flatten(gs + hs) == Flatten(gs) + Flatten(hs)
    decreases |gs|
  {
    if gs == [] {
      assert gs + hs == hs;
    } else {
      FlattenAppend(gs[1..], hs);
      assert (gs + hs)[1..] == gs[1..] + hs;
    }
  }

  /** The commands ssd1306_init means, as the SSD1306 decodes them. */
  const InitCommands: seq<Command> :=
    [Power(false), Setting(0xD5, 0xF0), Setting(0xD9, 0xF1)] +
    [Setting(0xDB, 0x20), Setting(0x8D, 0x14), AddressingMode(HorizontalMode)] +
    [StartLine(0), SegmentRemap(true), Setting(0xA8, 0x3F)] +
    [ComScan(true), Setting(0xD3, 0x00), Setting(0xDA, 0x12)] +
    [Contrast(0x80), EntireDisplayOn(false), Inverse(false)] +
    [Scrolling(false), Power(true)]

  // ---------------------------------------------------------------------
  // What each payload decodes to
  // ---------------------------------------------------------------------

  /** displayMoveCursor sets the column and page windows, and nothing else. */
  lemma MoveCursorDecodes(col: byte, row: PageNum)
    ensures Complete(MoveCursorPayload(col, row))
    ensures ParseCommands(MoveCursorPayload(col, row)) == [ColumnRange(col, 0x7F), PageRange(row, 0x07)]
  {
    var r: byte := row;
    var tail: seq<byte> := [0x22, r, 0x07];
    assert MoveCursorPayload(col, row) == [0x21] + [col, 0x7F] + tail;
    ParseFirst(0x21, [col, 0x7F], tail);
    PageWindowDecodes(r);
  }

  /** The page half of displayMoveCursor: page window first..7. */
  lemma PageWindowDecodes(first: byte)
    ensures Complete([0x22, first, 0x07])
    ensures ParseCommands([0x22, first, 0x07]) == [PageRange(first, 0x07)]
  {
    assert [0x22, first, 0x07] == [0x22] + [first, 0x07] + [];
    ParseFirst(0x22, [first, 0x07], []);
  }


  /** A single-byte command whose opcode takes no parameter decodes to itself. */
  lemma SingleDecodes(cmd: byte)
    requires ArgCount(cmd) == 0
    ensures Complete(CmdSingle(cmd))
    ensures ParseCommands(CmdSingle(cmd)) == [DecodeOne(cmd, [])]
  {
    ParseFirst(cmd, [], []);
    assert CmdSingle(cmd)[1..] == [];
  }

  /** A two-byte command whose opcode takes one parameter decodes to itself. */
  lemma DoubleDecodes(cmd: byte, val: byte)
    requires ArgCount(cmd) == 1
    ensures Complete(CmdDouble(cmd, val))
    ensures ParseCommands(CmdDouble(cmd, val)) == [DecodeOne(cmd, [val])]
  {
    ParseFirst(cmd, [val], []);
    assert CmdDouble(cmd, val)[2..] == [];
  }

  /** displayContrast sets the contrast level to `val`. */
  lemma ContrastDecodes(val: byte)
    ensures ParseCommands(ContrastPayload(val)) == [Contrast(val)]
  {
    DoubleDecodes(0x81, val);
  }

  /** displayInvert inverts the panel exactly when `state` holds. */
  lemma InvertDecodes(state: bool)
    ensures ParseCommands(InvertPayload(state)) == [Inverse(state)]
  {
    if state { SingleDecodes(0xA7); } else { SingleDecodes(0xA6); }
  }

  /** displayOn switches the panel on exactly when `state` holds. */
  lemma OnDecodes(state: bool)
    ensures ParseCommands(OnPayload(state)) == [Power(state)]
  {
    if state { SingleDecodes(0xAF); } else { SingleDecodes(0xAE); }
  }

  /** displayScrollState starts scrolling exactly when `state` holds. */
  lemma ScrollStateDecodes(state: bool)
    ensures ParseCommands(ScrollStatePayload(state)) == [Scrolling(state)]
  {
    if state { SingleDecodes(0x2F); } else { SingleDecodes(0x2E); }
  }

  /** displayAddrMode selects addressing mode `mode`. */
  lemma AddrModeDecodes(mode: AddrMode)
    ensures ParseCommands(AddrModePayload(mode)) == [AddressingMode(mode)]
  {
    DoubleDecodes(0x20, mode);
  }

  /**
   * displayFlip mirrors the columns for a nonzero orientation and the rows
   * otherwise; `state` selects the unmirrored direction.
   */
  lemma FlipDecodes(orientation: Orientation, state: bool)
    ensures orientation != 0 ==> ParseCommands(FlipPayload(orientation, state)) == [SegmentRemap(!state)]
    ensures orientation == 0 ==> ParseCommands(FlipPayload(orientation, state)) == [ComScan(!state)]
  {
    if orientation != 0 {
      SegmentRemapDecodes(state);
    } else {
      ComScanDecodes(state);
    }
  }

  lemma SegmentRemapDecodes(state: bool)
    ensures ParseCommands(if state then CmdSingle(0xA0) else CmdSingle(0xA1)) == [SegmentRemap(!state)]
  {
    if state { SingleDecodes(0xA0); } else { SingleDecodes(0xA1); }
  }

  lemma ComScanDecodes(state: bool)
    ensures ParseCommands(if state then CmdSingle(0xC0) else CmdSingle(0xC8)) == [ComScan(!state)]
  {
    if state { SingleDecodes(0xC0); } else { SingleDecodes(0xC8); }
  }


  /**
   * displayScrollHorizontal always sets up a horizontal scroll over pages
   * pageStart..pageEnd at the chosen interval; it scrolls left exactly
   * when dir is LEFT (VLEFT = 2 is absorbed by 26h's own bit 1).
   */
  lemma ScrollHorizontalDecodes(dir: ScrollDir, freq: FrameFreq, pageStart: PageNum, pageEnd: PageNum)
    ensures ByteOr(0x26, dir) == 0x26 || ByteOr(0x26, dir) == 0x27
    ensures ParseCommands(ScrollHorizontalPayload(dir, freq, pageStart, pageEnd))
      == [HorizontalScroll(dir == Left, pageStart, freq.Value(), pageEnd)]
  {
    assert ByteOr(0x26, 0) == 0x26 && ByteOr(0x26, 1) == 0x27 && ByteOr(0x26, 2) == 0x26;
    HorizontalSetUpDecodes(ByteOr(0x26, dir), pageStart, freq.Value(), pageEnd);
  }

  /** A 26h or 27h set-up with its six parameters decodes to one horizontal scroll set-up. */
  lemma HorizontalSetUpDecodes(op: byte, pageStart: byte, interval: byte, pageEnd: byte)
    requires op == 0x26 || op == 0x27
    ensures ParseCommands([op, 0x00, pageStart, interval, pageEnd, 0x00, 0xFF])
      == [HorizontalScroll(op == 0x27, pageStart, interval, pageEnd)]
  {
    var args := [0x00, pageStart, interval, pageEnd, 0x00, 0xFF];
    assert [op, 0x00, pageStart, interval, pageEnd, 0x00, 0xFF] == [op] + args + [];
    ParseFirst(op, args, []);
  }


  /**
   * displayScrollDiagonal sets up a vertical-and-horizontal scroll for the
   * directions VRIGHT and VLEFT; for direction 0 its opcode is 28h, which
   * is not a scroll set-up command, and the panel sets up no scroll at all.
   */
  lemma ScrollDiagonalDecodes(dir: ScrollDir, freq: FrameFreq, pageStart: PageNum, pageEnd: PageNum, offset: byte)
    ensures dir != 0 ==>
      ParseCommands(ScrollDiagonalPayload(dir, freq, pageStart, pageEnd, offset))
        == [DiagonalScroll(dir == VLeft, pageStart, freq.Value(), pageEnd, offset)]
    ensures dir == 0 ==>
      ParseCommands(ScrollDiagonalPayload(dir, freq, pageStart, pageEnd, offset))[0] == Unknown(0x28)
    ensures dir == 0 ==>
      forall c :: c in ParseCommands(ScrollDiagonalPayload(dir, freq, pageStart, pageEnd, offset)) ==>
        !c.DiagonalScroll? && !c.HorizontalScroll?
  {
    var p := ScrollDiagonalPayload(dir, freq, pageStart, pageEnd, offset);
    assert ByteOr(0x28, 0) == 0x28 && ByteOr(0x28, 1) == 0x29 && ByteOr(0x28, 2) == 0x2A;
    if dir != 0 {
      DiagonalSetUpDecodes(ByteOr(0x28, dir), pageStart, freq.Value(), pageEnd, offset);
    } else {
      Opcode28NoScroll(pageStart, freq.Value(), pageEnd, offset);
      assert p == [0x28] + p[1..];
      Opcode28First(p[1..]);
    }
  }

  /** A 29h or 2Ah set-up with its five parameters decodes to one diagonal scroll set-up. */
  lemma DiagonalSetUpDecodes(op: byte, pageStart: byte, interval: byte, pageEnd: byte, offset: byte)
    requires op == 0x29 || op == 0x2A
    ensures ParseCommands([op, 0x00, pageStart, interval, pageEnd, offset])
      == [DiagonalScroll(op == 0x2A, pageStart, interval, pageEnd, offset)]
  {
    var args := [0x00, pageStart, interval, pageEnd, offset];
    assert [op, 0x00, pageStart, interval, pageEnd, offset] == [op] + args + [];
    ParseFirst(op, args, []);
  }

  /** 28h and the five bytes after it set up no scroll. */
  lemma Opcode28NoScroll(pageStart: PageNum, interval: byte, pageEnd: PageNum, offset: byte)
    requires interval <= 7
    ensures forall c :: c in ParseCommands([0x28, 0x00, pageStart, interval, pageEnd, offset]) ==>
      !c.DiagonalScroll? && !c.HorizontalScroll?
  {
    var small := [0x28, 0x00, pageStart, interval, pageEnd];
    assert [0x28, 0x00, pageStart, interval, pageEnd, offset] == small + [offset];
    SmallBytesThenOne(small, offset);
  }

  /** 28h takes no parameters and is not in the command table: it decodes on its own. */
  lemma Opcode28First(rest: seq<byte>)
    ensures ParseCommands([0x28] + rest)[0] == Unknown(0x28)
  {
    assert [0x28] + rest == [0x28] + [] + rest;
    SplitFirst(0x28, [], rest);
  }


  /** A lone byte never decodes to a scroll set-up: those opcodes take parameters. */
  lemma LoneByteNoScroll(b: byte)
    ensures forall c :: c in ParseCommands([b]) ==> !c.DiagonalScroll? && !c.HorizontalScroll?
  {
    if ArgCount(b) == 0 {
      assert [b] == [b] + [] + [];
      ParseFirst(b, [], []);
    } else {
      assert [b][1..] == [];
      assert SplitCommands([b]) == [Group(b, [])];
    }
  }

  /**
   * Bytes below 20h take no parameters and set up nothing, so a stream of
   * them followed by any one byte never sets up a scroll.
   */
  lemma {:induction false} SmallBytesThenOne(bs: seq<byte>, b: byte)
    requires forall i :: 0 <= i < |bs| ==> bs[i] < 0x20 || bs[i] == 0x28
    ensures forall c :: c in ParseCommands(bs + [b]) ==> !c.DiagonalScroll? && !c.HorizontalScroll?
    decreases |bs|
  {
    if bs == [] {
      assert bs + [b] == [b];
      LoneByteNoScroll(b);
    } else {
      var op, tail := bs[0], bs[1..] + [b];
      SmallBytesThenOne(bs[1..], b);
      assert bs + [b] == [op] + [] + tail;
      ParseFirst(op, [], tail);
      SmallOpNoScroll(op);
      NoScrollCons(DecodeOne(op, []), ParseCommands(tail));
    }
  }

  /** A byte below 20h, or 28h, is a whole command on its own that sets up no scroll. */
  lemma SmallOpNoScroll(op: byte)
    requires op < 0x20 || op == 0x28
    ensures ArgCount(op) == 0
    ensures !DecodeOne(op, []).DiagonalScroll? && !DecodeOne(op, []).HorizontalScroll?
  {
  }

  /** A command that sets up no scroll in front of commands that set up none. */
  lemma NoScrollCons(c: Command, cs: seq<Command>)
    requires !c.DiagonalScroll? && !c.HorizontalScroll?
    requires forall d :: d in cs ==> !d.DiagonalScroll? && !d.HorizontalScroll?
    ensures forall d :: d in [c] + cs ==> !d.DiagonalScroll? && !d.HorizontalScroll?
  {
  }

  /** displaySetVerticalScrollArea: `fixed` top rows stay, the other 64 - fixed rows scroll. */
  lemma VerticalScrollAreaDecodes(fixed: byte)
    ensures ParseCommands(VerticalScrollAreaPayload(fixed)) == [VerticalScrollArea(fixed, ToByte(64 - fixed))]
    ensures fixed <= 64 ==> fixed + ToByte(64 - fixed) == Height
    ensures fixed > 64 ==> fixed + ToByte(64 - fixed) == Height + 256
  {
    ParseFirst(0xA3, [fixed, ToByte(64 - fixed)], []);
    assert VerticalScrollAreaPayload(fixed) == [0xA3] + [fixed, ToByte(64 - fixed)] + [];
  }

  /**
   * displayScrollVertical freezes whole pages 0..freeze: 8 to 64 rows, and
   * the scrolled part is the rest of the 64 rows.
   */
  lemma FrozenRowsRange(freeze: PageNum)
    ensures 8 <= FrozenRows(freeze) <= 64
  {
  }

  lemma AllFullAppend(gs: seq<Group>, hs: seq<Group>)
    requires AllFull(gs) && AllFull(hs)
    ensures AllFull(gs + hs)
  {
    forall i | 0 <= i < |gs + hs| ensures Full((gs + hs)[i]) {
      if i < |gs| { assert (gs + hs)[i] == gs[i]; } else { assert (gs + hs)[i] == hs[i - |gs|]; }
    }
  }

  lemma InitOffTimingFull()
    ensures AllFull(InitOffTiming)
  {
  }

  lemma InitOffTimingDecodes()
    ensures DecodeAll(InitOffTiming) == [Power(false), Setting(0xD5, 0xF0), Setting(0xD9, 0xF1)]
  {
  }

  lemma InitDrivingFull()
    ensures AllFull(InitDriving)
  {
  }

  lemma InitDrivingDecodes()
    ensures DecodeAll(InitDriving) == [Setting(0xDB, 0x20), Setting(0x8D, 0x14), AddressingMode(HorizontalMode)]
  {
  }

  lemma InitStartRemapFull()
    ensures AllFull(InitStartRemap)
  {
  }

  lemma InitStartRemapDecodes()
    ensures DecodeAll(InitStartRemap) == [StartLine(0), SegmentRemap(true), Setting(0xA8, 0x3F)]
  {
  }

  lemma InitComLayoutFull()
    ensures AllFull(InitComLayout)
  {
  }

  lemma InitComLayoutDecodes()
    ensures DecodeAll(InitComLayout) == [ComScan(true), Setting(0xD3, 0x00), Setting(0xDA, 0x12)]
  {
  }

  lemma InitLevelsFull()
    ensures AllFull(InitLevels)
  {
  }

  lemma InitLevelsDecodes()
    ensures DecodeAll(InitLevels) == [Contrast(0x80), EntireDisplayOn(false), Inverse(false)]
  {
  }

  lemma InitResumeFull()
    ensures AllFull(InitResume)
  {
  }

  lemma InitResumeDecodes()
    ensures DecodeAll(InitResume) == [Scrolling(false), Power(true)]
  {
  }

  /** ssd1306_init sends exactly the configuration InitCommands, and nothing is cut short. */
  lemma InitDecodes()
    ensures Complete(InitPayload())
    ensures ParseCommands(InitPayload()) == InitCommands
  {
    InitOffTimingDecodes();
    InitOffTimingFull();
    InitDrivingDecodes();
    InitDrivingFull();
    InitStartRemapDecodes();
    InitStartRemapFull();
    InitComLayoutDecodes();
    InitComLayoutFull();
    InitLevelsDecodes();
    InitLevelsFull();
    InitResumeDecodes();
    InitResumeFull();
    AllFullAppend(InitOffTiming, InitDriving);
    DecodeAllAppend(InitOffTiming, InitDriving);
    AllFullAppend(InitOffTiming + InitDriving, InitStartRemap);
    DecodeAllAppend(InitOffTiming + InitDriving, InitStartRemap);
    AllFullAppend(InitOffTiming + InitDriving + InitStartRemap, InitComLayout);
    DecodeAllAppend(InitOffTiming + InitDriving + InitStartRemap, InitComLayout);
    AllFullAppend(InitOffTiming + InitDriving + InitStartRemap + InitComLayout, InitLevels);
    DecodeAllAppend(InitOffTiming + InitDriving + InitStartRemap + InitComLayout, InitLevels);
    AllFullAppend(InitOffTiming + InitDriving + InitStartRemap + InitComLayout + InitLevels, InitResume);
    DecodeAllAppend(InitOffTiming + InitDriving + InitStartRemap + InitComLayout + InitLevels, InitResume);
    ParseFlatten(InitGroups, []);
    assert InitPayload() + [] == InitPayload();
    calc {
      ParseCommands(InitPayload());
      DecodeAll(InitGroups) + ParseCommands([]);
      DecodeAll(InitGroups);
      DecodeAll(InitOffTiming) + DecodeAll(InitDriving) + DecodeAll(InitStartRemap) + DecodeAll(InitComLayout) + DecodeAll(InitLevels) + DecodeAll(InitResume);
      InitCommands;
    }
  }
}
