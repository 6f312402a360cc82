# SSD1306 OLED driver over the STM32F103 I2C peripheral

This project models two parts of the repository:

- The SSD1306 128x64 monochrome OLED driver. It keeps a 1024-byte copy of the panel's GDDRAM (one byte per column of each 8-row page). It draws pixels, Bresenham lines, axis-parallel lines, midpoint circles, text and bitmaps. It sends every change to the panel as I2C command or data transactions.
- The STM32F103 I2C peripheral driver the OLED driver uses. `i2c_init` computes the CR1, OAR1, OAR2, CR2 (FREQ), CCR and TRISE values. The transfer primitives step the peripheral through its start, address, transmit and receive events.

How the model is built:

- Bytes are the subset type `Bytes.byte` (0..255). Bitwise OR, AND and NOT are defined digit by digit, with lemmas that relate each bit of the result to the bits of the operands.
- The display driver is the class `Ssd1306Oled.Oled`. `ram` is the 1024-byte buffer (an `array`). `pRam` is the offset of the driver's `p_ram` pointer from the start of that buffer. `bus` is the append-only trace of I2C events the driver emits: start, address, data byte written, stop.
  - Each drawing method is proved against a specification function of the old buffer. Examples: `SetPixel`, `PlotAll` over `Raster.LinePoints` or `Raster.CirclePoints`.
  - Each drawing method is also proved against the exact bus traffic it emits (`PixelTraffic`, `PlotTraffic`, `CommandFrame`, `DataStream`).
- The command bytes the driver sends are decoded by `Ssd1306Commands.ParseCommands`, an independent reading of the SSD1306 command set. Lemmas prove that each driver command decodes to the intended display command, and that the initialisation sequence decodes to its documented list of settings.
- `Raster` holds the geometry as pure functions, with lemmas about them:
  - the Bresenham walk, including its end points, bounding box, 8-neighbour steps and staying on screen;
  - the circle octants with their edge guards;
  - the line end points.
- `I2cConfig` holds the register arithmetic of `i2c_structInit` and `i2c_init` as pure functions.
- `I2cDriver.I2cPeriph` is a class with the peripheral's registers, the trace of register accesses (`Op`) and the stream of bytes the bus delivers (`incoming`).
  - Each busy-wait on a status flag is one `Await` step.
  - The burst methods keep the source's loops. They are proved to send or receive exactly the given bytes, in order, with the STOP request placed where the reference manual's EV7_2/EV7_3 sequence needs it.

The doc comment of `i2c_structInit` gives own addresses 0xC8 and 0xD8, but its code sets 0x7C and 0x7A. The model follows the code.

## Model

| member | source | states |
|---|---|---|
| Ssd1306Defs.FrameFreqValueInjective | Core/Inc/ssd1306_oled.h:91-101 | the eight frame-frequency settings have distinct 3-bit codes, and `FrameFreqOf` recovers each setting from its code |
| Ssd1306Defs.SlaveAddressBytes | Core/Inc/ssd1306_oled.h:60-62 | the write address byte is 0x78 and the read byte is 0x79; they differ only in the R/W bit 0 |
| Ssd1306Defs.BufferGeometry | Core/Inc/ssd1306_oled.h:56-57 | the 1024-byte buffer holds exactly 128x64 pixels, as 8 pages of 128 columns; the command and data control bytes differ |
| Bytes.TestBitOr | Core/Src/ssd1306_oled.c:101 | bit k of `a \| b` is set iff bit k is set in `a` or in `b` |
| Bytes.TestBitAnd | Core/Src/i2c.c:146 | bit k of `a & b` is set iff it is set in both |
| Bytes.TestBitNot | Core/Src/i2c.c:146 | bit k of the byte complement `~a` is set iff it is clear in `a` |
| Bytes.OrBound | Core/Src/i2c.c:148-152 | OR of two values below 2^n stays below 2^n |
| Bytes.AndBound | Core/Src/i2c.c:146 | AND never exceeds its left operand |
| Bytes.ByteOps | Core/Src/ssd1306_oled.c:101 | OR and AND of two bytes are bytes |
| Bytes.OrTwice | Core/Src/ssd1306_oled.c:101 | OR-ing the same mask twice is the same as once |
| Bytes.ClearAfterSet | Core/Src/ssd1306_oled.c:101 | clearing a bit with `& ~mask` after setting it with `\| mask` restores a byte whose bit was clear |
| Framebuffer.PixelIndexInRange | Core/Src/ssd1306_oled.c:96 | the byte offset `x + 128*(y/8)` of an on-screen pixel is inside the buffer, in column x of page y/8 |
| Framebuffer.ByteCursorRoundTrip | Core/Src/ssd1306_oled.c:96 | every buffer offset splits into a column below 128 and a page below 8 that give the offset back |
| Framebuffer.PixelAddressInjective | Core/Src/ssd1306_oled.c:96-101 | two pixels with the same byte offset and the same bit are the same pixel |
| Framebuffer.SetPixelEffect | Core/Src/ssd1306_oled.c:93-103 | after drawing, the pixel is lit; every other pixel and every other byte is unchanged |
| Framebuffer.OtherPixel | Core/Src/ssd1306_oled.c:93-122 | setting or clearing one pixel leaves every other pixel's state unchanged |
| Framebuffer.SetPixelIdempotent | Core/Src/ssd1306_oled.c:93-103 | drawing the same pixel twice equals drawing it once |
| Framebuffer.ClearPixelByteClearsColumnOfPage | Core/Src/ssd1306_oled.c:120 | the byte the code writes (`0x00 << k`) is 0, so all eight pixels of that column of the page go dark |
| Framebuffer.ClearPixelByteCounterexample | Core/Src/ssd1306_oled.c:120 | with every pixel lit, clearing pixel (0,0) also clears pixel (0,1) |
| Framebuffer.ClearPixelEffect | Core/Src/ssd1306_oled.c:112-122 | the corrected clear turns the pixel off and leaves every other pixel unchanged |
| Framebuffer.ClearUndoesSet | Core/Src/ssd1306_oled.c:93-122 | the corrected clear undoes a draw of a pixel that was off |
| Framebuffer.OrByteEffect | Core/Src/ssd1306_oled.c:649-659 | OR-ing v into the byte at pos sets exactly the bits of v there, changes no other byte, and is idempotent |
| Framebuffer.PlotAllPixels | Core/Src/ssd1306_oled.c:133-369 | after plotting a list of points, a pixel is lit iff it was lit before or is in the list |
| BusTrace.Writes | Core/Src/i2c.c:300-310 | one write event per byte, in order |
| BusTrace.DataChunksAppend | Core/Src/ssd1306_oled.c:53-62 | the per-byte data transactions of two byte runs concatenate |
| BusTrace.DataFrameEvents | Core/Src/ssd1306_oled.c:98-102 | a single-byte data transaction is start, address 0x78, control 0x40, the byte, stop |
| BusTrace.WellFramedAppend | Core/Src/ssd1306_oled.c:701-708 | two well-framed traces concatenate into a well-framed trace |
| BusTrace.CommandFrameWellFramed | Core/Src/ssd1306_oled.c:701-708 | every command transaction is well framed: start, address, control byte, payload, stop |
| BusTrace.DataStreamWellFramed | Core/Src/ssd1306_oled.c:72-84 | a data stream (a fresh start per byte and one final stop) is well framed iff it carries at least one byte |
| Ssd1306Commands.SplitFlatten | Core/Src/ssd1306_oled.c:734-831 | splitting a command byte stream into opcode groups loses and invents no byte |
| Ssd1306Commands.CompleteHasNoIncomplete | Core/Src/ssd1306_oled.c:734-831 | a stream is complete (every opcode has all its argument bytes) iff no decoded command is truncated |
| Ssd1306Commands.ParseCommandsAppend | Core/Src/ssd1306_oled.c:734-831 | decoding a complete stream followed by another equals decoding each and concatenating |
| Ssd1306Commands.SplitFlattenFull | Core/Src/ssd1306_oled.c:740-827 | full groups written back to back split into the same groups |
| Ssd1306Commands.ParseFlatten | Core/Src/ssd1306_oled.c:740-827 | full groups written back to back decode group by group |
| Ssd1306Commands.MoveCursorDecodes | Core/Src/ssd1306_oled.c:378-390 | the cursor payload is complete and decodes to column range col..127 and page range row..7 |
| Ssd1306Commands.ContrastDecodes | Core/Src/ssd1306_oled.c:418-421 | the contrast payload decodes to a contrast setting of val |
| Ssd1306Commands.InvertDecodes | Core/Src/ssd1306_oled.c:430-440 | the invert payload decodes to inverse display on or off, as requested |
| Ssd1306Commands.OnDecodes | Core/Src/ssd1306_oled.c:448-458 | the on/off payload decodes to display power on or off, as requested |
| Ssd1306Commands.ScrollStateDecodes | Core/Src/ssd1306_oled.c:565-575 | the scroll payload decodes to activate or deactivate scrolling, as requested |
| Ssd1306Commands.AddrModeDecodes | Core/Src/ssd1306_oled.c:585-588 | the addressing-mode payload decodes to that memory addressing mode |
| Ssd1306Commands.FlipDecodes | Core/Src/ssd1306_oled.c:596-620 | a horizontal flip decodes to a segment remap, a vertical flip to a COM scan direction, each inverted from `state` |
| Ssd1306Commands.ScrollHorizontalDecodes | Core/Src/ssd1306_oled.c:472-486 | opcode `0x26 \| dir` is 0x26 or 0x27, and the payload decodes to one horizontal scroll set-up (left iff dir is LEFT) with the frame code and page range |
| Ssd1306Commands.ScrollDiagonalDecodes | Core/Src/ssd1306_oled.c:524-537 | for dir VRIGHT or VLEFT the payload decodes to one diagonal scroll set-up; for dir 0 its opcode is 0x28, an unknown command, and no scroll set-up is decoded |
| Ssd1306Commands.Opcode28NoScroll | Core/Src/ssd1306_oled.c:502 | the six bytes sent with opcode 0x28 decode to no scroll set-up at all |
| Ssd1306Commands.SmallBytesThenOne | Core/Src/ssd1306_oled.c:502 | bytes below 0x20 or equal to 0x28, followed by any byte, decode to no scroll set-up |
| Ssd1306Commands.VerticalScrollAreaDecodes | Core/Src/ssd1306_oled.c:548-557 | the payload decodes to a vertical scroll area of `fixed` rows plus `64 - fixed` scrolled rows, wrapped to 8 bits, so the two add up to 64 only when `fixed <= 64` |
| Ssd1306Commands.FrozenRowsRange | Core/Src/ssd1306_oled.c:498-504 | the frozen-row count `(freeze+1)*8` lies between 8 and 64 |
| Ssd1306Commands.InitDecodes | Core/Src/ssd1306_oled.c:740-827 | the initialisation payload is complete and decodes to the sequence: display off, clock, pre-charge, VCOMH, charge pump, horizontal addressing, start line 0, segment remap, multiplex 63, COM scan, offset 0, COM pins, contrast 0x80, RAM display, normal display, scrolling off, display on |
| Ssd1306Oled.PixelIsUpdateByte | Core/Src/ssd1306_oled.c:93-103 | drawing a pixel is OR-ing its row mask into its byte, with the same bus traffic as `ramUpdateByte` on that byte |
| Ssd1306Oled.PixelTrafficShape | Core/Src/ssd1306_oled.c:93-103 | a pixel's traffic is well framed and its cursor command decodes to column x, page y/8 |
| Ssd1306Oled.DriftLeavesBuffer | Core/Src/ssd1306_oled.c:635 | with `p_ram` at the base exactly the indices below 1024 are in the buffer; once `p_ram` has moved 1024 bytes or more, no nonnegative index is |
| Ssd1306Oled.GlyphBytesAt | Core/Src/ssd1306_oled.c:53-62 | byte 5i+k of the text's glyph stream is column k of the glyph of character i (`font[ch - 0x20]`) |
| Ssd1306Oled.TextLength | Core/Src/ssd1306_oled.c:51 | the length is the index of the first NUL |
| Ssd1306Oled.Oled.constructor | Core/Src/ssd1306_oled.c:35-36 | the buffer is 1024 zero bytes, `p_ram` points at its start, no traffic yet |
| Ssd1306Oled.Oled.CmdSingle | Core/Src/ssd1306_oled.c:701-708 | emits one command transaction carrying the single opcode |
| Ssd1306Oled.Oled.CmdDouble | Core/Src/ssd1306_oled.c:718-726 | emits one command transaction carrying the opcode and its value |
| Ssd1306Oled.Oled.DisplayMoveCursor | Core/Src/ssd1306_oled.c:378-390 | emits the column-range and page-range commands in one transaction |
| Ssd1306Oled.Oled.DisplayContrast | Core/Src/ssd1306_oled.c:418-421 | emits the contrast command with val |
| Ssd1306Oled.Oled.DisplayInvert | Core/Src/ssd1306_oled.c:430-440 | emits 0xA7 to invert and 0xA6 otherwise |
| Ssd1306Oled.Oled.DisplayOn | Core/Src/ssd1306_oled.c:448-458 | emits 0xAF to switch on and 0xAE otherwise |
| Ssd1306Oled.Oled.DisplayScrollState | Core/Src/ssd1306_oled.c:565-575 | emits 0x2F to activate scrolling and 0x2E otherwise |
| Ssd1306Oled.Oled.DisplayAddrMode | Core/Src/ssd1306_oled.c:585-588 | emits 0x20 with the mode |
| Ssd1306Oled.Oled.DisplayFlip | Core/Src/ssd1306_oled.c:596-620 | emits the segment-remap or COM-scan opcode chosen by orientation and state |
| Ssd1306Oled.Oled.DisplayScrollHorizontal | Core/Src/ssd1306_oled.c:472-486 | emits the seven-byte horizontal scroll set-up in one transaction |
| Ssd1306Oled.Oled.DisplayScrollDiagonal | Core/Src/ssd1306_oled.c:524-537 | emits the six-byte diagonal scroll set-up in one transaction |
| Ssd1306Oled.Oled.DisplaySetVerticalScrollArea | Core/Src/ssd1306_oled.c:548-557 | emits 0xA3 with the fixed-row count and `64 - fixed` |
| Ssd1306Oled.Oled.DisplayScrollVerticalAsWritten | Core/Src/ssd1306_oled.c:498-504 | as written, sends the diagonal set-up with direction 0 (opcode 0x28) and then the scroll area |
| Ssd1306Oled.Oled.DisplayScrollVertical | Core/Src/ssd1306_oled.c:498-504 | corrected: sends the diagonal set-up with direction VRIGHT (opcode 0x29), then the scroll area with `(freeze+1)*8` fixed rows |
| Ssd1306Oled.Oled.DrawPixel | Core/Src/ssd1306_oled.c:93-103 | the buffer becomes `SetPixel(old, x, y)`; the bus gets the cursor command and one data transaction of the updated byte |
| Ssd1306Oled.Oled.DisplayClearPixelAsWritten | Core/Src/ssd1306_oled.c:112-122 | as written: the whole byte becomes 0 and 0x00 is sent |
| Ssd1306Oled.Oled.DisplayClearPixel | Core/Src/ssd1306_oled.c:112-122 | corrected: the buffer becomes `ClearPixel(old, x, y)` and the cleared byte is sent |
| Ssd1306Oled.Oled.RamWrite | Core/Src/ssd1306_oled.c:672-675 | ORs v into the byte at pos and changes nothing else |
| Ssd1306Oled.Oled.RamUpdateByte | Core/Src/ssd1306_oled.c:649-659 | ORs v into the byte, then sends the cursor command and the updated byte |
| Ssd1306Oled.Oled.RamUpdateFullAsWritten | Core/Src/ssd1306_oled.c:628-638 | as written: sends the 1024 buffer bytes, and `p_ram` ends 1024 bytes past the buffer, so no later access at a nonnegative index from it is inside the buffer |
| Ssd1306Oled.Oled.RamUpdateFull | Core/Src/ssd1306_oled.c:628-638 | corrected: sends the 1024 buffer bytes and leaves `p_ram` at the buffer, where exactly the indices below 1024 stay inside it |
| Ssd1306Oled.Oled.RamClearAsWritten | Core/Src/ssd1306_oled.c:685-692 | as written: zeroes the buffer and moves the cursor to (0,0), and `p_ram` ends 1024 bytes past the buffer, so no later access at a nonnegative index from it is inside the buffer |
| Ssd1306Oled.Oled.RamClear | Core/Src/ssd1306_oled.c:685-692 | corrected: zeroes the buffer, moves the cursor to (0,0), and leaves `p_ram` at the buffer, where exactly the indices below 1024 stay inside it |
| Ssd1306Oled.Oled.DisplayClear | Core/Src/ssd1306_oled.c:398-410 | moves the cursor to (0,0) and streams 1024 zero bytes, without touching the buffer |
| Ssd1306Oled.Oled.DrawBitmap | Core/Src/ssd1306_oled.c:72-84 | moves the cursor to (0,0) and streams the first 1024 bitmap bytes in order |
| Ssd1306Oled.Oled.CountText | Core/Src/ssd1306_oled.c:51 | the loop stops at the first NUL |
| Ssd1306Oled.Oled.DrawChar | Core/Src/ssd1306_oled.c:48-64 | streams the five glyph columns of every character before the NUL, in order, then one stop |
| Ssd1306Oled.Oled.DrawLine | Core/Src/ssd1306_oled.c:133-202 | plots exactly the Bresenham points `LinePoints` in order: buffer and traffic are those of `PlotAll` over them |
| Ssd1306Oled.Oled.DrawLineAlongX | Core/Src/ssd1306_oled.c:161-179 | the x-major loop plots every walk point but the last, which it returns |
| Ssd1306Oled.Oled.DrawLineAlongY | Core/Src/ssd1306_oled.c:181-200 | the y-major loop plots every walk point but the last, which it returns |
| Ssd1306Oled.Oled.DrawVerticalLine | Core/Src/ssd1306_oled.c:212-234 | plots the points of column x from y1 to y2 in order |
| Ssd1306Oled.Oled.DrawHorizontalLine | Core/Src/ssd1306_oled.c:244-266 | plots the points of row y from x1 to x2 in order |
| Ssd1306Oled.Oled.DrawCircleLoop | Core/Src/ssd1306_oled.c:284-348 | the midpoint loop plots exactly the guarded octant points of `CircleLoop` |
| Ssd1306Oled.Oled.DrawCircle | Core/Src/ssd1306_oled.c:276-369 | plots exactly `CirclePoints` (octants, then the four axis points), all on screen |
| Ssd1306Oled.Oled.Init | Core/Src/ssd1306_oled.c:734-831 | sends the initialisation payload in one command transaction, then does a display clear |
| Raster.Int8 | Core/Src/ssd1306_oled.c:278-296 | the int8_t decision variable: a result in -128..127 that equals its input when the input is in range |
| Raster.WalkEnds | Core/Src/ssd1306_oled.c:161-200 | the Bresenham walk has one point per major step plus one, starts at the start point and ends on the far end of the major axis |
| Raster.WalkBox | Core/Src/ssd1306_oled.c:161-200 | every walk point lies between the end points on both axes |
| Raster.WalkSteps | Core/Src/ssd1306_oled.c:161-200 | consecutive walk points are 8-neighbours and advance one step on the major axis |
| Raster.LineEnds | Core/Src/ssd1306_oled.c:133-202 | the line has max(\|dx\|,\|dy\|)+1 points, from (x1,y1) to (x2,y2) |
| Raster.LineBox | Core/Src/ssd1306_oled.c:133-202 | every line point lies in the bounding box of the end points |
| Raster.LineNeighbours | Core/Src/ssd1306_oled.c:133-202 | consecutive line points are 8-neighbours, so the line has no gaps |
| Raster.LineOnScreen | Core/Src/ssd1306_oled.c:133-202 | a line between on-screen end points stays on screen |
| Raster.LineSinglePoint | Core/Src/ssd1306_oled.c:133-202 | a line from a point to itself plots that one point |
| Raster.VerticalPointsCover | Core/Src/ssd1306_oled.c:212-234 | the vertical line has \|y2-y1\|+1 points starting at y1, and contains exactly the points of column x between y1 and y2 |
| Raster.HorizontalPointsCover | Core/Src/ssd1306_oled.c:244-266 | the horizontal line has \|x2-x1\|+1 points starting at x1, and contains exactly the points of row y between x1 and x2 |
| Raster.OctantPointsVisible | Core/Src/ssd1306_oled.c:302-347 | the edge guards keep exactly the on-screen reflections of (x,y), in the source's order |
| Raster.AxisPointsVisible | Core/Src/ssd1306_oled.c:353-368 | the axis guards keep exactly the on-screen axis points of the circle |
| Raster.CircleOnScreen | Core/Src/ssd1306_oled.c:276-369 | every plotted circle point is on screen |
| Raster.CircleRadiusZero | Core/Src/ssd1306_oled.c:276-369 | radius 0 plots the centre four times |
| Raster.CircleLargeRadius | Core/Src/ssd1306_oled.c:276-369 | for radii 128..255 the int8_t `y` starts negative, so the loop plots nothing and only the axis points remain |
| I2cConfig.Cr1OptionsSum | Core/Src/i2c.c:148-152 | with the documented option values, the OR of the CR1 options is their sum |
| I2cConfig.Cr1OptionsFields | Core/Src/i2c.c:148-152 | each option can be read back from its own bit field of CR1 |
| I2cConfig.Oar1Fields | Core/Src/i2c.c:157 | OAR1 is bit 14 plus the own address shifted left by one, and the address reads back from bits 1..13 |
| I2cConfig.Freq | Core/Src/i2c.c:166-185 | corrected FREQ: the APB1 clock in whole MHz, `f*div*10^6 <= sysclk < (f+1)*div*10^6` |
| I2cConfig.FreqAsWrittenAgrees | Core/Src/i2c.c:168-178 | for prescaler codes 4..6 the source's FREQ equals the corrected one |
| I2cConfig.FreqCase7FallsThrough | Core/Src/i2c.c:179-183 | at 72 MHz with code 7, the corrected FREQ is 4 but the as-written FREQ is at least 72000000 |
| I2cConfig.FreqDefaultInHertz | Core/Src/i2c.c:181-183 | at 8 MHz with no division, the corrected FREQ is 8 but the source writes 8000000 |
| I2cConfig.SclDivisor | Core/Src/i2c.c:190-205 | the 16-bit divisor is kept when at least 4, otherwise clamped to 1 in fast 16/9 duty mode and to 4 otherwise |
| I2cConfig.SclDivisorBounds | Core/Src/i2c.c:190-205 | the divisor is at least 1, at least 4 outside fast 16/9 duty mode, and a computed 2 or 3 becomes 1 in that mode |
| I2cConfig.Trise | Core/Src/i2c.c:209-222 | TRISE is the rise time in FREQ clock cycles rounded down, plus one |
| I2cConfig.CcrModeBits | Core/Src/i2c.c:187-205 | while the divisor fits the 12-bit field, CCR's FS and DUTY bits are those of the configuration |
| I2cConfig.CcrDivisorOverflow | Core/Src/i2c.c:187-205 | at 100 Hz in standard mode on 72 MHz the divisor 0xBF20 sets CCR's FS bit |
| I2cConfig.StructInitRegisters | Core/Src/i2c.c:71-86 | the default configuration gives CR1 options 0, OAR1 0x40F8, no OAR2, fast mode without 16/9 duty, and a 300 ns rise time (TRISE 11 at 36 MHz) |
| I2cConfig.InitRegistersMeaning | Core/Src/i2c.c:148-163 | CR1 is the options plus PE, OAR1 holds the own address, and OAR2 is written iff dual addressing is enabled |
| I2cConfig.InitClockRegisters | Core/Src/i2c.c:166-222 | CR2 is the APB1 clock in MHz and TRISE is the rise time in those cycles plus one |
| I2cConfig.Cr1Enabled | Core/Src/i2c.c:225 | setting PE adds exactly 1 to the option bits |
| I2cDriver.MasterWriteCarries | Core/Src/i2c.c:323-336 | a master burst write sends exactly the given bytes and receives none |
| I2cDriver.SlaveWriteCarries | Core/Src/i2c.c:337-364 | a slave burst write sends exactly the given bytes and receives none |
| I2cDriver.SlaveReadCarries | Core/Src/i2c.c:482-502 | a slave burst read receives exactly the given bytes and sends none |
| I2cDriver.RequestCarries | Core/Src/i2c.c:283-291 | a request writes exactly the address byte to DR and receives nothing |
| I2cDriver.WriteCarries | Core/Src/i2c.c:300-310 | a single write transmits exactly its byte and receives nothing |
| I2cDriver.ReadCarries | Core/Src/i2c.c:377-390 | a one-byte read sends NACK, clears ADDR, requests STOP, then receives the byte |
| I2cDriver.MasterReadStop | Core/Src/i2c.c:405-473 | a master burst read receives exactly its bytes; it requests STOP only after NACK is set and before the last two bytes are read |
| I2cDriver.SlaveTxFromStart | Core/Src/i2c.c:348-361 | with a count above one the slave sends the buffer from its start, regardless of the count (for up to 256 rounds within the buffer); with a count of one or zero it repeats the first byte for any number of rounds |
| I2cDriver.SlaveTxWraps | Core/Src/i2c.c:348-361 | the uint8_t index wraps, so round 256 sends `data[0]` again |
| I2cDriver.SlaveStoreInOrder | Core/Src/i2c.c:491-499 | up to 256 slave-received bytes land at the start of the buffer in order |
| I2cDriver.SlaveStoreWraps | Core/Src/i2c.c:491-499 | byte 256 overwrites `data[0]` |
| I2cDriver.I2cPeriph.constructor | Core/Src/i2c.c:143-145 | registers at reset values, empty trace, and the peer's bytes pending |
| I2cDriver.I2cPeriph.Init | Core/Src/i2c.c:95-226 | the registers become `InitRegisters` of the configuration, the APB1 prescaler field of RCC_CFGR, and the core clock |
| I2cDriver.I2cPeriph.Start | Core/Src/i2c.c:237-240 | appends one START request |
| I2cDriver.I2cPeriph.Stop | Core/Src/i2c.c:249-252 | appends one STOP request |
| I2cDriver.I2cPeriph.AckBit | Core/Src/i2c.c:263-273 | sets ACK or clears it |
| I2cDriver.I2cPeriph.Request | Core/Src/i2c.c:283-291 | waits for SB, sends the address byte, and waits for ADDR; the bytes sent grow by exactly that address |
| I2cDriver.I2cPeriph.Write | Core/Src/i2c.c:300-310 | clears ADDR, waits for TXE, sends the byte, and waits for BTF or TXE; the bytes sent grow by exactly that byte |
| I2cDriver.I2cPeriph.WriteBurst | Core/Src/i2c.c:321-365 | any non-zero mode takes the master sequence over the first `dataBytes` bytes; mode 0 takes the slave sequence |
| I2cDriver.I2cPeriph.MasterWriteBurst | Core/Src/i2c.c:323-336 | clears ADDR, sends each of the first `dataBytes` bytes after TXE, and waits for BTF and TXE |
| I2cDriver.I2cPeriph.SlaveWriteBurst | Core/Src/i2c.c:337-364 | ACKs, waits for and clears ADDR, sends one byte per acknowledged round, and clears AF |
| I2cDriver.I2cPeriph.SlaveTransmit | Core/Src/i2c.c:348-361 | the EV3-1 loop sends `SlaveTx` of the rounds the master acknowledges |
| I2cDriver.I2cPeriph.Read | Core/Src/i2c.c:377-390 | returns the next byte from the bus after the single-byte sequence |
| I2cDriver.I2cPeriph.ReadBurst | Core/Src/i2c.c:405-503 | a master reading 2 or more bytes stores exactly the next `dataBytes` bus bytes at the front of the buffer; a master asked for fewer hangs with no effect; a slave stores the polled bytes with a wrapping index |
| I2cDriver.I2cPeriph.ReadTwo | Core/Src/i2c.c:409-429 | the two-byte sequence (POS, ACK, NACK, BTF, STOP) stores the next two bus bytes |
| I2cDriver.I2cPeriph.ReadMany | Core/Src/i2c.c:431-473 | the N>2 sequence stores the next N bus bytes in order |
| I2cDriver.I2cPeriph.ReceiveUntilThree | Core/Src/i2c.c:443-448 | the EV7 loop stores all but the last three bytes |
| I2cDriver.I2cPeriph.ReceiveThirdLast | Core/Src/i2c.c:455-461 | after BTF, clears ACK and stores the third-last byte |
| I2cDriver.I2cPeriph.ReceiveLastTwo | Core/Src/i2c.c:462-472 | requests STOP, waits for BTF, and stores the last two bytes |
| I2cDriver.I2cPeriph.SlaveReadBurst | Core/Src/i2c.c:482-502 | ACKs and clears ADDR, stores every byte received before STOPF at the wrapping uint8_t index, then clears STOPF |
| I2cDriver.I2cPeriph.DrainRx | Core/Src/i2c.c:493-498 | the inner RXNE loop stores the ready bytes and advances the uint8_t index modulo 256 |

## Left out

- The font table (`ssd1306_font.h`) and the bitmap contents are not part of this model. The font is a parameter of `DrawChar`.
- Delay loops (i2c.c:98 and 144) have no observable effect and are omitted.
- The RCC and GPIO clock set-up and the choice of I2C1 or I2C2 base (i2c.c:97-138) are omitted. `i2c_config` and `i2c_gpio` (i2c.c:513-561) are not part of this model.
- Each busy-wait on an SR1 flag is one `Await` step. The model assumes the hardware eventually raises the flag, and does not model timing or the bus electrically.
- Reading SR2 to clear ADDR, and the CR1 write-back that clears STOPF, are single trace steps rather than register values.
- Ssd1306Oled.Oled.DrawPixel, DisplayClearPixel, DrawLine, DrawVerticalLine, DrawHorizontalLine and DrawCircle require on-screen coordinates. The source does not check them. Its byte offset `x + 128*(y/8)` (ssd1306_oled.c:96) keeps an off-screen x inside the buffer while the offset is below 1024. There the write lands on a pixel of a later page: `drawPixel(200, 0)` ORs bit 0 into byte 200, which is pixel (72, 8), and sends the panel column 200. Only an offset of 1024 or more leaves the buffer. The model does not cover either case.
- `Raster.LinePoints` uses unbounded integers for the deltas (int8_t in the source) and the decision variable (int16_t), at ssd1306_oled.c:148-159. For the on-screen end points `DrawLine` requires, neither can wrap. The circle's int8_t `d0` and `y0` are modelled through `Raster.Int8`.
- Ssd1306Oled.Oled.DrawBitmap requires at least 1024 bitmap bytes, as the source reads that many.
- Ssd1306Oled.Oled.DrawChar requires every character before the NUL to have a glyph. The source indexes `font[ch - 0x20]` without checking.
- I2cDriver.I2cPeriph.ReadBurst returns `hung` for a master read of fewer than two bytes. The source spins forever in `while(1)` (i2c.c:475-479).
- I2cDriver.I2cPeriph.ReadBurst requires the slave receiver's uint8_t index to stay inside the buffer, which must be at least as long as the number of bytes received or at least 256 bytes. SlaveWriteBurst, SlaveTransmit and WriteBurst require the same only for a count above one, where the index advances every round. With a count of one or zero the source reads only the first byte, so any number of rounds is admitted. Beyond these bounds the source reads or writes outside the array.
- The numbers of slave rounds and RXNE polls depend on when the remote master NACKs or stops. They are parameters (`acked`, `polls`).
- The write-burst buffer and the slave transmit data are `seq` values. The read-burst buffer is an `array`, as the source writes into it.
- Several methods are split into helper methods with ghost parameters so each proof stays small, for example PlotNext, SendTextGlyph and the three phases of ReadMany. They run the same statements in the same order.
- I2cDriver.I2cPeriph.Init starts from reset values (all zero), as after the SWRST pulse (i2c.c:143-145). It models FREQ as corrected (see Findings).
- I2cConfig.CcrModeBits holds only while the divisor fits the 12-bit CCR field; CcrDivisorOverflow shows a configuration where it does not. The source does not check this.
- The DMA enable, the addressing-mode and the duty-cycle fields take part only as `i2c_init` uses them. The DMA and addressing-mode settings are never written to a register by the source.
- The panel's own response to the commands (its GDDRAM, scrolling, display state) is not simulated. Commands are checked by decoding the byte stream.

## Findings

| source | as written | input that shows it | evidently intended | confidence | as-written member | corrected member |
|---|---|---|---|---|---|---|
| Core/Src/ssd1306_oled.c:120 | clearing a pixel stores `0x00 << (y % 8)`, which is 0, into the whole byte | every pixel lit, clear (0,0): pixel (0,1) also goes dark | clear only bit `y % 8` (`&= ~(1 << (y % 8))`) | not executed | Framebuffer.ClearPixelByteCounterexample | Ssd1306Oled.Oled.DisplayClearPixel |
| Core/Src/ssd1306_oled.c:635 | `ramUpdateFull` advances `p_ram` 1024 times and never resets it, so every later buffer access goes past the array | `ramUpdateFull()` then `drawPixel(0,0)` touches `ssd1306_ram[1024]` | keep `p_ram` at the buffer (index from it) | not executed | Ssd1306Oled.Oled.RamUpdateFullAsWritten | Ssd1306Oled.Oled.RamUpdateFull |
| Core/Src/ssd1306_oled.c:685-692 | `ramClear` also advances `p_ram` 1024 times | `ramClear()` then `drawPixel(0,0)` | keep `p_ram` at the buffer | not executed | Ssd1306Oled.Oled.RamClearAsWritten | Ssd1306Oled.Oled.RamClear |
| Core/Src/ssd1306_oled.c:502 | vertical scroll sets up a diagonal scroll with direction 0, so the opcode is `0x28 \| 0`, which is no SSD1306 command | any `displayScrollVertical` call | direction VRIGHT, opcode 0x29 (vertical and right horizontal scroll) | not executed | Ssd1306Oled.Oled.DisplayScrollVerticalAsWritten | Ssd1306Oled.Oled.DisplayScrollVertical |
| Core/Src/i2c.c:179-183 | case 7 of the FREQ switch has no `break`, so the default also ORs the full core clock into CR2 | prescaler code 7 at 72 MHz: CR2 gets `4 \| 72000000` | FREQ = 72 MHz / 16 = 4 | not executed | I2cConfig.FreqCase7FallsThrough | I2cConfig.Freq |
| Core/Src/i2c.c:181-183 | the default case writes the core clock in Hz, not MHz, into the 6-bit FREQ field | no APB1 division at 8 MHz: CR2 gets 8000000 | FREQ = 8 | not executed | I2cConfig.FreqDefaultInHertz | I2cConfig.Freq |
