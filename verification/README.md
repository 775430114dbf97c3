# E-paper image transfer and drawing: a verified model

The firmware receives a picture over a WiFi modem's serial line, checks it, and shows it on a four-colour e-paper
panel; a small drawing library paints on the same kind of packed-pixel buffer. This project models that chain and
proves what it promises.

- **Transfer.** `Crc` and `Wire` are the checksum and the frame format. `Framing` is the nine-state byte parser as a
  transition function, together with a reference scanner that locates frames by their format alone; `Receiver` is the
  parser as the interrupt runs it, on static variables and one shared buffer. `Panel` is the panel driver as a trace of
  command and data bytes. `Transfer` interleaves the interrupt with the WiFi thread, one read of the shared buffer at a
  time. `Packer` splits an image into frames, `Spi` puts the trace on four pins, and `EndToEnd` joins everything.
  `ErrorDetection` and `Corruption` say which damaged frames can never be accepted.
- **Canvas.** `Canvas` and `Paint` are the packed-pixel buffer seen through scale, rotation and mirror; `Encoder`
  relates it to the offline image converter. `Lines`, `Circles` and `Text` are the rasterisers, stated over the points
  they pass on.
- **Support.** `RingList` is the intrusive doubly linked list on the heap, `Dither` the error diffusion over reals,
  `Arith` a few facts about division, `Digits` the bits of a byte as digits of a number.

Everything on the protocol side is a bounded integer: `crc & 1` is written `crc % 2`, `crc >> 1` is `crc / 2`, a join of
two bytes is `high * 256 + low`, and exclusive or is a function on naturals. Canvas bytes are bit vectors. The framing
proofs hold for any checksum function; the CRC enters where errors are detected and where the program's own objects run.

Where the code falls short of what its comments or callers expect, the code is kept and the exact condition is proved,
with a failing input named in brackets where one makes it plain:

- a line draws its end point if and only if not (dy < dx <= 2*dy), with dx and dy the extents (`Lines.EndPointDrawn`;
  (0,0)-(2,1) is `Lines.EndPointMissed`);
- a circle, filled or hollow, comes out right if and only if its radius is at most 8345, among all 16-bit radii
  (`Circles.DrawCircle`; the error term wraps at 8346 in `Circles.WrapAt8346`); the filled circle of radius 32767 never
  ends (`Circles.FillNeverEnds`);
- changing the rotation keeps the canvas consistent if and only if the axes stay as they were or the canvas is square
  (`Paint.Painter.SetRotate`; 2 by 1 pixels in `Paint.QuarterTurn` and `Canvas.TurnedOverrun`);
- clearing a canvas is uniform if and only if the stored byte shows the colour in as many pixels as a row uses of it; on
  a canvas at least one byte wide that is, in scale 2, if and only if the colour is 0 or its low byte is 0xFF
  (`Paint.Painter.Clear`; white in `Paint.WhiteClearFails`);
- the pixel guards let the coordinate one past the canvas through: which of these stay in the buffer is
  `Canvas.AdmittedInside`, and which pixel they hit is `Canvas.StrayWrite` (failing inputs: `Canvas.GuardAdmitsOverrun`);
- a frame is found if and only if the parser is in its first state when the frame begins (`Framing.FrameReportedExactly`),
  so a stray header byte hides the frame behind it (`Framing.StrayByteHidesFrame`);
- in every interleaving each frame is picked up or still pending if and only if no event was raised while the last one was
  pending (`Transfer.PickedUpExactly`); two frames received before the thread runs lose the first one, and the panel is
  still right if and only if that was not an image frame (`Transfer.OverrunLosesFrame`);
- the packer's lists are lists of bytes if and only if the image has at most 255*1022 bytes (`Packer.PackImageToFrames`);
- a string is laid out on screen if and only if its first cell fits (`Text.DrawString`); it hands foreground and
  background to the character routine in exchanged order, contrary to the comment above it.

In the table below, rows that begin with **Result** are the main theorems and the operations proved against them; the
others are the steps they rest on.

## Model

| member | source | states |
|---|---|---|
| `Crc.Calculate` | User/ch32v30x_it.c:77-99 | the nested loops compute the register after all numbers, in C and, unconfined to sixteen bits, in Python |
| `Crc.CrcIsWord` | User/ch32v30x_it.c:77-99 | fed bytes, the register never leaves sixteen bits |
| `Crc.CrcIsBitSerial` | tools/image_frame_packer.py:24-42 | **Result.** The byte-wise loops equal the bit-serial shift register fed with the wire bits, least significant bit first, for messages of any length |
| `ErrorDetection.CancelledDifference` | User/ch32v30x_it.c:77-99 | if two registers become equal after at most sixteen bits each, they differed before exactly where the bits differ: each step is a bijection |
| `ErrorDetection.BurstDetected` | User/ch32v30x_it.c:77-99 | **Result.** Two messages of any length that differ only inside sixteen consecutive wire bits have the same CRC if and only if they are equal |
| `ErrorDetection.RegisterParity` | User/ch32v30x_it.c:77-99 | the register carries the parity of the message |
| `ErrorDetection.OddErrorsDetected` | User/ch32v30x_it.c:77-99 | **Result.** An odd number of wrong bits over message and checksum never passes the check |
| `Wire.EncodingUnique` | User/user.h:11-41 | **Result.** A byte sequence is in the frame format of a frame if and only if it is that frame's encoding |
| `Framing.Step` | User/ch32v30x_it.c:147-275 | every step keeps the buffer, length and index bounds, and an event leaves a valid frame held with the parser in HEADER1 |
| `Framing.RunFrame` | User/ch32v30x_it.c:154-267 | a whole candidate frame brings the parser back to HEADER1 holding its contents, and is reported exactly if the checksum matches |
| `Framing.ParserIsScan` | User/ch32v30x_it.c:147-275 | **Result.** On every byte stream the events are exactly the frames the format-only scanner finds |
| `Framing.ReceiverSound` | User/ch32v30x_it.c:147-275 | **Result.** On every byte stream each event reports the complete frame whose bytes just ended, and reported frames never overlap |
| `Framing.ScanSound` | User/ch32v30x_it.c:230-267 | every frame of the scanner is an encoding located in the stream at its reported place |
| `Framing.ScanApart` | User/ch32v30x_it.c:230-267 | consecutive frames of the scanner do not overlap |
| `Framing.ScanFrame` | User/ch32v30x_it.c:154-267 | a frame at the start of a stream is found, and scanning goes on right after it |
| `Framing.FrameReportedExactly` | User/ch32v30x_it.c:154-267 | **Result.** A frame anywhere in a stream is reported if and only if the parser is in HEADER1 when its first byte arrives |
| `Framing.StrayByteHidesFrame` | User/ch32v30x_it.c:154-178 | one stray header byte before any frame, and the frame is not reported |
| `Framing.BackInHeader1` | User/ch32v30x_it.c:154-274 | **Result.** From every reachable state, whatever the bytes, one of the next 1031 brings the parser to HEADER1 |
| `Framing.Resync` | User/ch32v30x_it.c:154-274 | the bound for each state is at most 1031 bytes |
| `Receiver.Parser.constructor` | User/ch32v30x_it.c:147-153 | the static variables start in a valid state in HEADER1 |
| `Receiver.Parser.CrcOfHeld` | User/ch32v30x_it.c:230-250 | the copy loop and the CRC give the checksum of type, command, length and payload held |
| `Receiver.Parser.RecDataProcessing` | User/ch32v30x_it.c:147-275 | **Result.** The in-place byte handler does exactly one transition of the parser and raises the event exactly then |
| `Corruption.DamagedRun` | User/ch32v30x_it.c:189-267 | a damaged frame with intact header and length leaves the parser aligned, and is accepted only if the received checksum fits |
| `Corruption.BurstRaisesNoEvent` | User/ch32v30x_it.c:230-267 | **Result.** A burst of at most sixteen wire bits in the covered bytes raises no event, for frames of any length |
| `Corruption.ChangedBytesRaiseNoEvent` | User/ch32v30x_it.c:230-267 | **Result.** Changing any one byte or any two adjacent bytes among type and command or in the payload raises no event |
| `Corruption.OddErrorsRaiseNoEvent` | User/ch32v30x_it.c:230-267 | **Result.** An odd number of wrong bits in covered bytes and checksum raises no event |
| `Panel.RecodeIdentity` | Device/EPD.c:85-129 | passing the four pixels of a byte through the colour table changes no byte |
| `Panel.Epd.InitFast` | Device/EPD.c:22-36 | the wake sequence is appended to the trace |
| `Panel.Epd.Sleep` | Device/EPD.c:38-46 | the sleep sequence is appended to the trace |
| `Panel.Epd.Update` | Device/EPD.c:48-53 | the update sequence is appended to the trace |
| `Panel.Epd.DisplayImage` | Device/EPD.c:108-129 | command 0x10, the buffer's bytes unchanged and in order, one update |
| `Panel.Epd.DisplayImageParagraph` | Device/EPD.c:131-149 | the bytes unchanged and in order, after command 0x10 for the first paragraph only |
| `Panel.Epd.ProcessImageData` | User/thread_WiFi.c:10-36 | wake before the first packet, update and sleep after the last |
| `Panel.Epd.ProcessFrame` | User/thread_WiFi.c:39-62 | **Result.** Only frames of type 0xD1 and command 0x01 with more than two payload bytes have an effect: the start-up bytes if they are packet 1, their data, the closing bytes if they are the last packet, all byte by byte |
| `Transfer.HeaderBytesKeep` | User/ch32v30x_it.c:154-178 | a byte consumed in the two header states changes nothing but the state |
| `Transfer.FrameKept` | User/ch32v30x_it.c:154-182 | **Result.** After an event the shared record is unchanged until the parser consumes a byte in CMD_TYPE |
| `Transfer.AdvanceKeeps` | User/thread_WiFi.c:10-62 | each step of the thread outputs exactly the next part of what the held frame still owes the panel |
| `Transfer.ReceiveKeeps` | User/ch32v30x_it.c:101-115 | a received byte keeps the invariant that the frame in work is the last accepted one and still in the buffer |
| `Transfer.WorkKeeps` | User/thread_WiFi.c:84-94 | a step of the thread, event read included, keeps it too |
| `Transfer.TimelyKeeps` | User/thread_WiFi.c:84-94 | the invariant holds along every timely interleaving |
| `Transfer.ParserUndisturbed` | User/ch32v30x_it.c:101-115 | in every interleaving, timely or not, the parser's state depends on the bytes alone |
| `Transfer.AcceptedAreReports` | User/ch32v30x_it.c:251-267 | in every interleaving the accepted frames are the reports of the byte stream |
| `Transfer.TimelyRun` | User/thread_WiFi.c:84-94 | **Result.** In every run where the thread is done before the third byte of the next frame, each frame of the stream is processed exactly once, in order, with its own contents; a run cut short shows a prefix |
| `Transfer.Drains` | User/thread_WiFi.c:84-94 | the thread always comes back to waiting within its computed number of steps |
| `Transfer.PolledIsTimely` | User/thread_WiFi.c:84-94 | **Result.** For every byte stream the schedule that runs the thread after each byte is timely and ends idle |
| `Transfer.OverrunLosesFrame` | User/ch32v30x_it.c:251-267 | **Result.** Two frames before the thread runs: both accepted, only the second processed, and the trace is right if and only if the first is not an image frame |
| `Transfer.PickedUpExactly` | User/thread_WiFi.c:84-94 | **Result.** In every interleaving, pick-ups plus pending events are the frames of the stream less one for each event raised while the bit was set, so none is missed if and only if that never happens |
| `Packer.PacketCountIsByte` | tools/image_frame_packer.py:152-153 | the packet count fits its byte if and only if the image has at most 255*1022 = 260610 bytes |
| `Packer.CreateFrame` | tools/image_frame_packer.py:91-139 | for data of any length the list is A5 5A D1 01, the length high byte first, count, number, data and CRC; for a packet that fits it is the frame format |
| `Packer.LongFrameSkipped` | tools/image_frame_packer.py:91-139 | a frame built from longer data is given up by the receiver after its length field |
| `Packer.PackImageToFrames` | tools/image_frame_packer.py:142-170 | **Result.** For images of any size, list i is the frame of packet i; up to 255*1022 bytes it is the packet's encoding, and the lists are lists of bytes if and only if the image is not larger |
| `EndToEnd.AllPackets` | User/thread_WiFi.c:10-62 | the effects of the packets of an image add up to one wake, command 0x10, the image bytes, one update, one sleep |
| `EndToEnd.PackedStream` | tools/image_frame_packer.py:142-170 | **Result.** Scanning the concatenated frames gives back exactly the packets: packing and parsing are inverse |
| `EndToEnd.ImageArrives` | User/thread_WiFi.c:84-94 | **Result.** In every timely interleaving that delivers a packed image the panel has seen a prefix of that trace, and exactly that trace once the thread is idle |
| `EndToEnd.ImageArrivesPolled` | User/thread_WiFi.c:84-94 | **Result.** With the thread run after every byte the whole trace is shown |
| `EndToEnd.ImageOnTheWires` | Device/EPD_SPI.c:25-57 | **Result.** A listener on the pins hears the command bytes E0 04 10 with their data, every image byte as data, in order and unchanged, and the command bytes 12 02 07 with their data |
| `EndToEnd.Deliver` | User/ch32v30x_it.c:101-115 | one byte to the parser object, and the frame processed if the event is raised |
| `EndToEnd.Feed` | User/thread_WiFi.c:84-94 | a whole stream through the objects gives the effects of its reported frames |
| `EndToEnd.SendImage` | tools/image_frame_packer.py:142-170 | **Result.** Packing an image and feeding the frames to the objects appends exactly the intended trace |
| `Spi.Bus.Write` | Device/EPD_SPI.c:25-41 | the shift loop drives clock and data for the eight bits, most significant first |
| `Spi.Bus.WriteCommand` | Device/EPD_SPI.c:43-49 | one byte with DC low inside one CS-low window, with CS high afterwards |
| `Spi.Bus.WriteDatum` | Device/EPD_SPI.c:51-57 | one byte with DC high inside one CS-low window, with CS high afterwards |
| `Spi.Play` | Device/EPD_SPI.c:43-57 | **Result.** Writing the bytes of a trace one after the other makes exactly the wave that the round trip is about |
| `Spi.HearBits` | Device/EPD_SPI.c:25-41 | a listener hears nothing before the eighth rising edge and then the byte, tagged by DC |
| `Spi.HearByte` | Device/EPD_SPI.c:43-57 | it recovers each written byte and is ready for the next |
| `Spi.RoundTrip` | Device/EPD_SPI.c:25-57 | **Result.** It recovers exactly the command and data bytes of every trace, in order and correctly tagged |
| `Spi.AlignedAfterByte` | Device/EPD_SPI.c:43-57 | after any byte any listener, whatever it had counted, is aligned again |
| `Spi.RoundTripFromIdle` | Device/EPD_SPI.c:25-57 | a listener with any count that has seen CS high recovers the whole trace |
| `Canvas.StoreThenLoad` | Device/GUI_Paint.c:225-245 | a pixel written into a byte reads back as its shade, and its neighbours in the byte keep their values if the colour fits |
| `Canvas.LoadIsValue` | Device/GUI_Paint.c:225-245 | a pixel is a digit of its byte's binary, quaternary or hexadecimal numeral, the first the highest |
| `Canvas.StoreSetsPixel` | Device/GUI_Paint.c:225-245 | the stored byte, as a number, has the colour's value in that digit and its other digits unchanged |
| `Canvas.WideColorSpills` | Device/GUI_Paint.c:239-245 | a colour of 16 or more written to the lower pixel is or-ed into the upper one |
| `Canvas.PlaceBijection` | Device/GUI_Paint.c:183-219 | **Result.** In every rotation and mirror the coordinate map is a bijection between the logical canvas and the memory rectangle |
| `Canvas.PlaceGeometry` | Device/GUI_Paint.c:183-219 | **Result.** On every canvas the memory position is (x,y), (w-1-y,x), (w-1-x,h-1-y) or (y,h-1-x) for the four rotations, with column X turned into w-1-X and row Y into h-1-Y by the mirrors |
| `Canvas.QuarterTurns` | Device/GUI_Paint.c:183-202 | a half turn is two quarter turns, and three quarters are a quarter turn after a half turn |
| `Canvas.AddressInside` | Device/GUI_Paint.c:225-245 | every memory position addresses a byte of the buffer |
| `Canvas.AddressInjective` | Device/GUI_Paint.c:225-245 | different positions of a row, padding included, differ in address or in place within the byte |
| `Canvas.RowBytesTight` | Device/GUI_Paint.c:141-154 | a row has the bytes its pixels need and no more, at every width |
| `Canvas.PutThenGet` | Device/GUI_Paint.c:176-246 | **Result.** In every rotation, mirror and scale, writing a logical pixel changes that pixel to its shade and no other |
| `Canvas.AdmittedInside` | Device/GUI_Paint.c:178-223 | **Result.** A position the guards let through is inside the buffer if and only if it is not below the last row and does not run over the end of the last row |
| `Canvas.GuardsExactly` | Device/GUI_Paint.c:178-223 | where every coordinate up to one past the canvas goes, and exactly which of them both guards let through |
| `Canvas.GuardAdmitsOverrun` | Device/GUI_Paint.c:178-223 | the coordinate one below the canvas passes both guards and addresses the byte after the buffer |
| `Canvas.TurnedOverrun` | Device/GUI_Paint.c:133-139 | 2 by 1 pixels turned by a quarter: a logical pixel passes the guards and lies after the buffer |
| `Canvas.StrayWrite` | Device/GUI_Paint.c:178-246 | **Result.** A write one past a row changes exactly the first pixel of the next row if the row has no padding, and no pixel otherwise |
| `Canvas.WriteIsPut` | Device/GUI_Paint.c:176-246 | on the canvas the guards pass and the write is that of the one pixel |
| `Canvas.WriteDraws` | Device/GUI_Paint.c:176-246 | the write changes one byte, the one at column/per + row*ceil(w/per) for the position the rotation and mirror give, in the one digit of the pixel |
| `Canvas.ClearsEvenlyExactly` | Device/GUI_Paint.c:253-277 | the stored byte shows the colour in every one of its pixels if and only if the stated test on the colour holds |
| `Canvas.ClearBytePixels` | Device/GUI_Paint.c:253-277 | what each pixel of the stored byte is, for every colour |
| `Canvas.ShowableClears` | Device/GUI_Paint.c:262-276 | it does for colours below 4 in scale 4 and below 16 in scales 6 and 7 |
| `Canvas.ClearedPixel` | Device/GUI_Paint.c:253-277 | a buffer of such bytes shows the colour at every logical pixel |
| `Paint.Painter.NewImage` | Device/GUI_Paint.c:91-116 | the derived fields agree with the settings, in scale 2 and without mirror; the record is consistent if and only if the rotation is legal and the buffer large enough |
| `Paint.Painter.SetRotate` | Device/GUI_Paint.c:133-139 | **Result.** The record stays consistent if and only if the axes stay as they were or the canvas is square |
| `Paint.QuarterTurn` | Device/GUI_Paint.c:133-139 | 2 by 1 pixels turned by a quarter leave the record inconsistent |
| `Paint.Painter.SetScale` | Device/GUI_Paint.c:141-154 | a legal scale is taken over with its row length, another changes nothing; the record stays consistent if and only if the buffer is large enough for it |
| `Paint.Painter.SetMirroring` | Device/GUI_Paint.c:160-167 | a legal mirror is taken over, another changes nothing |
| `Paint.Painter.Locate` | Device/GUI_Paint.c:183-219 | the two switches compute the coordinate map, which on the canvas is the stated arithmetic for each rotation and mirror |
| `Paint.Painter.SetPixel` | Device/GUI_Paint.c:176-246 | **Result.** The buffer changes as the write of that coordinate says, for all coordinates that stay in the buffer; on the canvas exactly one byte changes, found by the arithmetic of rotation, mirror and row length, and in it one pixel |
| `Paint.Painter.ClearWindows` | Device/GUI_Paint.c:288-296 | **Result.** For every window that stays in the buffer, the buffer after writing its coordinates in order; for a window of the canvas and a colour the scale can show, exactly the pixels of the window get the colour |
| `Paint.Painter.Clear` | Device/GUI_Paint.c:253-277 | **Result.** Every byte of the canvas and none beyond it is overwritten, and every pixel shows the colour if and only if the stored byte does in the pixels a row uses of it |
| `Paint.ClearedExactly` | Device/GUI_Paint.c:253-277 | on every canvas, uniform clearing is equivalent to that condition on the stored byte |
| `Paint.WhiteClearFails` | Device/GUI_Paint.c:258-261 | white in scale 2 never clears to a white canvas |
| `Paint.ClearIsClearWindows` | Device/GUI_Paint.c:253-296 | **Result.** A fast clear and a pixel-by-pixel clear of the whole canvas show the same picture, in every rotation and mirror |
| `Encoder.FourPixels` | tools/彩图转四色距离法和灰度法合成big.py:110-113 | the binary numeral of four pixels holds their colour codes, the first in the top bits |
| `Encoder.FourColors` | tools/彩图转四色距离法和灰度法合成big.py:110-113 | black, white, yellow and red make the byte 0x1B |
| `Encoder.EncodedGroup` | tools/彩图转四色距离法和灰度法合成big.py:115-140 | there are ceil(n/4) bytes, each that of its four pixels, or of the fewer left at the end |
| `Encoder.EncodersAgree` | tools/彩图转四色距离法和灰度法合成big.py:115-140 | **Result.** For widths divisible by 4 the converter's bytes are the only buffer in which the canvas shows the picture |
| `Encoder.PaintPicture` | Device/GUI_Paint.c:232-238 | **Result.** Painting every pixel shows the picture and leaves exactly the converter's bytes |
| `Lines.EspClosed` | Device/GUI_Paint.c:354-389 | after jx and jy steps the error term is (jy+1)*dx - (jx+1)*dy |
| `Lines.Advance` | Device/GUI_Paint.c:376-389 | the two tests move by one pixel at most in each direction, to the next row of a steep line or column of a flat one, and keep the error term and the rule that fixes the position, or stop on the end point |
| `Lines.DrawLine` | Device/GUI_Paint.c:346-390 | **Result.** The points are numbered by the rows of a steep line or the columns of a flat one and lie where the stated rule puts them, from the start on, in their colours; the end point is drawn if and only if not (dy < dx <= 2*dy) |
| `Lines.LineMeaning` | Device/GUI_Paint.c:354-389 | every point lies in the bounding box, within the stated distance of the ideal line and where the rule puts it, next to the one before, coloured in threes if dotted |
| `Lines.LineUnique` | Device/GUI_Paint.c:346-390 | **Result.** Only one sequence of points meets the contract of a line |
| `Lines.RuledUnique` | Device/GUI_Paint.c:377-388 | the rule leaves one position for each row of a steep line and each column of a flat one, ties included |
| `Lines.EndPointDrawn` | Device/GUI_Paint.c:377-388 | **Result.** The end point is drawn if and only if not (dy < dx <= 2*dy) |
| `Lines.EndPointMissed` | Device/GUI_Paint.c:377-388 | the line from (0,0) to (2,1) does not draw its end point |
| `Lines.WalkingFits` | Device/GUI_Paint.c:354-389 | with 16-bit extents no value of the loop leaves 32 bits |
| `Lines.AxisLine` | Device/GUI_Paint.c:346-390 | **Result.** A horizontal or vertical line passes exactly its closed segment |
| `Lines.DrawRectangle` | Device/GUI_Paint.c:403-422 | **Result.** Exactly the perimeter, or filled exactly the closed x range times the rows from ystart up to but not including yend, every point in the given colour |
| `Circles.EspMeans` | Device/GUI_Paint.c:443-490 | the error term is 2(x+1)^2 + y^2 + (y-1)^2 - 2r^2 |
| `Circles.OctantFits` | Device/GUI_Paint.c:443-490 | no 16-bit value overflows for radii up to 8345 |
| `Circles.FirstDropWraps` | Device/GUI_Paint.c:443-490 | for every larger radius up to 16385 the first drop leaves the 16-bit range (above, the start value does) |
| `Circles.WrapAt8346` | Device/GUI_Paint.c:462-470 | at radius 8346 the first drop gives -32773, held as 32763 |
| `Circles.StepOctant` | Device/GUI_Paint.c:462-490 | for every 16-bit radius the update, wrapping or not, stays in a phase that is sound, with -y <= x^2+y^2-r^2 < y, or ahead by a multiple of 65536, or has spoilt a column; y-x decreases |
| `Circles.DrawCircle` | Device/GUI_Paint.c:435-491 | **Result.** For every 16-bit radius: the call ends unless it fills radius 32767, and if and only if the radius is at most 8345 the offsets are exactly those with u^2+v^2 < r^2 + max, filled, or with -max <= u^2+v^2-r^2 < max, hollow, where max is the larger of the two in absolute value |
| `Circles.WalkExact` | Device/GUI_Paint.c:443-490 | **Result.** A walk that never wrapped determines both figures, ties included |
| `Circles.FilledCircle` | Device/GUI_Paint.c:451-470 | every lattice offset with u^2+v^2 <= r^2 is included and none with u^2+v^2 > r^2+r, for a walk that never wrapped |
| `Circles.HollowCircle` | Device/GUI_Paint.c:471-490 | each offset is within its larger coordinate of the circle, the figure is symmetric and closed, and every column up to the diagonal is present |
| `Circles.SpoiltFigure` | Device/GUI_Paint.c:443-490 | a walk that wrapped leaves out a point of the disc and draws one too far inside |
| `Circles.FillNeverEnds` | Device/GUI_Paint.c:450-461 | the 16-bit counter of the filling loop never exceeds 32767 |
| `Text.DrawCharRow` | Device/GUI_Paint.c:503-539 | the pointer walk along a bitmap row reads each byte at its closed-form index and advances by one row |
| `Text.DrawChar` | Device/GUI_Paint.c:503-539 | **Result.** The pixels drawn are those of the character's bitmap, row by row; each pixel of the rectangle is foreground or background as its bit in the table, found by arithmetic, says, and nothing is drawn outside |
| `Text.GlyphShows` | Device/GUI_Paint.c:518-533 | **Result.** The pixel at (x+col, y+row) is foreground if and only if table[i] / 2^(7-col%8) % 2 is 1 with i = n*height*ceil(width/8) + row*ceil(width/8) + col/8, and background if not, unless that is white |
| `Text.SetIsTableBit` | Device/GUI_Paint.c:518-535 | the tested bit of the byte under the pointer is that bit of the table |
| `Text.GlyphHas` | Device/GUI_Paint.c:503-539 | the pixels drawn are exactly those of the cells: none lies outside the character's rectangle |
| `Text.SlotOnScreen` | Device/GUI_Paint.c:551-581 | slot n is at column n mod cols and row (n div cols) mod rows, wholly on screen |
| `Text.WrapToNext` | Device/GUI_Paint.c:562-573 | the two overflow tests lead from slot n to slot n+1 |
| `Text.DrawString` | Device/GUI_Paint.c:551-581 | **Result.** Character n of any string is drawn in slot n if the first cell fits; if not, the first character is already partly off screen |
| `RingList.MutuallyInverse` | LiteOS/utils/los_list.h:75-79 | next and prev are inverse on a ring and stay in it |
| `RingList.ListInit` | LiteOS/utils/los_list.h:75-79 | the node is a ring of its own |
| `RingList.ListAdd` | LiteOS/utils/los_list.h:122-128 | the ring has the new node right after the given one |
| `RingList.ListTailInsert` | LiteOS/utils/los_list.h:149-152 | the ring has the new node at its end |
| `RingList.ListHeadInsert` | LiteOS/utils/los_list.h:173-176 | the ring has the new node right after the head |
| `RingList.ListDelete` | LiteOS/utils/los_list.h:198-204 | the ring is without the node, whose links are null |
| `RingList.ListEmpty` | LiteOS/utils/los_list.h:227-230 | true if and only if the ring has no elements |
| `RingList.ListDelInit` | LiteOS/utils/los_list.h:351-356 | the ring is without the node, which is a ring of its own |
| `RingList.ForEach` | LiteOS/utils/los_list.h:377-378 | **Result.** Every element is visited exactly once, in order |
| `RingList.ForEachSafe` | LiteOS/utils/los_list.h:400-402 | **Result.** Every element is visited exactly once, in order, although the body deletes any of them, and the ring left holds the others |
| `RingList.PerformAll` | LiteOS/utils/los_list.h:122-204 | **Result.** Every legal sequence of insertions and deletions keeps one ring that represents the expected sequence |
| `Dither.Quantise` | tools/彩图转四色距离法和灰度法合成big.py:20-45 | pixel plus received error is output plus quantisation error, and that error stays in [t-255, t] |
| `Dither.Diffuse` | tools/彩图转四色距离法和灰度法合成big.py:20-45 | the four guarded additions give each neighbour its share, and the error array grows by what stays inside |
| `Dither.StableNext` | tools/彩图转四色距离法和灰度法合成big.py:20-45 | every cell's received error stays within its received shares of the extreme errors |
| `Dither.BalancedNext` | tools/彩图转四色距离法和灰度法合成big.py:20-45 | one pixel keeps the balance of input, received, output and lost amounts |
| `Dither.FloydSteinberg` | tools/彩图转四色距离法和灰度法合成big.py:20-45 | **Result.** Every pixel is thresholded on its value plus the shares of its four senders' errors, each error stays in [t-255, t], and the input sum is the output sum plus exactly the shares that fell outside |
| `Dither.FinishedUnique` | tools/彩图转四色距离法和灰度法合成big.py:20-45 | the pixel-by-pixel account determines every output and every error |
| `Dither.DitheredUnique` | tools/彩图转四色距离法和灰度法合成big.py:20-45 | **Result.** Only one image meets the contract of the algorithm |
| `Dither.NothingLostInside` | tools/彩图转四色距离法和灰度法合成big.py:20-45 | away from the left, right and bottom borders no share is lost |

## Left out

- Circles.DrawCircle: offsets from the centre are recorded, not the footprint that the point routine draws around each.
- Packer.PackImageToFrames: console output and file output. The script has unresolved merge markers; the side with the CRC is modelled.
- Paint.Painter.SetPixel: coordinates that lead outside the buffer (Canvas.AdmittedInside says which do), rotations other than the four legal ones, and wrap-around of a 32-bit address.
- Paint.Painter.ClearWindows: windows that lead outside the buffer (Canvas.AdmittedInside says which coordinates do).
- Panel.Epd.DisplayImage: buffers shorter than the fixed 8000 bytes the code reads.
- Text.DrawChar: characters below the space and characters beyond the font table, for which the code reads outside the table; coordinates are unbounded, where the code passes x+col and y+row as 16-bit numbers, which matters only within a character of 65535.
- Lines.DrawLine: coordinates are unbounded integers; Lines.WalkingFits says that no value of the loop leaves 32 bits.
- RingList.PerformAll: operations that insert a node already in the list or delete one that is not an element; a head deleted from itself.
- Dither.FloydSteinberg: reals stand for 32-bit floats, so rounding is not modelled; the grid is a value that each step replaces, so update in place is not captured.
- Transfer.TimelyRun: kernel events are one bit that is set, and read and cleared; delays, the busy line and console output are single steps or absent. The shared record's packet counters, which no code reads, are not modelled.
- Receiver.Parser.RecDataProcessing: the `default` branch, which no reachable state takes. WIFI_UART_ISSUES.md describes an older receiver with a 1022-byte buffer; the code is followed.
- The footprint and edge behaviour of the point routine, numbers, decimals, Chinese text, time and bitmaps in the drawing library.
- Modem AT commands and their validation, buttons, the menu thread, full initialisation and cleaning of the panel.
- The three-colour dithering with its distance computation and resizing.
- Kernel internals (scheduler, memory, event groups) and the container arithmetic that finds a record from its list node.
- Font tables, stored pictures, clock and peripheral set-up.
