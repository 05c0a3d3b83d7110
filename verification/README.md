# A verification model of the Nios II flight simulator's integer core

The flight simulator is a C++ game on a Nios II soft core, over a board support
package of C drivers and a small runtime library. This project models the integer
and stateful code of both in Dafny 4.11 and proves what that code is for.

    dafny verify dfyconfig.toml

## What is modelled

- `machine.dfy`: 16-bit and 32-bit words, wrap-around and truncating division.
- `ring.dfy`, `jtag_uart.dfy`, `jtag_threads.dfy`: the interrupt-driven JTAG UART driver. A writing and a
  reading thread use two 2048-byte rings that they share, without locks, with an
  interrupt routine and a once-a-second alarm. A thread can be preempted between
  any two accesses to shared state, between any two bytes of a copy, and the device
  moves between any two register accesses of the interrupt routine. Each thread is
  proved against every step that the other can take, and a single thread that does
  both is the case in which there is no other. What is proved
  is conservation in both directions, that no direction sleeps while it has work,
  what every return value means, and that the interrupt routine ends, with nothing
  left pending. `activity` is
  an arbitrary bound on the outside events of the run under study, so the contracts
  speak of every finite prefix of every interleaving; a call that is still spinning
  when the prefix ends reports `Waiting`. `jtag_threads.dfy` runs a writer and a reader
  side by side, each as a program counter with its locals under an arbitrary schedule,
  and gives both call logs in one statement.
- `bresenham.dfy`, `triangles.dfy`, `triangle_accuracy.dfy`, `primitives.dfy`: the
  rasterisers. Lines are the nearest pixels to the ideal line; triangles do not
  depend on the order of their vertices and are within a pixel (two, at a split
  edge) of the exact triangle; both are also stated point by point by integer products
  alone. Drawing changes exactly those pixels of the buffer.
- `display.dfy`: double buffering. The display repaints the objects of two frames
  ago in the erase colour instead of clearing, and this is proved to leave the same
  picture as clearing and painting, for every run.
- `alarms.dfy`: the alarm list on a 32-bit tick counter that wraps, against an
  unbounded tick count.
- `video_dma.dfy`: the video DMA driver. Its fill loops for two addressing modes and
  three data widths leave memory as pixel-by-pixel drawing would, and what that
  leaves in memory is stated byte by byte.
- `fd_table.dfy`: file descriptors with exclusive locks.
- `ps2_keyboard.dfy`: the scan code decoder, which behaves as a queue of codes.
- `log_printf.dfy`: number printing.
- `time_of_day.dfy`: setting and getting the time of day.

State that the sources update in place is a class here, and arrays stay arrays. A
method is proved against a function or predicate of the old state, and the lemmas
are about those. `ghost` fields keep histories: bytes sent and received, firings of
an alarm, the objects of recent frames.

## What turned out not to hold

- `alt_fd_lock` looks below the high-water mark only, so a lock can be granted while
  the highest descriptor is open on the same device, against its comment.
  `FdTable.GrantExact` says exactly when the holder is alone, and
  `FdTable.LockMissesHighest` is a run that shows the failure.
- The comment of `alt_fd_lock` says that closing the descriptor releases the lock.
  That holds if and only if it is not one of the standard three
  (`FdTable.CloseUnlocks`); `FdTable.CloseKeepsLock` is a run that shows the failure.
- An alarm interval of 2^32-1 fires at the next tick unless the counter is about to
  wrap (`Alarms.StartTooLong`).
- With three distinct rows a pixel on the long edge of a triangle can be missed
  (`TriangleAccuracy.LongEdgeMissed`). Which points are missed is an if and only if
  (`TriangleAccuracy.MissedExactly`), none is when the split is exact or truncated
  away from the middle vertex (`TriangleAccuracy.NothingMissed`), and points at least
  a column away from the long edge never are. All of this is for moderate triangles:
  beyond coordinate differences of 46340 the products of an edge can overflow.
- The clock is steady between two wraps of the tick counter if and only if the tick
  rate is not one a second and either divides a million or exceeds it
  (`TimeOfDay.SteadyExactly`). At one tick a second the 32-bit seconds overflow first
  (`TimeOfDay.SecondsOverflow`), and at the wrap the clock always goes back
  (`TimeOfDay.WrapGoesBack`).
- The time of day is exact if and only if the 32-bit product at the time of setting
  wrapped a multiple of 15625 times, in practice never, and, for a reading before the
  epoch, the fraction found is not negative: otherwise the reading is clamped to the
  epoch (`TimeOfDay.ExactExactly`, `TimeOfDay.ClampedToEpoch`).
- The backslash key is reported as a character with no character
  (`Ps2Keyboard.CharacterMissing`). Stray prefix bytes are swallowed, so that E0 E0 b
  is a long break (`Ps2Keyboard.DoubledPrefix`); `Ps2Keyboard.SentExactly` says which
  runs of prefix bytes are reported as what was sent.
- The constructor of `Display` leaves frame 0 to be painted into the buffer that was
  on the screen before, so the picture is right from frame 1 on. The erase loop reads
  the front of the deque without a check; `DrawFrame` requires exactly that it is not
  empty by then. A write of no bytes returns an error code.

## Model

| member | source | states |
|---|---|---|
| `Ring.PublishChunk` | bsp/drivers/src/altera_avalon_jtag_uart_write.c:122-126 | Advancing tx_in over n bytes already stored after it appends exactly those bytes to what the consumer sees, as long as they do not wrap past the end or fill the last slot. |
| `Ring.WriteFree` | bsp/drivers/src/altera_avalon_jtag_uart_write.c:122 | A byte stored in a slot outside the waiting bytes changes nothing that the consumer sees. |
| `Ring.PushOne` | bsp/drivers/src/altera_avalon_jtag_uart_init.c:149-150 | Storing a received byte and advancing rx_in, with a free slot left, appends that byte to the waiting ones, across the wrap. |
| `Ring.ReleaseChunk` | bsp/drivers/src/altera_avalon_jtag_uart_read.c:136-140 | The n bytes from rx_out on are the n oldest, and advancing rx_out drops exactly those. |
| `Ring.PopOne` | bsp/drivers/src/altera_avalon_jtag_uart_init.c:176-178 | The byte at tx_out is the oldest, and advancing tx_out drops only it. |
| `JtagUart.Room` | bsp/drivers/src/altera_avalon_jtag_uart_write.c:109-114 | The chunk size never runs past the buffer or makes a full ring look empty, is maximal, and is zero only when the ring is full. |
| `JtagUart.Driver.constructor` | bsp/drivers/src/altera_avalon_jtag_uart_init.c:66-100 | A fresh driver satisfies the invariant, with receive interrupts on and transmit interrupts off. |
| `JtagUart.Driver.ReadControl` | bsp/drivers/src/altera_avalon_jtag_uart_init.c:119 | RI and WI are reported exactly when the device has a reason for the interrupt, it is enabled, and a byte waits or there is room. |
| `JtagUart.Driver.ReceiveByte` | bsp/drivers/src/altera_avalon_jtag_uart_init.c:144-150 | A valid byte leaves the device FIFO and joins the ring; nothing is lost, duplicated or reordered, and no unread byte is overwritten. |
| `JtagUart.Driver.ServiceReceive` | bsp/drivers/src/altera_avalon_jtag_uart_init.c:125-167 | The receive half of the interrupt routine keeps every invariant, turns RE off only when the ring is full, and gets work done whenever the hardware is quiet. |
| `JtagUart.Driver.TransmitByte` | bsp/drivers/src/altera_avalon_jtag_uart_init.c:176-178 | The oldest waiting byte, and no other, moves to the device FIFO. |
| `JtagUart.Driver.ServiceTransmit` | bsp/drivers/src/altera_avalon_jtag_uart_init.c:169-195 | The transmit half keeps every invariant, never overfills the device FIFO, turns WE off only when the ring is empty, and gets work done. |
| `JtagUart.Driver.Irq` | bsp/drivers/src/altera_avalon_jtag_uart_init.c:117-196 | When the routine returns, neither a receive nor a transmit interrupt is pending; with the hardware quiet, one pending at entry means that work was done, until the receive FIFO is empty or the ring full, and until there is nothing to send or no room for it. It terminates, keeps every invariant, never removes waiting received bytes and never lengthens the transmit ring. |
| `JtagUart.Driver.Timeout` | bsp/drivers/src/altera_avalon_jtag_uart_init.c:203-225 | The alarm counts seconds without host activity, saturating below INT_MAX, and leaves the interrupt enables as they were. |
| `JtagUart.Driver.ReaderStep` | bsp/drivers/src/altera_avalon_jtag_uart_read.c:136-194 | Any access of a reading thread keeps the invariant and moves bytes only from the ring to the reader. |
| `JtagUart.Driver.WriterStep` | bsp/drivers/src/altera_avalon_jtag_uart_write.c:122-139 | Any access of a writing thread keeps the invariant. |
| `JtagUart.Driver.PreemptWriter` | bsp/drivers/src/altera_avalon_jtag_uart_init.c:105-225 | Whatever hardware, interrupts, alarms and a reading thread do between two accesses of the writer keeps the invariant, loses nothing received, and touches nothing that the writer owns. |
| `JtagUart.Driver.PreemptReader` | bsp/drivers/src/altera_avalon_jtag_uart_init.c:105-225 | Likewise for the reader, with a writing thread at work: the waiting bytes stay and only more are appended. |
| `JtagUart.Driver.CopyIn` | bsp/drivers/src/altera_avalon_jtag_uart_write.c:122 | The chunk arrives intact although interrupts run between its bytes, and no unsent byte is overwritten although tx_out was read earlier. |
| `JtagUart.Driver.Publish` | bsp/drivers/src/altera_avalon_jtag_uart_write.c:126 | Publishing makes exactly the chunk part of the accepted stream, and leaves the writer owing an enable of WE. |
| `JtagUart.Driver.FillRing` | bsp/drivers/src/altera_avalon_jtag_uart_write.c:103-127 | A prefix of the data is accepted, in order; it stops short only because the ring was full when tx_out was last read. |
| `JtagUart.Driver.EnableTransmit` | bsp/drivers/src/altera_avalon_jtag_uart_write.c:136-139 | Setting WE in the shadow word and the device leaves the two equal and RE as it was, and settles what the writer owed. |
| `JtagUart.Driver.Write` | bsp/drivers/src/altera_avalon_jtag_uart_write.c:83-215 | A positive return r means that exactly the first r bytes were accepted, a negative one that none was; less than everything only for a non-blocking caller or a quiet host, and with nothing else going on only if the ring is full and waiting is refused or the timeout over; afterwards a non-empty ring has WE on. |
| `JtagUart.Driver.AwaitTransmit` | bsp/drivers/src/altera_avalon_jtag_uart_write.c:183-184 | The spin ends only when tx_out has moved or the host is judged inactive, and keeps the invariant throughout. |
| `JtagUart.Driver.CopyOut` | bsp/drivers/src/altera_avalon_jtag_uart_read.c:136 | The caller gets the n oldest bytes although interrupts append more meanwhile; the rest of its buffer is untouched. |
| `JtagUart.Driver.DrainRing` | bsp/drivers/src/altera_avalon_jtag_uart_read.c:119-142 | What is put in the buffer is the next stretch of the received stream; it stops short only when the ring was seen empty. |
| `JtagUart.Driver.EnableReceive` | bsp/drivers/src/altera_avalon_jtag_uart_read.c:191-194 | Setting RE leaves shadow and device equal and WE as it was, and settles what the reader owed. |
| `JtagUart.Driver.Read` | bsp/drivers/src/altera_avalon_jtag_uart_read.c:100-203 | A positive return r means that the next r bytes of the stream are in the first r places, a negative one that nothing moved; a blocking read with space fails only if the host was judged inactive during the call or before it; afterwards RE is on unless the ring is full. |
| `JtagUart.Driver.AwaitReceive` | bsp/drivers/src/altera_avalon_jtag_uart_read.c:173-174 | The spin ends only when rx_in has moved or the host is judged inactive. |
| `JtagUart.Driver.Close` | bsp/drivers/src/altera_avalon_jtag_uart_init.c:241-254 | Success while the host is active means that every accepted byte has reached the device; -EWOULDBLOCK, that output waited and the host is not judged inactive. |
| `JtagUart.Driver.Run` | bsp/drivers/src/altera_avalon_jtag_uart_write.c:83-215 | For every sequence of writes, reads and closes by one thread under every interleaving: bytes at the host, in the device and in the ring are, in order, the bytes that writes claimed; bytes that reads returned, in the ring and in the device are, in order, what the host sent; and no direction is asleep while it has work. |
| `JtagUart.Driver.RunWriter` | bsp/drivers/src/altera_avalon_jtag_uart_write.c:83-215 | The same for the writes of a thread whose every access may be followed by any accesses of a reading thread. |
| `JtagUart.Driver.RunReader` | bsp/drivers/src/altera_avalon_jtag_uart_read.c:100-203 | The same for the reads of a thread whose every access may be followed by any accesses of a writing thread. |
| `JtagThreads.Threads.constructor` | bsp/drivers/src/altera_avalon_jtag_uart_init.c:66-100 | A writer and a reader that have yet to call satisfy the invariant of both. |
| `JtagThreads.Threads.MeasureRoom` | bsp/drivers/src/altera_avalon_jtag_uart_write.c:106-120 | The writer goes on to copy unless the ring is full at the moment it reads tx_out, and what it is about to copy fits. |
| `JtagThreads.Threads.StoreNext` | bsp/drivers/src/altera_avalon_jtag_uart_write.c:122 | One byte more of the copy is in place, and none of the waiting output is touched. |
| `JtagThreads.Threads.PublishAll` | bsp/drivers/src/altera_avalon_jtag_uart_write.c:123-126 | The whole chunk becomes accepted output. |
| `JtagThreads.Threads.KickInterrupt` | bsp/drivers/src/altera_avalon_jtag_uart_write.c:136-151 | WE is on, and the write returns or waits. |
| `JtagThreads.Threads.WriterWaits` | bsp/drivers/src/altera_avalon_jtag_uart_write.c:183-188 | The spin goes on exactly while tx_out is where it was and the host is not judged inactive, and the write is given up exactly if host_inactive is not 0. |
| `JtagThreads.Threads.WriterMoves` | bsp/drivers/src/altera_avalon_jtag_uart_write.c:83-215 | Any step of a write or close keeps what the writer relies on, and gets on; a write that returns short has a caller that does not wait or a quiet host, a close that succeeds an empty ring or an inactive one, and a close that does not a caller that does not wait. |
| `JtagThreads.Threads.MeasureStretch` | bsp/drivers/src/altera_avalon_jtag_uart_read.c:121-134 | The reader goes on to copy exactly when the ring is not empty at the moment it reads rx_in. |
| `JtagThreads.Threads.ReleaseAll` | bsp/drivers/src/altera_avalon_jtag_uart_read.c:136-140 | The bytes copied one by one are the oldest of the ring, and exactly those leave it. |
| `JtagThreads.Threads.ReaderWaits` | bsp/drivers/src/altera_avalon_jtag_uart_read.c:173-178 | The spin goes on exactly while rx_in is where it was and the host is not judged inactive, and the read is given up exactly if rx_in has not moved. |
| `JtagThreads.Threads.ReaderMoves` | bsp/drivers/src/altera_avalon_jtag_uart_read.c:100-203 | Any step of a read keeps what the reader relies on, and gets on; a read with room that returns nothing does so at a moment when the ring is empty. |
| `JtagThreads.Threads.WriterTurn` | bsp/drivers/src/altera_avalon_jtag_uart_write.c:83-215 | A step of the writer breaks nothing that the reader relies on at its place. |
| `JtagThreads.Threads.ReaderTurn` | bsp/drivers/src/altera_avalon_jtag_uart_read.c:100-203 | Nor a step of the reader what the writer relies on. |
| `JtagThreads.Threads.OutsideTurn` | bsp/drivers/src/altera_avalon_jtag_uart_init.c:105-225 | Nor an interrupt, an alarm or the hardware. |
| `JtagThreads.Threads.Run` | bsp/drivers/src/altera_avalon_jtag_uart_write.c:83-215 | For every schedule of a writing thread, a reading thread, interrupts, alarms and hardware, one statement with both logs: what completed writes claimed, and the write under way has published, is at the host, in the device and in the ring, in order; what the host sent has been returned by completed reads, is with the read under way, or is in the ring and the device, in order; and no direction is asleep while it has work, unless its thread is on its way to wake it. |
| `Bresenham.ErrStep` | software/src/display/primitives.cpp:58-62 | The error accumulator stays in (-dx, 0] and alone decides when the minor coordinate moves, in agreement with the closed form. |
| `Bresenham.HalfPixel` | software/src/display/primitives.cpp:48-62 | Every pixel is within half a pixel of the ideal line: twice the error is at most dx. |
| `Bresenham.NearestOnly` | software/src/display/primitives.cpp:48-62 | The minor offset drawn is the one integer nearest to the ideal line, ties going toward the start: an if and only if. |
| `Bresenham.EndsHit` | software/src/display/primitives.cpp:48-62 | The walk starts and ends exactly on the two ends. |
| `Bresenham.NextPixel` | software/src/display/primitives.cpp:54-62 | One turn of the loop takes the accumulator and the minor coordinate to their values at the next major coordinate. |
| `Bresenham.SameBothWays` | software/src/display/primitives.cpp:43-46 | Swapping the end points gives the same set of pixels. |
| `Bresenham.BothEnds` | software/src/display/primitives.cpp:38-56 | Both given points are among the pixels, for every direction and slope. |
| `Bresenham.CloseToIdeal` | software/src/display/primitives.cpp:38-63 | In the caller's coordinates: every pixel is within half a pixel of the line and inside the box of its ends. |
| `Bresenham.CoversExactly` | software/src/display/primitives.cpp:32-64 | A flat line drawn from left to right, said without the loop: a point is on it if and only if it is in a column between the ends and nearest there to the ideal line, ties going to the start's row. |
| `Bresenham.Transposed` | software/src/display/primitives.cpp:38-41 | A steep line is a flat one with the axes exchanged. |
| `Bresenham.Point` | software/src/display/primitives.cpp:38-56 | A line from a point to itself is that point. |
| `Bresenham.OneEach` | software/src/display/primitives.cpp:54-62 | Every column of a flat line, and every row of a steep one, has exactly one pixel between the ends. |
| `Bresenham.EightConnected` | software/src/display/primitives.cpp:54-62 | Consecutive pixels are neighbours in one of eight directions. |
| `Triangles.SortPermutes` | software/src/display/primitives.cpp:82-93 | The constructor leaves a permutation of the vertices in row order. |
| `Triangles.OneRow` | software/src/display/primitives.cpp:180 | Three vertices in one row paint nothing. |
| `Triangles.AnyOrder` | software/src/display/primitives.cpp:79-165 | All six orders of three vertices paint the same pixels, ties included. |
| `Triangles.EdgeExact` | software/src/display/primitives.cpp:191-192 | With coordinate differences up to 46340 the edge product does not overflow 32 bits and the edge stays between its ends. |
| `Triangles.EdgeSides` | software/src/display/primitives.cpp:191-192 | A column is at or left of a computed edge, or at or right of it, exactly as integer products say: the exact edge moved toward its upper end by less than a column. |
| `Triangles.FlatBottomExactly` | software/src/display/primitives.cpp:167-200 | Which points a flat-bottomed triangle paints, by products alone: an if and only if. |
| `Triangles.FlatTopExactly` | software/src/display/primitives.cpp:202-235 | And a flat-topped one. |
| `Triangles.SplitExactly` | software/src/display/primitives.cpp:157-162 | And one with three distinct rows. |
| `Triangles.SplitExact` | software/src/display/primitives.cpp:158-161 | Under the same bound the split point is exact arithmetic, lies between x1 and x3, and fits in 16 bits. |
| `Triangles.FanOrdered` | software/src/display/primitives.cpp:191-195 | In a flat-bottomed half the left edge never passes the right one. |
| `Triangles.FanFromBelow` | software/src/display/primitives.cpp:225-229 | Nor in a flat-topped half, although each edge is measured from its own upper end. |
| `Triangles.SpansOrdered` | software/src/display/primitives.cpp:153-235 | Every row span that a triangle draws, in either half and for every order of columns, is in order before clipping. |
| `TriangleAccuracy.EdgeClose` | software/src/display/primitives.cpp:191-192 | A computed edge is less than one column from the exact crossing. |
| `TriangleAccuracy.FlatBottomAccurate` | software/src/display/primitives.cpp:167-200 | Every lattice point of the closed flat-bottomed triangle is covered and nothing a full column outside it is. |
| `TriangleAccuracy.FlatTopAccurate` | software/src/display/primitives.cpp:202-235 | The same for flat-topped triangles. |
| `TriangleAccuracy.SplitAccurate` | software/src/display/primitives.cpp:157-162 | With three distinct rows nothing two columns outside a row's exact span is covered, and every lattice point inside at least one column from the long edge is. |
| `TriangleAccuracy.EdgeRounds` | software/src/display/primitives.cpp:191-192 | Whole columns compare with a computed edge as with the exact one, on the side that truncation leaves. |
| `TriangleAccuracy.MissedExactly` | software/src/display/primitives.cpp:157-162 | Of the lattice points of the closed triangle with three distinct rows, those are covered that lie in the triangle whose long edge is bent at the split point, and no others: an if and only if, point by point. |
| `TriangleAccuracy.NothingMissed` | software/src/display/primitives.cpp:158-161 | For a moderate triangle (coordinate differences up to 46340, so that no product overflows): when the split is exact or truncated away from the middle vertex, a condition on integers, every lattice point of the closed triangle is covered. |
| `TriangleAccuracy.LongEdgeMissed` | software/src/display/primitives.cpp:158-161 | Otherwise points can be missed: a triangle for which a pixel exactly on the long edge is not covered. |
| `Primitives.PutPixel` | software/src/display/primitives.cpp:19-25 | An on-screen point changes word 512 y + x and no other; off-screen points change nothing. |
| `Primitives.DrawLine` | software/src/display/primitives.cpp:32-64 | Exactly the on-screen pixels of the ideal-line set take the colour, although the loop only accumulates errors; every other word keeps its value. |
| `Primitives.DrawRectangle` | software/src/display/primitives.cpp:71-75 | Exactly the on-screen points from x up to x + width and y up to y + height take the colour, although loop coordinates can outgrow 16 bits. |
| `Primitives.DrawImage` | software/src/display/primitives.cpp:250-260 | Pixel k of the image lands k % width columns and k / width rows from its corner, unless it is 0xFFFF or that is off the screen; every word outside the box keeps its value; in colour 0 the whole box becomes 0. |
| `Primitives.DrawFlatBottom` | software/src/display/primitives.cpp:167-200 | Exactly the clipped rows between the two computed edges are painted, with no division by zero; nothing if all three vertices are in one row. |
| `Primitives.DrawFlatTop` | software/src/display/primitives.cpp:202-235 | Exactly the clipped rows between the two computed edges are painted, with no division by zero. |
| `Primitives.DrawTriangle` | software/src/display/primitives.cpp:153-165 | Exactly the on-screen pixels of the triangle's set take the colour, in all three row cases; a triangle of one row leaves the buffer as it was. |
| `Primitives.NewTriangle` | software/src/display/primitives.cpp:79-96 | A constructed triangle is in row order and covers what its three vertices call for. |
| `Primitives.Draw` | software/src/display/primitives.cpp:15-260 | Each kind of object draws what its coordinates say, stated kind by kind without the painting function, and nothing else. |
| `Primitives.PaintedIsDrawn` | software/src/display/primitives.cpp:15-260 | The painting function, on which the results about frames rest, gives for every kind of object exactly that. |
| `DoubleBuffer.TopmostWins` | software/src/display/display.cpp:22-27 | Painting in reverse leaves at each point the ink of the first object added that has any there. |
| `DoubleBuffer.FirstOnTop` | software/src/display/display.cpp:22-27 | At each point the first object added that has ink there shows, whatever was added after it, and where none has the old word stays. |
| `DoubleBuffer.PaintStains` | software/src/display/display.cpp:30-41 | Over a blank screen, only points that some painted object would blank when erased can be non-blank. |
| `DoubleBuffer.EraseOne` | software/src/display/display.cpp:37-39 | Repainting an object in the erase colour takes it off the list of possible stains and leaves everything else blankable as before. |
| `DoubleBuffer.EraseCovers` | software/src/display/display.cpp:37-38 | Whatever an object paints, its copy in the erase colour blanks. |
| `DoubleBuffer.Display.constructor` | software/src/display/display.cpp:5-15 | After construction frame 0 is drawn into the buffer that was on the screen before, not into one of the display's own. |
| `DoubleBuffer.Display.SwapBufferBlocking` | software/src/display/display.cpp:43-47 | The controller's registers are exchanged and drawing goes to the new back buffer. |
| `DoubleBuffer.Display.ClearBuffer` | software/src/display/display.cpp:56-80 | The chosen buffer's visible part is blank and the rest of memory is as before. |
| `DoubleBuffer.Display.AddDisplayObj` | software/include/display/display.hpp:43-47 | The object joins the current frame, stamped with its number. |
| `DoubleBuffer.Display.EraseLastFrame` | software/src/display/display.cpp:30-41 | Afterwards the buffer is exactly what clearing it would leave, although from frame 2 on only the objects of frame f-2 are repainted, and those are gone from the deque. |
| `DoubleBuffer.Display.DrawCurrentFrame` | software/src/display/display.cpp:19-28 | Exactly this frame's objects are painted, last to first. |
| `DoubleBuffer.Display.DrawFrame` | software/src/display/display.cpp:82-87 | From frame 1 on, the buffer put on the screen is this frame over a cleared buffer, and the deque keeps exactly the last two frames, in order; frame 0 is painted over what was on the screen before. |
| `DoubleBuffer.Display.Animate` | software/src/display/display.cpp:82-87 | For every run in which the deque never runs dry, after each frame f >= 1 the screen shows exactly frame f over a blank background. |
| `DoubleBuffer.SeenAt` | software/src/display/display.cpp:82-87 | Such a screen, point by point: the colour of the first of the frame's objects that has any there, and 0 where none has. |
| `Alarms.TickDecides` | bsp/HAL/src/alt_tick.c:96-116 | The tick's test on wrapped times and flags is true exactly when the absolute due tick has come, and otherwise the alarm stays set for the same absolute tick. |
| `Alarms.PeriodAdds` | bsp/HAL/src/alt_tick.c:127-137 | Adding any non-zero 32-bit period sets the alarm for exactly that many ticks ahead, across a wrap. |
| `Alarms.StartSets` | bsp/HAL/src/alt_alarm_start.c:80-96 | Starting with an interval that can be expressed sets the alarm for interval + 1 ticks ahead. |
| `Alarms.StartTooLong` | bsp/HAL/src/alt_alarm_start.c:82-96 | The first tick after a start is right for every interval if and only if the interval is below 2^32-1 or the counter is about to wrap; otherwise the alarm fires 2^32-1 ticks early. |
| `Alarms.ScheduleGrows` | bsp/HAL/src/alt_tick.c:121-138 | The schedule moves strictly forward as long as callbacks return non-zero. |
| `Alarms.NothingMissed` | bsp/HAL/src/alt_tick.c:114-139 | If the next firing is still ahead, the log holds every firing that the schedule asks for. |
| `Alarms.FiredExactly` | bsp/HAL/src/alt_tick.c:114-139 | A complete log holds a tick if and only if it has come and is called for by callbacks that all asked to go on, and holds it once. |
| `Alarms.Alarm.Service` | bsp/HAL/src/alt_tick.c:102-140 | An alarm fires in a tick if and only if it is due then, is set again by what its callback returns, and asks to be removed exactly when that is 0. |
| `Alarms.Clock.Start` | bsp/HAL/src/alt_alarm_start.c:64-112 | The error results, and a started alarm at the head of the list, with its time and rollover flag, due at now + interval + 1 when that can be expressed. |
| `Alarms.Clock.Stop` | bsp/HAL/src/alt_tick.c:66-73 | Exactly the given alarm leaves the list; stopping one that is not listed changes nothing. |
| `Alarms.Clock.Tick` | bsp/HAL/src/alt_tick.c:87-148 | Every alarm listed before the tick is served once, although alarms unlink themselves during the walk; it stays listed unless its callback returned 0, and no other alarm appears. |
| `Alarms.Clock.Run` | bsp/HAL/src/alt_tick.c:87-148 | After any number of ticks and wraps, each alarm has fired for the k-th time if and only if every callback before asked to be called again and the k-th tick of its schedule has come: never early, late, twice, drifting or after a callback returned 0. |
| `Alarms.Clock.Lifetime` | bsp/HAL/src/alt_tick.c:87-148 | The same for one alarm while other alarms are started and stopped in any order between the ticks. |
| `Alarms.Clock.StartAndLive` | bsp/HAL/src/alt_alarm_start.c:64-112 | An alarm started at tick T with interval n fires first at T + n + 1, then at that tick plus the running sum of its callback's returns, whatever else happens to the clock. |
| `VideoDma.PixelAddress` | bsp/drivers/src/altera_up_avalon_video_dma_controller.c:99-113 | Both addressing modes give the same formula: row times row size plus column times width, modulo 2^32. |
| `VideoDma.PositionIs` | bsp/drivers/src/altera_up_avalon_video_dma_controller.c:99-113 | Which is y shifted by the row offset plus x times the width, or y times the resolution plus x, times the width. |
| `VideoDma.BytesOf` | bsp/drivers/src/altera_up_avalon_video_dma_controller.c:521-532 | The four bytes stored, lowest first, make up the symbol. |
| `VideoDma.Controller.Draw` | bsp/drivers/src/altera_up_avalon_video_dma_controller.c:83-121 | Off-screen points return -1 and change nothing; for on-screen ones byte k of the symbol is at the back buffer's start address, if that is asked for, or else the front's, plus the pixel's position plus k, and every other byte is as it was. |
| `VideoDma.Controller.FillRow` | bsp/drivers/src/altera_up_avalon_video_dma_controller.c:188-191 | The inner loop, stepping only an offset, stores at each pixel of the row. |
| `VideoDma.Controller.FillRows` | bsp/drivers/src/altera_up_avalon_video_dma_controller.c:186-193 | The double loop, stepping only addresses that wrap, stores at each pixel of the box. |
| `VideoDma.Controller.DrawBox` | bsp/drivers/src/altera_up_avalon_video_dma_controller.c:123-258 | For corners in any order, both addressing modes and three widths: -1 and no change when wholly off screen; else, in the buffer asked for, exactly the on-screen pixels between the corners (or of the clipped outline) show the symbol, and every other byte is as it was. |
| `VideoDma.Controller.DrawHLine` | bsp/drivers/src/altera_up_avalon_video_dma_controller.c:412-455 | In the buffer asked for, a store at the address of each pixel of the row, on the screen or not; on the screen, exactly those pixels show the symbol; nothing when the ends are reversed. |
| `VideoDma.Controller.DrawVLine` | bsp/drivers/src/altera_up_avalon_video_dma_controller.c:457-509 | In the buffer asked for, a store at the address of each pixel of the column, on the screen or not; on the screen, exactly those pixels show the symbol; nothing when the ends are reversed. |
| `VideoDma.Controller.DrawRectangle` | bsp/drivers/src/altera_up_avalon_video_dma_controller.c:511-519 | In the buffer asked for, a store at the address of each pixel of the four sides, on the screen or not; on the screen, exactly those pixels show the symbol. |
| `VideoDma.StoresArePuts` | bsp/drivers/src/altera_up_avalon_video_dma_controller.c:83-121 | For pixels of the screen, in any order and with repeats, unchecked stores leave memory as drawing each pixel would. |
| `VideoDma.OutlineOnScreen` | bsp/drivers/src/altera_up_avalon_video_dma_controller.c:511-519 | A rectangle on the screen leaves memory as drawing the pixels of its sides would. |
| `VideoDma.RowOnScreen` | bsp/drivers/src/altera_up_avalon_video_dma_controller.c:412-455 | A horizontal line on the screen leaves memory as drawing its pixels would. |
| `VideoDma.ColumnOnScreen` | bsp/drivers/src/altera_up_avalon_video_dma_controller.c:457-509 | A vertical line on the screen leaves memory as drawing its pixels would. |
| `VideoDma.Controller.ScreenFill` | bsp/drivers/src/altera_up_avalon_video_dma_controller.c:407-409 | In the buffer asked for every pixel of the screen shows the symbol, and no other byte changes. |
| `VideoDma.Controller.DrawLine` | bsp/drivers/src/altera_up_avalon_video_dma_controller.c:260-351 | -1 and no change when an end is off screen; else, in the buffer asked for, exactly the pixels of the line show the symbol, and every other byte is as it was. |
| `VideoDma.InLine` | bsp/drivers/src/altera_up_avalon_video_dma_controller.c:319-349 | The pixels of the driver's line are exactly those that the game's own line drawing covers. |
| `VideoDma.LineOnScreen` | bsp/drivers/src/altera_up_avalon_video_dma_controller.c:269-278 | No pixel of a line between two on-screen points is off the screen. |
| `VideoDma.InOutline` | bsp/drivers/src/altera_up_avalon_video_dma_controller.c:511-519 | Which pixels the four sides of a rectangle are, for ends in any order. |
| `VideoDma.StoreShows` | bsp/drivers/src/altera_up_avalon_video_dma_controller.c:521-532 | Reading memory back after a store: the symbol's bytes at its addresses, everything else unchanged. |
| `VideoDma.PixelsShow` | bsp/drivers/src/altera_up_avalon_video_dma_controller.c:83-121 | Drawing any list of pixels, in any order and with repeats, leaves the symbol in exactly those of the screen; no two pixels share a byte. |
| `VideoDma.NothingElse` | bsp/drivers/src/altera_up_avalon_video_dma_controller.c:83-121 | Drawing any list of pixels writes no byte outside the screen's pixels. |
| `VideoDma.PutsDraw` | bsp/drivers/src/altera_up_avalon_video_dma_controller.c:83-121 | Both together: if the pixels of a list on the screen are those of a region, memory shows exactly that region. |
| `VideoDma.BoxDrawn` | bsp/drivers/src/altera_up_avalon_video_dma_controller.c:123-258 | A filled box leaves the symbol in exactly the on-screen pixels between the given corners, and no other byte of memory changes. |
| `VideoDma.LineDrawn` | bsp/drivers/src/altera_up_avalon_video_dma_controller.c:260-351 | A line leaves the symbol in exactly the pixels that the game's line drawing would paint, and no other byte of memory changes. |
| `FdTable.Table.constructor` | bsp/HAL/src/alt_dev.c:118-149 | The table as linked in satisfies the invariant. |
| `FdTable.Table.GetFd` | bsp/HAL/src/alt_get_fd.c:54-101 | The lowest free descriptor is claimed and the high-water mark raised to it, or -EMFILE. |
| `FdTable.Table.ReleaseFd` | bsp/HAL/src/alt_release_fd.c:44-51 | Descriptors above 2 become free without flags; 0 to 2 and negative numbers are left alone. |
| `FdTable.Table.FileLocked` | bsp/HAL/src/alt_open.c:64-92 | -EACCES exactly when another descriptor up to the high-water mark has the device locked. |
| `FdTable.ScanFindsLock` | bsp/HAL/src/alt_open.c:79-87 | Scanning up to the high-water mark finds a lock whenever any descriptor holds one. |
| `FdTable.Table.OpenFile` | bsp/HAL/src/alt_open.c:105-171 | Open succeeds, with the lowest free descriptor, if and only if something was found, a descriptor is free, the device is not locked and the driver agrees; failure sets errno by the first of these and leaves no descriptor behind. |
| `FdTable.OpenTakes` | bsp/HAL/src/alt_open.c:126-151 | A successful open gives the lowest free descriptor to what was found, with the flags asked for and no lock, and touches no other. |
| `FdTable.OpenRefusedKeeps` | bsp/HAL/src/alt_open.c:160-168 | A refused open leaves used descriptors as they were and free ones free. |
| `FdTable.Table.FdLock` | bsp/HAL/src/alt_fd_lock.c:54-75 | The lock is granted exactly when no other descriptor below the high-water mark is open on the device; the lock bit is then set and every other bit of the flags stays. |
| `FdTable.LockTakes` | bsp/HAL/src/alt_ioctl.c:127-137 | After a granted request the descriptor holds the lock, and no other descriptor has changed. |
| `FdTable.GrantExact` | bsp/HAL/src/alt_fd_lock.c:61-69 | A sole descriptor is always granted the lock; a granted one is the sole descriptor if and only if the descriptor at the high-water mark is not another on the device. |
| `FdTable.LockMissesHighest` | bsp/HAL/src/alt_fd_lock.c:61-69 | The documented promise fails: a device opened twice is locked by its first descriptor while the second stays open. |
| `FdTable.LockKeeps` | bsp/HAL/src/alt_fd_lock.c:61-69 | Although a grant can miss a descriptor, its holder is the lowest on the device. |
| `FdTable.Table.FdUnlock` | bsp/HAL/src/alt_fd_unlock.c:52-56 | The lock bit is clear, every other bit of the flags stays, and no other descriptor changes. |
| `FdTable.UnlockReleases` | bsp/HAL/src/alt_fd_unlock.c:52-56 | While a descriptor holds the lock its device cannot be opened; after its unlock no one holds it, and an open of it succeeds if and only if a descriptor is free. |
| `FdTable.Table.Ioctl` | bsp/HAL/src/alt_ioctl.c:106-168 | Lock requests on devices are granted, refused or released without the driver; anything else gets the driver's answer, -ENOTTY or -EBADFD; errno follows a negative result. |
| `FdTable.Table.CloseFile` | bsp/HAL/src/alt_close.c:64-101 | The descriptor is released whatever the driver answers, and a negative answer is reported. |
| `FdTable.CloseFrees` | bsp/HAL/src/alt_close.c:84-88 | A closed descriptor above 2 is the one that the next open gets, unless a lower one is free; no other changes. |
| `FdTable.CloseUnlocks` | bsp/HAL/src/alt_close.c:84-88 | Closing releases the holder's lock if and only if the descriptor is not one of the standard three. |
| `FdTable.CloseKeepsLock` | bsp/HAL/src/alt_release_fd.c:44-51 | A run from start-up in which standard input is redirected to a device, locked and closed, and the lock stays. |
| `FdTable.Table.Fcntl` | bsp/HAL/src/alt_fcntl.c:66-101 | F_SETFL changes the settable flags only, F_GETFL hides the internal marks, and the error cases. |
| `FdTable.SettableRoundTrip` | bsp/HAL/src/alt_fcntl.c:84-92 | The two settable flags are read back as they were set. |
| `FdTable.OthersStay` | bsp/HAL/src/alt_fcntl.c:89-90 | Setting flags leaves every other bit as it was. |
| `FdTable.Table.Redirect` | bsp/HAL/src/alt_io_redirect.c:58-72 | A standard descriptor takes over a newly opened one, which is released; a failed open leaves it alone. |
| `FdTable.RedirectTakes` | bsp/HAL/src/alt_io_redirect.c:58-72 | The standard descriptor is then the opened one, the one it came from is free, and every other is as it was. |
| `FdTable.Keeps` | bsp/HAL/src/alt_open.c:105-171 | Every open, close, ioctl, fcntl and redirection keeps the invariant: a lock holder is a device descriptor and the lowest on its device. |
| `FdTable.AtMostOneHolder` | bsp/HAL/src/alt_fd_lock.c:61-69 | Under the invariant no device has two lock holders. |
| `FdTable.LockedNeverGrows` | bsp/HAL/src/alt_open.c:143-151 | While a device is locked, no call adds a descriptor to it. |
| `FdTable.LockStays` | bsp/HAL/src/alt_fd_unlock.c:52-56 | Only the holder's own unlock, close or redirection takes its lock away. |
| `FdTable.RunUnderLock` | bsp/HAL/src/alt_open.c:105-171 | Over any run of calls in which the holder does not give it up, a lock lasts and the set of descriptors on the device never grows. |
| `FdTable.Table.Run` | bsp/HAL/src/alt_open.c:105-171 | Any legal run of calls follows the specification and keeps the invariant. |
| `Ps2Keyboard.KeysDistinct` | bsp/drivers/src/altera_up_ps2_keyboard.c:30-38 | No two keys of the table share a make code. |
| `Ps2Keyboard.LettersAndDigits` | bsp/drivers/src/altera_up_ps2_keyboard.c:22-28 | Keys 0 to 25 are the letters A to Z, keys 26 to 35 and 86 to 95 the digits. |
| `Ps2Keyboard.Signs` | bsp/drivers/src/altera_up_ps2_keyboard.c:22-28 | The characters of the five sign keys beside them, |
| `Ps2Keyboard.Punctuation` | bsp/drivers/src/altera_up_ps2_keyboard.c:22-28 | of the five punctuation keys, |
| `Ps2Keyboard.KeypadSigns` | bsp/drivers/src/altera_up_ps2_keyboard.c:22-28 | of the keypad's signs, |
| `Ps2Keyboard.Controls` | bsp/drivers/src/altera_up_ps2_keyboard.c:22-28 | of backspace, tab, enter, escape and delete; |
| `Ps2Keyboard.NoCharacter` | bsp/drivers/src/altera_up_ps2_keyboard.c:22-28 | and no other key has one. |
| `Ps2Keyboard.LettersTyped` | bsp/drivers/src/altera_up_ps2_keyboard.c:102-137 | The make codes of the 26 letters are reported as A to Z. |
| `Ps2Keyboard.DigitsTyped` | bsp/drivers/src/altera_up_ps2_keyboard.c:102-137 | And those of the ten digits as 0 to 9. |
| `Ps2Keyboard.KeyIndex` | bsp/drivers/src/altera_up_ps2_keyboard.c:71-80 | The search returns the first key with the code, and 102 for a code of no key. |
| `Ps2Keyboard.GetNextState` | bsp/drivers/src/altera_up_ps2_keyboard.c:102-183 | Four states suffice: the machine's state stands for the whole run of prefix bytes, and a byte that ends it is reported as that run calls for. |
| `Ps2Keyboard.Decoder.DecodeScancode` | bsp/drivers/src/altera_up_ps2_keyboard.c:185-210 | A call returns the first code of the stream, or, when bytes run out, -1 with nothing pending or -2 with the prefix kept; either way nothing is lost for the calls after it. |
| `Ps2Keyboard.SplitAnywhere` | bsp/drivers/src/altera_up_ps2_keyboard.c:185-210 | Decoding is the same wherever the stream is cut, even inside a code. |
| `Ps2Keyboard.Decoder.Answer` | bsp/drivers/src/altera_up_ps2_keyboard.c:185-210 | A call takes the next code of the bytes that have arrived, and returns nothing only if there is none. |
| `Ps2Keyboard.Decoder.Run` | bsp/drivers/src/altera_up_ps2_keyboard.c:185-210 | For any schedule of arrivals and calls the decoder is a queue: each call returns the next code of what has arrived, or nothing if there is none; together they are the codes of the bytes that arrived, in order, whenever the calls are made. |
| `Ps2Keyboard.RoundTrip` | bsp/drivers/src/altera_up_ps2_keyboard.c:102-210 | Decoding what the keyboard sends for any sequence of make, long make, break and long break events gives back that sequence. |
| `Ps2Keyboard.SentExactly` | bsp/drivers/src/altera_up_ps2_keyboard.c:102-183 | A reported event is what the keyboard sent if and only if at most one prefix byte came before it, or E0 F0. |
| `Ps2Keyboard.LongBreakExactly` | bsp/drivers/src/altera_up_ps2_keyboard.c:139-176 | A code is a long break exactly after E0 and at least one more prefix byte, and came from E0 F0 exactly when those two are all. |
| `Ps2Keyboard.DoubledPrefix` | bsp/drivers/src/altera_up_ps2_keyboard.c:139-150 | The stray sequence E0 E0 b is reported as a long break. |
| `Ps2Keyboard.KeyRecognised` | bsp/drivers/src/altera_up_ps2_keyboard.c:122-137 | The make code of any key of the table is reported with that key's character, as a character exactly for the printing keys. |
| `Ps2Keyboard.CharactersExactly` | bsp/drivers/src/altera_up_ps2_keyboard.c:125-136 | A make code is reported as a character if and only if its key's character is no control character, or it is the backslash key's. |
| `Ps2Keyboard.ModeLeftIs` | bsp/drivers/src/altera_up_ps2_keyboard.c:139-183 | What a call that runs out after prefix bytes leaves in the mode. |
| `Ps2Keyboard.CharacterMissing` | bsp/drivers/src/altera_up_ps2_keyboard.c:125-130 | A code reported as a character carries none if and only if it is 0x5D, the backslash key; and 0x5D is reported as a character. |
| `LogPrintf.NumeralIsRight` | bsp/HAL/src/alt_log_printf.c:281-296 | The digits stand for the number, are below the base, and start with 0 only for 0. |
| `LogPrintf.OnlyNumeral` | bsp/HAL/src/alt_log_printf.c:281-296 | No other digits without a leading zero stand for it. |
| `LogPrintf.Console.RepChar` | bsp/HAL/src/alt_log_printf.c:106-110 | The character is sent as often as asked, and not at all for a negative count. |
| `LogPrintf.Console.CountDigits` | bsp/HAL/src/alt_log_printf.c:247-255 | The largest place value at most the number, its power of the base, and the number of digits, without overflow. |
| `LogPrintf.Console.PrintDigits` | bsp/HAL/src/alt_log_printf.c:281-296 | Dividing down from the largest place prints exactly the number's numeral. |
| `LogPrintf.Console.PrintInteger` | bsp/HAL/src/alt_log_printf.c:206-297 | For every word, sign mode, base 8, 10 or 16, padding and width, the field specified is what is printed. |
| `LogPrintf.FieldWidth` | bsp/HAL/src/alt_log_printf.c:257-279 | A field is as long as the larger of the width asked for and the digits with their sign. |
| `LogPrintf.PadsWith` | bsp/HAL/src/alt_log_printf.c:257-279 | Character by character: zeros between sign and digits if a leading zero was asked for, otherwise spaces before the sign. |
| `LogPrintf.DigitsAre` | bsp/HAL/src/alt_log_printf.c:285-290 | The digits, upper case for %X only. |
| `LogPrintf.MeaningIs` | bsp/HAL/src/alt_log_printf.c:238-245 | Signed directives read the word in two's complement, the others as it is. |
| `LogPrintf.FieldReads` | bsp/HAL/src/alt_log_printf.c:206-297 | Reading the field back gives the 32-bit value, signed or unsigned as the directive says, for every word, -2^31 included. |
| `LogPrintf.Console.PrintHex` | bsp/HAL/src/alt_printf.c:84-113 | The shift-and-mask loops print exactly the hexadecimal numeral, 0 included. |
| `LogPrintf.SameHex` | bsp/HAL/src/alt_printf.c:84-113 | %x of the small printf prints what an unpadded %x prints in the log. |
| `TimeOfDay.ElapsedExact` | bsp/HAL/src/alt_gettod.c:91-93 | When the rate divides a million, seconds plus microseconds of the reading are exactly the ticks' worth. |
| `TimeOfDay.ReadingIs` | bsp/HAL/src/alt_gettod.c:89-112 | With no time set, the 32-bit reading, through both normalising loops, is seconds plus microseconds of the ticks as long as the seconds fit. |
| `TimeOfDay.SteadyExactly` | bsp/HAL/src/alt_gettod.c:89-112 | Between two wraps of the tick counter, the reading never goes down from one tick to the next if and only if the rate is not one and either divides a million or is above it. |
| `TimeOfDay.SecondsOverflow` | bsp/HAL/src/alt_gettod.c:91 | At one tick a second the seconds overflow, and the clock goes back, before the counter wraps. |
| `TimeOfDay.SteadyFrom` | bsp/HAL/src/alt_gettod.c:89-112 | The same if and only if for the clock after a time at or after the epoch has been set that leaves room for the seconds. |
| `TimeOfDay.WrapGoesBack` | bsp/HAL/src/alt_gettod.c:89-112 | When the tick counter wraps, the clock goes back at every rate above one. |
| `TimeOfDay.Clock.SetTimeOfDay` | bsp/HAL/src/alt_settod.c:72-96 | The reset time and zone that are stored, or ENOSYS and no change without a system clock. |
| `TimeOfDay.Clock.Normalise` | bsp/HAL/src/alt_gettod.c:95-112 | The two loops keep the number of microseconds and make the fraction proper, except that a negative fraction of no time at all is clamped to zero. |
| `TimeOfDay.Clock.GetTimeOfDay` | bsp/HAL/src/alt_gettod.c:71-124 | The normalised sum of reset time and elapsed ticks, and the zone, or -ENOTSUP. |
| `TimeOfDay.WrapsMatter` | bsp/HAL/src/alt_settod.c:83-84 | The 32-bit product is right modulo a second if and only if it wrapped a multiple of 15625 times. |
| `TimeOfDay.ExactExactly` | bsp/HAL/src/alt_settod.c:80-89 | Read k ticks after it was set, the clock is the set time plus k ticks, to the microsecond and normalised, if and only if, when it was set, the product wrapped a multiple of 15625 times; for a reading before the epoch, if also the fraction found is not negative; and for a reading at the epoch itself, if that or the clamp hides what was lost. |
| `TimeOfDay.ClampedToEpoch` | bsp/HAL/src/alt_gettod.c:95-112 | A clock set 5 seconds before the epoch that reads the epoch 0.6 seconds later. |
| `TimeOfDay.ReadBack` | bsp/HAL/src/alt_gettod.c:89-112 | Set and read at once, the clock gives back any normalised time, before the epoch or after it, if the product did not wrap. |

## Left out

- JtagUart.Driver.Write: says nothing about how long a spin lasts, because the host is free to stay silent; a call that never returns is a `Waiting` in every finite prefix.
- JtagThreads.Threads.Run: says nothing about which calls complete, which depends on the schedule.
- JtagUart.Driver.Read: likewise; the semaphores that keep several writers, or several readers, apart are not modelled, so at most one thread writes and one reads.
- JtagUart.Driver.constructor: does not model a failing `alt_alarm_start`; the timeout is any positive number, which covers the value used then.
- JtagUart.Driver.Timeout: the acknowledge bit of the control register is a flag set by the hardware, and the period it returns is not used.
- JtagUart.Driver.ReadControl: when the device has a reason for an interrupt is arbitrary and changes with the hardware's steps; FIFO thresholds are not modelled.
- The register layout of the JTAG UART: its fields are records here. The small driver, the uC/OS-II branches and the build option that ignores a full FIFO are not part of this model.
- Primitives.Draw: buffers are arrays of words, so aliasing of two display buffers by address arithmetic is not modelled; the display's own two buffers and the one on the screen before it are distinct arrays.
- DoubleBuffer.Display.DrawFrame: frame numbers do not overflow 32 bits, and the wait for the vertical blank is one step.
- Images and triangles from floating-point coordinates, the camera, the meshes and the plane's physics: they depend on a library that is not part of this model.
- Alarms.Clock.Tick: a callback is the sequence of its return values, and does not start or stop alarms itself.
- Alarms.Clock.Start: requires an alarm that is not on the list, as inserting one twice breaks the list's links.
- Alarms.Clock.Stop: the list is a sequence; its links and the masking of interrupts are not modelled.
- VideoDma.PixelAddress: the mask operations are modelled for masks of low ones, which is what the driver's INIT macro sets up, together with the matching column offset and resolutions that fit the masks.
- VideoDma.PixelsShow: requires that the frame is no larger than the address space. Unaligned stores and cache effects are not modelled.
- VideoDma.Controller.DrawHLine: requires an end below 2^32-1, because the loop would never end; so do `DrawVLine` and `DrawRectangle`.
- Strings in the frame buffer, buffer swapping in the DMA driver, the character buffer, audio and the other drivers.
- FdTable.Table.OpenFile: looking up a name and the drivers' own callbacks are opaque results; `priv` is not modelled, and a device structure is either a device's or a file system's.
- FdTable.Table.Ioctl: requires an open descriptor, as the code follows its device pointer; so does `CloseFile`. The semaphore on the table is not modelled.
- The values of error numbers and of the two settable flags are those of the C library, which is not part of this repository; the proofs use only that the flags are not the two marks.
- Ps2Keyboard.KeyIndex: the tables are functions of the index. The table of long make codes is used only for key names, which are left out.
- LogPrintf.Console.PrintInteger: takes the flags of a directive already scanned; scanning the format string, %s and %c, and waiting for the device are left out.
- LogPrintf.Console.PrintHex: a mask of four ones and a shift is written as division and remainder.
- TimeOfDay.ExactExactly: requires a rate that divides a million, that the tick counter does not wrap between setting and getting, and seconds and microseconds that stay in 32 bits (`Roomy`); the time set need be neither after the epoch nor in normal form.
- TimeOfDay.SteadyFrom: requires a time set at or after the epoch and seconds that fit 32 bits until the counter wraps.
