# pingpair_dyn — a verified model of the dynamic-payload ping pair

The RF24 example sketch `pingpair_dyn` runs on two identical nodes. A strap
pin picks each node's role:

- **ping out** (initiator): the pin is left open. It sends a growing prefix of
  the fixed text `"ABCDEFGHIJKLMNOPQRSTUVWXYZ789012"` and waits up to 500 ms
  for the prefix to come back.
- **pong back** (responder): the pin is tied to ground. It echoes every valid
  frame it receives.

This project models `setup()` and `loop()` of the sketch in Dafny, as
imperative code over a class holding the sketch's globals, and proves what
the code guarantees.

Files:

- `payload.dfy`: the payload-size cursor (4..32, step 1, wrap to 4), the
  outbound template, and the 33-octet receive buffer as a function of the
  frames stored in it.
- `trace.dfy`: the radio actions as events (open pipe, start/stop listening,
  write, read). Also the disciplines over a trace:
  - half-duplex: every write sits between a stop and a start of listening;
  - echo: every write repeats the read two actions before it;
  - template writes.
- `transceiver.dfy`: the nRF24L01 as an abstract `Radio` class. It has:
  - a listening flag;
  - a receive FIFO of frames, where length 0 marks a corrupt frame;
  - a ghost trace of actions;
  - a supplied schedule of arriving frames. Slot `j` of the schedule reaches
    the FIFO just before the `j`-th availability check, and only if the
    radio is listening then.
- `timing.dfy`: the `millis()` counter as a supplied sequence of unsigned
  32-bit readings. Elapsed time is the wrapping unsigned subtraction, and
  `FirstLate` finds the first reading past the 500 ms window.
- `pingpair_dyn.dfy`: role selection and pipe choice. Also the `Sketch` class,
  with the role, the radio, `next_payload_size`, `receive_payload` (an
  `array`) and the total time spent in `delay()`. The class has
  `setup()` as its constructor and one method per branch of `loop()`.

What is proved, in the system's own terms:

- The cursor stays in [4, 32]. It moves one place round a cycle of 29 sizes
  per completed initiator tick, so from 4 it is `4 + k mod 29` after `k`
  ticks.
- The initiator writes exactly the first `next_payload_size` octets of the
  template.
- On a timeout it reads nothing and still advances the cursor.
- On a corrupt reply (length 0) it returns from `loop()` early
  (`pingpair_dyn.c:195-197`): no read, no advance, no delay.
- On a valid reply it reads the frame at the head of the FIFO and stores it,
  NUL-terminated, in the buffer.
- The wait ends at the first availability check that finds a frame, or at
  the first counter reading more than 500 ms after the start. The unsigned
  difference is used, so this also holds across the counter's wrap-around.
  One more availability check follows that late reading; a frame found then
  stays queued while the tick reports a timeout.
- The responder empties the FIFO. It echoes, in order, exactly the
  non-corrupt frames it takes, each read and then written back between a
  stop and a start of listening. Corrupt frames cause no read and no write.
- Both roles keep the half-duplex discipline and end every tick listening.
  Every write of the responder repeats the frame it read just before.

## Model

| member | source | states |
|---|---|---|
| Payload.Advance | examples_xc8/pingpair_dyn.X/pingpair_dyn.c:211-214 | the cursor update keeps the cursor in [4, 32] and moves it one place round the cycle of 29 sizes (4 + ((n - 4 + 1) mod 29)) |
| Payload.AdvanceTimes | examples_xc8/pingpair_dyn.X/pingpair_dyn.c:211-214 | any number of cursor updates keeps the cursor in [4, 32] |
| Payload.AdvanceTimesClosedForm | examples_xc8/pingpair_dyn.X/pingpair_dyn.c:73-76 | after k updates the cursor has moved k places round the cycle: 4 + ((n - 4 + k) mod 29) |
| Payload.CursorFromStart | examples_xc8/pingpair_dyn.X/pingpair_dyn.c:76 | from its initial value 4 the cursor after k updates is 4 + k mod 29 |
| Payload.CursorPeriodExact | examples_xc8/pingpair_dyn.X/pingpair_dyn.c:211-214 | the cursor comes back to any start after exactly 29 updates and not after fewer |
| Payload.Ascii | examples_xc8/pingpair_dyn.X/pingpair_dyn.c:164 | the octets of the template text, one per character, same length |
| Payload.Outgoing | examples_xc8/pingpair_dyn.X/pingpair_dyn.c:164-172 | the frame sent for cursor n has length n and is a prefix of the 32-octet template (always in bounds) |
| Payload.StoreFrame | examples_xc8/pingpair_dyn.X/pingpair_dyn.c:199-202 | after a read of f and the terminator store, the buffer holds f at its front, a NUL at index \|f\| and its old octets after that |
| Payload.StoreFrames | examples_xc8/pingpair_dyn.X/pingpair_dyn.c:227-241 | after a sequence of frames the buffer is unchanged if all were corrupt, and otherwise starts with the last valid frame followed by a NUL |
| Payload.StoreFramesSnoc | examples_xc8/pingpair_dyn.X/pingpair_dyn.c:234-241 | one more frame stores itself in the buffer, unless it is corrupt, when the buffer is left alone |
| Payload.NonEmpty | examples_xc8/pingpair_dyn.X/pingpair_dyn.c:231-236 | the frames that survive the length-0 check are non-empty and no more than were taken |
| Trace.EchoTraceSnoc | examples_xc8/pingpair_dyn.X/pingpair_dyn.c:227-258 | one more pass of the responder loop appends that frame's actions to the trace |
| Trace.ListeningAfterAppend | examples_xc8/pingpair_dyn.X/pingpair_dyn.c:175 | start listening switches receive mode on, stop listening switches it off, every other action leaves it |
| Trace.HalfDuplexAppend | examples_xc8/pingpair_dyn.X/pingpair_dyn.c:250-257 | the half-duplex discipline of two traces carries over to their concatenation |
| Trace.EchoesReadAppend | examples_xc8/pingpair_dyn.X/pingpair_dyn.c:238-253 | the echo discipline of two traces carries over to their concatenation |
| Trace.TemplateWritesAppend | examples_xc8/pingpair_dyn.X/pingpair_dyn.c:164-172 | writing only template prefixes carries over to the concatenation of two traces |
| Trace.WrittenAppend | examples_xc8/pingpair_dyn.X/pingpair_dyn.c:172 | the frames written by two traces in a row are those of the first followed by those of the second |
| Trace.ReceivedAppend | examples_xc8/pingpair_dyn.X/pingpair_dyn.c:199 | the frames read by two traces in a row are those of the first followed by those of the second |
| Trace.EchoTraceDiscipline | examples_xc8/pingpair_dyn.X/pingpair_dyn.c:249-257 | the responder's actions on any frames keep the half-duplex discipline, and every write repeats the non-empty frame read two actions earlier |
| Trace.EchoFidelity | examples_xc8/pingpair_dyn.X/pingpair_dyn.c:231-253 | the responder writes back exactly the non-corrupt frames it took, in order and unchanged, and reads exactly those |
| Trace.EchoTraceListening | examples_xc8/pingpair_dyn.X/pingpair_dyn.c:249-257 | the responder's actions leave a listening radio listening |
| Transceiver.PollStep | examples_xc8/pingpair_dyn.X/pingpair_dyn.c:227 | one more availability check uses the next slot of the schedule and appends its frames to what arrived |
| Transceiver.Radio.constructor | examples_xc8/pingpair_dyn.X/pingpair_dyn.c:86 | a freshly initialised radio is not listening, has an empty FIFO and has done nothing |
| Transceiver.Radio.OpenWritingPipe | examples_xc8/pingpair_dyn.X/pingpair_dyn.c:133 | records the pipe opened for writing and changes nothing else |
| Transceiver.Radio.OpenReadingPipe | examples_xc8/pingpair_dyn.X/pingpair_dyn.c:134 | records the child and pipe opened for reading and changes nothing else |
| Transceiver.Radio.StartListening | examples_xc8/pingpair_dyn.X/pingpair_dyn.c:175 | the radio is listening afterwards and the action is recorded |
| Transceiver.Radio.StopListening | examples_xc8/pingpair_dyn.X/pingpair_dyn.c:167 | the radio is not listening afterwards and the action is recorded |
| Transceiver.Radio.Write | examples_xc8/pingpair_dyn.X/pingpair_dyn.c:172 | records the frame sent, leaves mode and FIFO alone |
| Transceiver.Radio.Available | examples_xc8/pingpair_dyn.X/pingpair_dyn.c:180 | the next slot's frames join the FIFO if the radio listens; the answer is true exactly when the FIFO is non-empty |
| Transceiver.Radio.DynamicPayloadSize | examples_xc8/pingpair_dyn.X/pingpair_dyn.c:192-197 | reports the head frame's length (at most 32); a length-0 frame is dropped from the FIFO |
| Transceiver.Radio.Read | examples_xc8/pingpair_dyn.X/pingpair_dyn.c:199 | copies the head frame's first len octets to the buffer front, leaves the rest of the buffer, takes the frame off the FIFO and records the read |
| Timing.Elapsed | examples_xc8/pingpair_dyn.X/pingpair_dyn.c:181 | the unsigned 32-bit difference: how far the wrapping counter advanced from the start to reach the reading |
| Timing.ExpiredAcrossWrap | examples_xc8/pingpair_dyn.X/pingpair_dyn.c:178-182 | a reading 600 ms after a start just below the wrap is numerically smaller and still expires the window |
| Timing.FirstLate | examples_xc8/pingpair_dyn.X/pingpair_dyn.c:180-182 | the first reading past the 500 ms window; every earlier reading lies inside it |
| Timing.Clock.Millis | examples_xc8/pingpair_dyn.X/pingpair_dyn.c:178 | returns the next supplied counter reading and consumes it |
| PingPairDyn.RoleCode | examples_xc8/pingpair_dyn.X/pingpair_dyn.c:61 | ping out is enumeration value 1, pong back is 2 |
| PingPairDyn.RoleFromStrap | examples_xc8/pingpair_dyn.X/pingpair_dyn.c:93-96 | a high strap reading gives ping out, a low one pong back |
| PingPairDyn.FriendlyName | examples_xc8/pingpair_dyn.X/pingpair_dyn.c:106 | the printed name is indexed by the role's value and is never the "invalid" placeholder |
| PingPairDyn.WritingPipe | examples_xc8/pingpair_dyn.X/pingpair_dyn.c:131-140 | each role writes to one of the two pipe addresses |
| PingPairDyn.ReadingPipe | examples_xc8/pingpair_dyn.X/pingpair_dyn.c:131-140 | each role listens on one of the two pipe addresses |
| PingPairDyn.PipesCrossed | examples_xc8/pingpair_dyn.X/pingpair_dyn.c:131-140 | a node never listens where it writes, and each listens where the other writes |
| PingPairDyn.SetupTrace | examples_xc8/pingpair_dyn.X/pingpair_dyn.c:131-146 | the radio actions of setup leave the radio listening, with no write yet |
| PingPairDyn.PingTraceDiscipline | examples_xc8/pingpair_dyn.X/pingpair_dyn.c:167-175 | an initiator tick keeps the half-duplex discipline, writes exactly the one template prefix, and reads only the reply it reports |
| PingPairDyn.PollAfter | examples_xc8/pingpair_dyn.X/pingpair_dyn.c:180 | one availability check while listening: uses one slot of the schedule, reports whether the FIFO holds a frame, leaves the trace alone |
| PingPairDyn.AwaitReply | examples_xc8/pingpair_dyn.X/pingpair_dyn.c:178-182 | the wait stays listening; it ends with a frame queued unless it timed out; it times out exactly at the first reading past 500 ms, and no check before the last found a frame |
| PingPairDyn.Sketch.Setup | examples_xc8/pingpair_dyn.X/pingpair_dyn.c:80-146 | the strap fixes the role, the cursor starts at 4 after the 20 ms settle delay, and the role's pipes are opened before listening starts |
| PingPairDyn.Sketch.Loop | examples_xc8/pingpair_dyn.X/pingpair_dyn.c:155-260 | one tick keeps the sketch and clock invariants. For ping out: the clock moves on by one reading per availability check, the tick times out exactly at the first reading past 500 ms, the tick's actions, each check using one slot of the arrival schedule, every check before the last finding the FIFO empty, the reply taken from what arrived, the cursor advanced and 100 ms delayed unless the reply was corrupt, and the buffer changed only on an answer. For pong back: cursor, delay total and clock untouched, the FIFO emptied, one check per frame taken plus the final one that found it empty, every frame queued or arrived echoed in order, and the buffer holding the last valid one |
| PingPairDyn.Sketch.PingTick | examples_xc8/pingpair_dyn.X/pingpair_dyn.c:161-218 | the initiator tick's actions; one counter reading and one slot of the arrival schedule per availability check, with every check before the last finding the FIFO empty; its reply (timeout, corrupt or answered) taken from what arrived, the cursor advanced and 100 ms delayed unless the reply was corrupt, and the buffer updated only on an answer |
| PingPairDyn.Sketch.Exchange | examples_xc8/pingpair_dyn.X/pingpair_dyn.c:167-202 | the radio side of an initiator tick: it sends the prefix, waits, and takes the reply from the head of what arrived, one counter reading and one schedule slot per check |
| PingPairDyn.Sketch.Pace | examples_xc8/pingpair_dyn.X/pingpair_dyn.c:195-217 | after a corrupt reply the cursor and delay total are unchanged; otherwise the cursor advances with wrap-around and 100 ms is added to the delay total |
| PingPairDyn.Sketch.SendPing | examples_xc8/pingpair_dyn.X/pingpair_dyn.c:167-175 | stop listening, write the template prefix of the cursor's length, start listening |
| PingPairDyn.Sketch.TakeReply | examples_xc8/pingpair_dyn.X/pingpair_dyn.c:190-202 | a length-0 head frame is dropped and reported corrupt; otherwise it is read into the buffer, NUL-terminated and reported |
| PingPairDyn.Sketch.EchoFrame | examples_xc8/pingpair_dyn.X/pingpair_dyn.c:230-257 | one pass on the head frame: a corrupt one is only dropped; a valid one is read, stored NUL-terminated, and written back between stop and start of listening |
| PingPairDyn.Sketch.EchoNext | examples_xc8/pingpair_dyn.X/pingpair_dyn.c:237-257 | one pass extends the trace and the buffer to those of one more frame taken |
| PingPairDyn.Sketch.PongStep | examples_xc8/pingpair_dyn.X/pingpair_dyn.c:227-258 | one availability check and, if a frame is there, one pass on it; with no frame the FIFO is empty and nothing else changed |
| PingPairDyn.EachCheckFoundStep | examples_xc8/pingpair_dyn.X/pingpair_dyn.c:227 | if every earlier check found a frame and so did the latest, every check up to the next one found a frame |
| PingPairDyn.Sketch.PongTick | examples_xc8/pingpair_dyn.X/pingpair_dyn.c:224-259 | the responder tick empties the FIFO, making one availability check per frame it takes and stopping at the first that finds the FIFO empty; its actions are the echo of every frame that was queued or arrived, in order; the buffer holds the last valid one |

## Left out

- Driver internals are not part of this model: `RF24_init`, `RF24_begin`,
  `RF24_enableDynamicPayloads`, `RF24_setRetries`, `RF24_printDetails` and
  the SPI traffic. Their source is not shown. The radio is an abstract class
  with only the actions the sketch calls.
- The driver's own behaviour inside start listening (flushing its buffers,
  if it does) is not modelled. Frames stay queued across a mode switch.
- Frames reach the FIFO only at availability checks, one slot of the schedule
  per check. The hardware's three-entry FIFO limit and frames lost to a full
  FIFO are not modelled.
- The result of `RF24_write` (delivered or not) is not modelled; the sketch
  ignores it.
- Serial output is diagnostic I/O and is left out: `putch`, `Serial_*`,
  `itoa` into `buff`, and the `F()` strings.
- Pin handling (`pinMode`, `digitalWrite`, `digitalRead` on `role_pin`) is
  left out. The strap is a boolean input to `Sketch.Setup`.
- Time is modelled only as the supplied readings of `millis()`. `delay()` is
  a ghost total of milliseconds, not real waiting.
- The raw pipe address bytes are left out; only which of the two addresses a
  role uses is modelled.
- Transceiver.Radio.DynamicPayloadSize: the model drops only the corrupt
  frame at the head of the FIFO, while the driver's flush of a corrupt payload
  may discard every queued frame. Valid frames queued behind a corrupt one can
  then be lost, so `PongTick`'s "every frame queued or arrived is echoed"
  holds for the model's head-only drop and not for a whole-FIFO flush.
- The sketch's `int` cursor never leaves [4, 33] in the code, so its machine
  width plays no part and it is modelled as an unbounded integer.
- The responder's `while (RF24_available)` ends in the model only because the
  arrival schedule is a finite sequence (`PongTick` decreases on what remains
  of the schedule and of the FIFO). In the sketch, a peer that never stopped
  sending would keep the inner loop running.
- PingPairDyn.AwaitReply: it requires that some later counter reading lies
  past the window. The sketch's wait loop (`loop()` at `pingpair_dyn.c:180-182`)
  simply spins until time passes, which a finite supplied sequence of
  readings must promise.
