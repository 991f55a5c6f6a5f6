# Glovebox lift controllers, modelled in Dafny

Two small Raspberry Pi programs drive a stepper-motor controller over a
serial line. The controller speaks SCL: short ASCII commands, each ended by
a carriage return.

- `lift.py` is a two-button jog controller. It waits up to 10 s for the
  controller's power-up packet (`0xFF`, firmware, model) and answers it with
  `00` to enter SCL mode. It then polls the two buttons. A single press
  starts a jog: `SJ, JA10, JL25, JS5, DI-1` or `DI1`, then `CJ`. This burst is
  sent once per press and is suppressed while the same single button stays
  held and the other is not pressed.
  Releasing both buttons sends `SJ`. Pressing both kills the buffer with
  `SK`. Its `send_command` resets the input buffer, writes the frame, waits
  0.1 s, reads everything buffered and reports any stripped reply other than
  `%`. It catches every exception.
- `code.py` is a limit-switch lift. It first sends `VE5`, `FL1` and `DL`.
  On each tick it then reads four active-low pins (two buttons, two limit
  switches) and sends one to three commands decided from that tick's levels
  alone: `ST`, `VE20` + `DI48000`, `VE20` + `DI-48000`, or nothing when the
  one pressed button points at its own triggered limit; then `ST` if either
  limit is triggered. Its `send_command` writes the UTF-8 frame, waits
  0.1 s and reads one line. It catches `SerialException` only, so a reply that
  is not UTF-8 ends the program.

## How the model is built

- `text.dfy` (module `Text`) holds bytes, ASCII and UTF-8 encoding and
  decoding with their round trips, and Python's `str.strip` with the Unicode
  whitespace set that `str.isspace` uses.
- `serial.dfy` (module `Serial`) is the serial port. `class SerialPort` holds
  the port's state, and its methods are the pyserial calls the programs make
  (`in_waiting`, `read`, `read_all`, `readline`, `write`,
  `reset_input_buffer`) plus `time.sleep`. Each method is specified by a
  member function of the value `Channel`, a snapshot of that state:
  - the bytes received but not yet read;
  - a log of every reset, write, read and delay (`Flushed`, `Sent`,
    `Received`, `Slept`); `in_waiting` leaves no trace in it;
  - the environment, given as data. `failures` holds one flag per coming
    port operation; a set flag means that operation raises
    `SerialException`. `arrivals` holds the bytes the device delivers during
    each coming delay.

  `Written`, `ReadsOf` and `Sleeps` project the log onto the bytes written,
  the chunks read and the number of delays.
- `lift.dfy` (module `Lift`) and `limit_lift.dfy` (module `LimitLift`) model
  the two programs. Each loop or sequence of port calls is a method, and each
  method is proved equal to a specification function of the port's state:
  `SendSpec`, `PowerUp`, `TickSpec`, `LoopSpec`, `OperateSpec`. The lemmas
  then state what those functions write, read and decide.
- Time is counted in ticks. A handshake tick is one 50 ms poll, so the
  10 s deadline is `PowerUpTimeout` = 200 ticks. Processing time is
  ignored.
- The endless `while True` loops run over a finite sequence of pin samples,
  one sample per tick. A whole run is modelled by `Operate`.

The model follows the code where it does something a reader might not
expect:
- An empty reply is reported as unexpected, like any reply other than `%`
  (lift.py:41-43).
- `SJ` is sent again on every tick with no button pressed (lift.py:85-91).
- Neither program has a jog watchdog or a debounce.
- `code.py` does not reset the input buffer, so bytes left over from an
  earlier reply are read first (code.py:36-38).
- In `code.py` the `UnicodeDecodeError` of a bad reply is not caught and ends
  the program (code.py:38-41, code.py:84-88).

Two behaviours of `code.py` may not be what its authors meant. The model
states them as they are:
- Every move away from a triggered limit is followed in the same tick by
  `ST`, one reply wait later (`LeavingLimitStops`).
- A late reply is read as the reply to the next command, because the input
  buffer is never reset (`ExchangeEffect`).

## Model

| member | source | states |
|---|---|---|
| Text.AsciiEncode | lift.py:38 | `str.encode('ascii')` succeeds exactly on ASCII text and maps each character to its code |
| Text.AsciiDecode | lift.py:41 | `bytes.decode('ascii')` succeeds exactly on ASCII bytes and maps each byte to its character |
| Text.AsciiRoundTrip | lift.py:38-41 | ASCII encoding and decoding are inverse on ASCII text and ASCII bytes |
| Text.AsciiEncodeWithCR | lift.py:36-38 | `command + '\r'` is ASCII iff the command is, and encodes to the command's bytes followed by CR |
| Text.Strip | lift.py:41 | `str.strip()` keeps the longest middle part that neither starts nor ends with whitespace; everything removed is whitespace |
| Text.StripIsSingle | lift.py:41-42 | a reply strips to `%` iff it is one `%` surrounded only by whitespace |
| Text.StripBlank | lift.py:41-42 | an all-whitespace reply, the empty one included, strips to the empty string |
| Text.Utf8Encode | code.py:36 | `str.encode()` gives one to four bytes per character |
| Text.Utf8Decode | code.py:38 | the strict `bytes.decode()`: no overlong forms, no encoded surrogates, nothing above U+10FFFF and no truncated sequence are accepted; each character decoded takes one to four bytes. `Utf8RoundTrip` with `Utf8DecodeEncodes` proves it accepts exactly the outputs of `Utf8Encode` |
| Text.Utf8RoundTrip | code.py:36-38 | decoding a UTF-8 encoding gives back the text |
| Text.Utf8DecodeEncodes | code.py:38 | bytes that decode are exactly the UTF-8 encoding of the text they decode to, so the decoder accepts nothing the encoder does not produce |
| Text.EncodeDecodedScalar | code.py:38 | one decoded character re-encodes to exactly the bytes it was read from |
| Text.Utf8EncodeAppend | code.py:36 | UTF-8 encoding of a concatenation is the concatenation of the encodings |
| Text.Utf8EncodeAscii | code.py:36 | on ASCII text, the UTF-8 encoding is the ASCII encoding |
| Text.Utf8DecodeAscii | code.py:38 | on ASCII bytes, UTF-8 decoding succeeds and agrees with ASCII decoding |
| Serial.Channel.InWaiting | lift.py:18 | `in_waiting` is the number of buffered bytes, or raises |
| Serial.Channel.Read | lift.py:19 | `read(3)` takes at most 3 buffered bytes from the front and logs them, or raises |
| Serial.Channel.ReadAll | lift.py:41 | `read_all` takes every buffered byte and empties the buffer, or raises |
| Serial.Channel.ReadLine | code.py:38 | `readline` takes the buffered bytes through the first line feed (all of them if there is none), or raises |
| Serial.Channel.Write | lift.py:38 | `write` logs the bytes sent and leaves the input alone, or raises |
| Serial.Channel.ResetInput | lift.py:37 | `reset_input_buffer` discards the unread bytes, or raises |
| Serial.Channel.Sleep | lift.py:40 | a delay logs itself and appends the device's next chunk to the input |
| Serial.LineLength | code.py:38 | the first line of a buffer ends at its first line feed, or is all of it |
| Serial.ProjectionsAppend | lift.py:48-98 | what was written, read and slept over two stretches of a run is the sum of both |
| Serial.AsciiTrafficKept | code.py:36-38 | delays, writes and line reads keep ASCII traffic ASCII, and a line read from it is ASCII |
| Serial.SerialPort.InWaiting | lift.py:18 | the method behaves as `Channel.InWaiting` on the port's state |
| Serial.SerialPort.Read | lift.py:19 | the method behaves as `Channel.Read` on the port's state |
| Serial.SerialPort.ReadAll | lift.py:41 | the method behaves as `Channel.ReadAll` on the port's state |
| Serial.SerialPort.ReadLine | code.py:38 | the method behaves as `Channel.ReadLine` on the port's state |
| Serial.SerialPort.Write | lift.py:38 | the method behaves as `Channel.Write` on the port's state |
| Serial.SerialPort.ResetInputBuffer | lift.py:37 | the method behaves as `Channel.ResetInput` on the port's state |
| Serial.SerialPort.Sleep | lift.py:31 | the method behaves as `Channel.Sleep` on the port's state |
| Lift.Frame | lift.py:36-38 | a command has a frame iff it is ASCII, and the frame is its bytes followed by CR |
| Lift.Classify | lift.py:41-43 | a reply is acknowledged iff it is `%` padded with whitespace; any other reply is unexpected and carries its stripped text |
| Lift.SendCommand | lift.py:34-45 | the driver's effect on the port and its outcome are `SendSpec` of the port's state |
| Lift.TransmitEffect | lift.py:36-38 | reset, encode and write each raise exactly when stated; the log gains the flush and then the frame; the buffer is empty before the write |
| Lift.CollectEffect | lift.py:40-43 | the delay, then the read of everything buffered; each failure and each classification occurs exactly when stated |
| Lift.SendLog | lift.py:36-38 | the log only grows; the frame is written once iff the reset, encode and write succeed; it follows a flush that emptied the input |
| Lift.SendWithoutReply | lift.py:39 | with `expect_response=False` the call ends after the write: nothing is read, the input stays empty, no chunk is consumed |
| Lift.SendReadsReply | lift.py:40-41 | when nothing raises, the call flushes, writes, sleeps and reads exactly the chunk that arrived during the delay |
| Lift.SendOutcome | lift.py:34-45 | each outcome of one call occurs iff its condition holds: each exception cause, no reply awaited, acknowledged, unexpected |
| Lift.ReplyOutcome | lift.py:41-43 | when the exchange succeeds and the reply is ASCII, the outcome is the classification of the decoded reply |
| Lift.PercentIsAcknowledged | lift.py:41-42 | the reply `%\r` is acknowledged |
| Lift.QuestionMarkIsUnexpected | lift.py:41-43 | the reply `?\r` is unexpected, with text `?` |
| Lift.SilenceIsUnexpected | lift.py:41-43 | no reply at all is unexpected, with the empty text |
| Lift.WaitForPowerUp | lift.py:14-31 | the polling loop's effect on the port and its outcome are `PowerUp` from elapsed 0 |
| Lift.CheckPacket | lift.py:18-27 | one packet check on the port is `PacketCheck` of the port's state |
| Lift.CheckOutcome | lift.py:18-27 | polling goes on exactly when `in_waiting` succeeds and either fewer than 3 bytes are buffered or the 3 read do not start with `0xFF`; otherwise the loop completes or is aborted, never timed out |
| Lift.CheckCompletes | lift.py:18-27 | a poll completes the handshake exactly when it reads a frame starting `0xFF` and then writes `00` without an exception, and it reports that frame's other two bytes |
| Lift.CheckContinues | lift.py:18-20 | a poll after which polling goes on consumes either nothing or exactly the oldest 3 buffered bytes and no arriving chunk |
| Lift.CheckLog | lift.py:18-25 | one poll logs the 3-byte read, then for a `0xFF` frame the 5 ms delay and the `00` write |
| Lift.CheckReliable | lift.py:18-25 | a poll leaves a port that never raises in that condition |
| Lift.CheckProjections | lift.py:18-27 | one poll writes `00` only after reading a `0xFF` frame, and reads at most one frame |
| Lift.PowerUpEffect | lift.py:17-31 | the handshake only appends to the log |
| Lift.PowerUpWrites | lift.py:17-30 | the handshake writes exactly `00` if it completes and nothing otherwise |
| Lift.CheckReads | lift.py:18-22 | the frames of one poll are 3 bytes long; a completed poll's frame is `0xFF`, firmware, model |
| Lift.PowerUpReads | lift.py:17-30 | every frame read is 3 bytes long and only the last can start with `0xFF`; completion returns that frame's firmware and model; a timeout read no `0xFF` frame |
| Lift.PowerUpSleeps | lift.py:28-31 | a timeout takes one 50 ms delay per tick up to the deadline; from the start that is 201 delays, the count when processing time is zero |
| Lift.PowerUpNotAborted | lift.py:17-31 | on a port that never raises the handshake is not cut short by an exception |
| Lift.HandshakeAcks | lift.py:17-30 | on a port that never raises, the handshake completes iff it reads a frame starting `0xFF` and times out iff it reads none |
| Lift.FrameAtDeadline | lift.py:18-28 | the packet check comes before the deadline check, so a `0xFF` frame found at the deadline still completes the handshake |
| Lift.SilenceTimesOut | lift.py:28-30 | on a silent, reliable line the handshake times out |
| Lift.SilentController | lift.py:14-31 | from the start, a silent controller gives a timeout with nothing written, after 201 delays when processing time is zero |
| Lift.AnnouncingController | lift.py:18-27 | a controller announcing firmware 7, model 3 gets `00` and the handshake completes with those values |
| Lift.Step | lift.py:63-98 | after a tick `last_command` reflects the buttons alone (`None` for both); the 0.1 s delay follows iff both or neither button is pressed |
| Lift.StepCommands | lift.py:63-98 | each jog burst is sent iff its single press is new, `SJ` iff no button, `SK` iff both, nothing iff the held button is already current |
| Lift.StepDirections | lift.py:63-83 | a tick sends a direction command only as the fifth command of a burst that starts with `SJ` |
| Lift.StepAscii | lift.py:63-98 | every command a tick sends is ASCII |
| Lift.TicksAt | lift.py:59-98 | tick `i` of a run is `Step` from the state left by the earlier ticks |
| Lift.TickCommands | lift.py:63-98 | what tick `i` sends, in terms of its sample and the previous one: the bursts iff the press is new, nothing iff the same single press is held |
| Lift.KillRearms | lift.py:63-96 | after both buttons, a single press sends the full jog burst again |
| Lift.StopBeforeDirection | lift.py:63-83 | in the whole command stream every `DI` comes four commands after an `SJ`, so a change of direction always stops first |
| Lift.StreamAscii | lift.py:63-98 | every command the loop sends is ASCII, so no encode error can occur |
| Lift.StartJog | lift.py:65-70 | the six calls of a jog burst, in order |
| Lift.JogTick | lift.py:60-98 | one loop iteration on the port is `TickSpec` |
| Lift.JogLoop | lift.py:57-98 | the loop over the samples, from `last_command = None`, is `LoopSpec` |
| Lift.Operate | lift.py:52-98 | the handshake, the 0.1 s delay, then the loop; an exception in the handshake ends the program |
| Lift.FramesAppend | lift.py:36-38 | the frames of two command lists are the frames of each in turn |
| Lift.SendEachWrites | lift.py:36-38 | on a port that never raises, a list of ASCII commands writes exactly their frames, in order |
| Lift.TickWrites | lift.py:60-98 | on a port that never raises, one tick writes exactly the frames of its commands and keeps the port in that condition |
| Lift.LoopWrites | lift.py:59-98 | on a port that never raises, the loop writes exactly the frames of its command stream |
| Lift.LoopState | lift.py:63-96 | whatever the port does, `last_command` ends as the last sample's buttons set it: failures never reach the state machine |
| Lift.LoopLast | lift.py:63-96 | the loop's final `last_command` is the one the samples leave in the state machine, whatever the port does |
| Lift.OperateWrites | lift.py:48-98 | on a port that never raises, the program writes `00` iff the handshake completed, then exactly the frames of the command stream |
| Lift.PowerUpReliable | lift.py:17-31 | the handshake leaves a reliable port reliable |
| LimitLift.Sense | code.py:59-62 | the pins are active-low: a button reads as pressed, and a limit switch as triggered, exactly when its pin is low |
| LimitLift.Decide | code.py:64-80 | one to three commands; with both buttons or neither the first is `ST` and no move is sent; `DI48000` iff up alone and below the upper limit, `DI-48000` likewise down; a move always follows `VE20`; the last command is `ST` iff a limit is reached or no single button is pressed |
| LimitLift.NoMoveIntoLimit | code.py:69-76 | no move is ever sent toward a triggered limit switch |
| LimitLift.LeavingLimitStops | code.py:69-80 | a move away from the opposite limit is followed in the same tick by `ST` |
| LimitLift.ActiveLow | code.py:59-62 | the pins are active-low: all high means a plain stop, the up pin low alone a move up |
| LimitLift.Frame | code.py:36 | the frame is the UTF-8 encoding of the command followed by CR, and for ASCII its ASCII bytes and CR |
| LimitLift.SendCommand | code.py:34-41 | the driver's effect on the port and its outcome are `SendSpec` of the port's state |
| LimitLift.ExchangeEffect | code.py:36-38 | write, then the delay, then one line read from the leftover plus the newly arrived bytes; no line iff the write or the read raises |
| LimitLift.ExchangeLine | code.py:36-38 | no line is read iff the write or the read raises; otherwise the line is the first line of the leftover plus the new bytes, and the rest stays buffered |
| LimitLift.ExchangeLog | code.py:36-38 | the log gains the write unless it raises, then the delay and the line read unless that raises |
| LimitLift.SendOutcome | code.py:34-41 | a `SerialException` is caught iff the write or read raises; the decode fails iff the line is not UTF-8; otherwise the reply is the stripped decoded line |
| LimitLift.SendAscii | code.py:38 | on ASCII traffic a reply always decodes, and the traffic stays ASCII |
| LimitLift.SendWrites | code.py:36 | a call writes its frame once unless the write raises, and nothing else |
| LimitLift.StartupSequence | code.py:51-56 | the three startup calls, in order, stopping at a bad reply |
| LimitLift.SendEachAppend | code.py:52-80 | sending two lists is sending the first, then the second if the program still runs |
| LimitLift.SendOne | code.py:66 | one call as the program sees it |
| LimitLift.SendPair | code.py:70-71 | two calls, the second only if the first did not end the program |
| LimitLift.SendButtonCommands | code.py:64-76 | the `if`/`elif` chain over the buttons on the port |
| LimitLift.Tick | code.py:58-82 | one loop iteration on the port: the decision's commands, then the 0.1 s delay |
| LimitLift.Operate | code.py:50-82 | the startup sequence, then one tick per sample, as long as the program runs |
| LimitLift.FramesAppend | code.py:36 | the frames of two command lists are the frames of each in turn |
| LimitLift.StartupFrames | code.py:52-56 | the startup writes exactly the bytes `VE5\r FL1\r DL\r` |
| LimitLift.SendEachRuns | code.py:34-41 | on ASCII traffic no list of calls ends the program, however the port fails |
| LimitLift.SendReliable | code.py:34-41 | on a reliable ASCII port one call writes its frame, decodes its reply and keeps the port reliable and ASCII |
| LimitLift.SendEachWrites | code.py:34-41 | on a reliable ASCII port a list of calls writes exactly their frames |
| LimitLift.TickWrites | code.py:58-82 | on a reliable ASCII port a tick writes exactly the frames of its own decision, whatever came before |
| LimitLift.LoopWrites | code.py:58-82 | on a reliable ASCII port the loop keeps running and writes the frames of every tick's decision, in order |
| LimitLift.OperateWrites | code.py:50-82 | on a reliable ASCII port the output is the startup frames followed by every tick's frames, and the program still runs |
| LimitLift.LoopRuns | code.py:58-82 | on ASCII traffic a `SerialException` never ends the loop |
| LimitLift.NeverStopsOnAscii | code.py:34-82 | on ASCII traffic the program runs through every sample, however the port fails |
| LimitLift.SendStops | code.py:38 | a call ends the program only right after reading a line that is not UTF-8 |
| LimitLift.SendEachStops | code.py:38-80 | a list of calls ends the program only right after reading a line that is not UTF-8 |
| LimitLift.LoopStops | code.py:38-82 | the loop ends early only right after reading a line that is not UTF-8 |
| LimitLift.OperateStops | code.py:38-88 | the program stops only right after reading a line that is not UTF-8 |
| LimitLift.InvalidReplyEndsProgram | code.py:38-52 | a reply `0xFF` to `VE5` ends the program with only `VE5\r` written |

## Left out

- GPIO pin setup, pin numbers, pull resistors and `GPIO.cleanup`
  (lift.py:9-12, code.py:28-32, code.py:43-47). The pin levels of each tick
  are the samples given to `Operate`.
- Opening and closing the serial port, device paths and baud rates, and the
  `exit(1)` when the port cannot be opened (lift.py:51, lift.py:102-107,
  code.py:21-25). The model starts from an open port.
- Every `print` and console banner, including the "Stopped Jog" banner, which
  can never print (lift.py:88-90 set `last_command` and then test it).
- Floating-point `time.time()`: the handshake counts ticks, and the time
  spent outside `time.sleep` is ignored.
- The endless loops: the model runs a finite sequence of samples, and what
  holds after every finite prefix is what is proved. `KeyboardInterrupt`
  (code.py:84-85) is the end of the samples.
- Timing of the device's bytes: they arrive only during the host's delays
  (`Channel.Sleep`). Nothing arrives between `reset_input_buffer` and
  `write`, or between `read_all` and the next reset. The empty buffer before
  the write in `Lift.TransmitEffect` and `Lift.SendLog`, and the reply read in
  `Lift.SendReadsReply`, rest on this.
- `readline`'s wait for more bytes during its 1 s timeout. A line is what was
  buffered by the end of the 0.1 s delay.
- pyserial's internals. Any port operation may raise `SerialException`, as
  the environment's failure flags say. Exceptions from other causes are not
  modelled.
- `button.py`: it only prints two pin levels.
- Lift.SendCommand: the caught exception's message is not kept, only which
  step raised it.
- LimitLift.SendCommand: the printed reply is kept as the outcome; the error
  message is not.
