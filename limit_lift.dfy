/**
 * The limit-switch lift of `code.py`: a fixed startup sequence, then a loop
 * that reads two buttons and two limit switches every tick and sends the
 * motor controller at most three SCL commands decided from them alone.
 */
module LimitLift {
  import opened Options
  import opened Text
  import opened Serial

  // ===========================================================================
  // Commands and the per-tick decision
  // ===========================================================================

  const SetSlowSpeed: string := "VE5"
  const MoveDown: string := "FL1"
  const SetLimits: string := "DL"
  const StopMotor: string := "ST"
  const SetFastSpeed: string := "VE20"
  const MoveUp: string := "DI48000"
  const MoveDownSteps: string := "DI-48000"

  /** The startup sequence: slow speed, move down, define the limits. */
  const Startup: seq<string> := [SetSlowSpeed, MoveDown, SetLimits]

  /** The four pin levels read in one tick, `true` meaning high. */
  datatype Levels = Levels(upButton: bool, downButton: bool, upperLimit: bool, lowerLimit: bool)

  /** What the levels mean: a button pressed, a limit switch triggered. */
  datatype Inputs = Inputs(upPressed: bool, downPressed: bool, upperLimit: bool, lowerLimit: bool)

  /** The pins are pulled up, so a pin reading low is pressed (or triggered). */
  function Sense(levels: Levels): (i: Inputs)
    ensures i.upPressed <==> !levels.upButton
    ensures i.downPressed <==> !levels.downButton
    ensures i.upperLimit <==> !levels.upperLimit
    ensures i.lowerLimit <==> !levels.lowerLimit
  {
    Inputs(!levels.upButton, !levels.downButton, !levels.upperLimit, !levels.lowerLimit)
  }

  /** The commands one tick sends: the if/elif chain over the buttons, then
      the stop for a triggered limit switch. */
  function Decide(i: Inputs): (cmds: seq<string>)
    ensures 1 <= |cmds| <= 3
    ensures i.upPressed == i.downPressed ==>
      cmds[0] == StopMotor && SetFastSpeed !in cmds && MoveUp !in cmds && MoveDownSteps !in cmds
    ensures MoveUp in cmds <==> i.upPressed && !i.downPressed && !i.upperLimit
    ensures MoveDownSteps in cmds <==> i.downPressed && !i.upPressed && !i.lowerLimit
    ensures MoveUp in cmds ==> |cmds| >= 2 && cmds[..2] == [SetFastSpeed, MoveUp]
    ensures MoveDownSteps in cmds ==> |cmds| >= 2 && cmds[..2] == [SetFastSpeed, MoveDownSteps]
    ensures SetFastSpeed in cmds <==> MoveUp in cmds || MoveDownSteps in cmds
    ensures cmds[|cmds| - 1] == StopMotor <==> i.upperLimit || i.lowerLimit || i.upPressed == i.downPressed
    ensures StopMotor in cmds <==> i.upperLimit || i.lowerLimit || i.upPressed == i.downPressed
    ensures forall k :: 0 <= k < |cmds| ==> IsAscii(cmds[k])
  {
    assert IsAscii(StopMotor) && IsAscii(SetFastSpeed) && IsAscii(MoveUp) && IsAscii(MoveDownSteps);
    ButtonCommands(i) + LimitCommands(i)
  }

  /** Steps 3 to 5: the if/elif chain over the buttons. */
  function ButtonCommands(i: Inputs): seq<string> {
    if (i.upPressed && i.downPressed) || (!i.upPressed && !i.downPressed) then [StopMotor]
    else if i.upPressed && !i.upperLimit then [SetFastSpeed, MoveUp]
    else if i.downPressed && !i.lowerLimit then [SetFastSpeed, MoveDownSteps]
    else []
  }

  /** Step 6: the stop for a triggered limit switch. */
  function LimitCommands(i: Inputs): seq<string> {
    if i.upperLimit || i.lowerLimit then [StopMotor] else []
  }

  /** A move is never sent toward a triggered limit switch. */
  lemma NoMoveIntoLimit(i: Inputs)
    ensures i.upperLimit ==> MoveUp !in Decide(i)
    ensures i.lowerLimit ==> MoveDownSteps !in Decide(i)
  {
    var cmds := Decide(i);
  }

  /** A move away from a triggered limit switch is followed at once, in the
      same tick, by a stop. */
  lemma LeavingLimitStops(i: Inputs)
    ensures i.upPressed && !i.downPressed && !i.upperLimit && i.lowerLimit ==>
      Decide(i) == [SetFastSpeed, MoveUp, StopMotor]
    ensures i.downPressed && !i.upPressed && !i.lowerLimit && i.upperLimit ==>
      Decide(i) == [SetFastSpeed, MoveDownSteps, StopMotor]
  {
    var cmds := Decide(i);
  }

  /** The levels as the pins read them: all high is nothing pressed and no
      limit reached (a stop); the up pin low alone is a move up. */
  lemma ActiveLow()
    ensures Decide(Sense(Levels(true, true, true, true))) == [StopMotor]
    ensures Decide(Sense(Levels(false, true, true, true))) == [SetFastSpeed, MoveUp]
    ensures Decide(Sense(Levels(false, false, true, true))) == [StopMotor]
    ensures Decide(Sense(Levels(true, false, false, true))) == [SetFastSpeed, MoveDownSteps, StopMotor]
  {
    assert Sense(Levels(true, true, true, true)) == Inputs(false, false, false, false);
  }

  // ===========================================================================
  // The command driver (send_command)
  // ===========================================================================

  /** What `send_command` does with one command. */
  datatype Outcome =
    | Response(text: string)   // the stripped reply line, printed
    | SerialFailure            // a SerialException from the write or the read, caught and printed
    | DecodeFailure            // the reply is not UTF-8: the UnicodeDecodeError is not caught

  lemma Utf8AgreesOnAscii(s: string)
    ensures IsAscii(s) ==> Utf8Encode(s) == AsciiEncode(s).value
  {
    if IsAscii(s) {
      Utf8EncodeAscii(s);
    }
  }

  /** `(command + "\r").encode()`. */
  function Frame(command: string): (r: seq<byte>)
    ensures r == Utf8Encode(command) + [CR]
    ensures IsAscii(command) ==> r == AsciiEncode(command).value + [CR]
  {
    Utf8EncodeAppend(command, "\r");
    Utf8AgreesOnAscii(command);
    Utf8Encode(command + "\r")
  }

  /** The port side of `send_command` on a port in state `ch`: write the
      frame, delay, read one line. The port's next state and the line, or
      None when the write or the read raised `SerialException`. The input
      buffer is not reset first. */
  function Exchange(ch: Channel, frame: seq<byte>): (Channel, Option<seq<byte>>)
  {
    var (c1, wrote) := ch.Write(frame);
    if !wrote then (c1, None) else c1.Sleep().ReadLine()
  }

  /** What becomes of the line read: decoded and stripped. */
  function Interpret(line: Option<seq<byte>>): Outcome
  {
    if line.None? then SerialFailure
    else match Utf8Decode(line.value)
      case None => DecodeFailure
      case Some(text) => Response(Strip(text))
  }

  /** `send_command(command)` on a port in state `ch`: the port's next state
      and the outcome. */
  function SendSpec(ch: Channel, command: string): (Channel, Outcome)
  {
    var exchanged := Exchange(ch, Frame(command));
    (exchanged.0, Interpret(exchanged.1))
  }

  method SendCommand(port: SerialPort, command: string) returns (outcome: Outcome)
    modifies port
    ensures (port.State(), outcome) == SendSpec(old(port.State()), command)
  {
    var wrote := port.Write(Frame(command));
    if !wrote {
      return SerialFailure;
    }
    port.Sleep();
    var line := port.ReadLine();
    if line.None? {
      return SerialFailure;
    }
    var text := Utf8Decode(line.value);
    if text.None? {
      return DecodeFailure;
    }
    outcome := Response(Strip(text.value));
  }

  /** The line a call reads when nothing raises: the bytes left over from
      before the call come first, then those delivered during the delay. */
  function ReplyLine(ch: Channel): seq<byte> {
    var buffered := ch.inbound + ch.NextArrival();
    buffered[..LineLength(buffered)]
  }

  /** The events one call logs, in every case: the frame goes out unless
      the write raises, then the delay, then the reply line unless the read
      raises. */
  function CallOps(ch: Channel, frame: seq<byte>): seq<Op> {
    if ch.RaisesAt(0) then []
    else [Sent(frame), Slept(ch.NextArrival())]
         + (if ch.RaisesAt(1) then [] else [Received(ReplyLine(ch))])
  }

  /** One call logs its events, takes its line from what was left over plus
      what arrived, and keeps the rest buffered. */
  lemma ExchangeEffect(ch: Channel, frame: seq<byte>)
    ensures var (c, line) := Exchange(ch, frame);
      && c.log == ch.log + CallOps(ch, frame)
      && (line.None? <==> ch.RaisesAt(0) || ch.RaisesAt(1))
      && (line.Some? ==> line.value == ReplyLine(ch))
      && (line.Some? ==> c.inbound == (ch.inbound + ch.NextArrival())[|ReplyLine(ch)|..])
      && (ch.Reliable() ==> c.Reliable())
  {
    ExchangeLine(ch, frame);
    ExchangeLog(ch, frame);
  }

  /** The line a call reads and what it leaves buffered. */
  lemma ExchangeLine(ch: Channel, frame: seq<byte>)
    ensures var (c, line) := Exchange(ch, frame);
      && (line.None? <==> ch.RaisesAt(0) || ch.RaisesAt(1))
      && (line.Some? ==> line.value == ReplyLine(ch))
      && (line.Some? ==> c.inbound == (ch.inbound + ch.NextArrival())[|ReplyLine(ch)|..])
  {
    var c1 := ch.Write(frame).0;
    if !ch.RaisesAt(0) {
      var s := c1.Sleep();
      assert s.inbound == ch.inbound + ch.NextArrival();
      assert !s.Faulty() <==> !ch.RaisesAt(1);
    }
  }

  /** The events a call logs; a port that never raises stays so. */
  lemma ExchangeLog(ch: Channel, frame: seq<byte>)
    ensures Exchange(ch, frame).0.log == ch.log + CallOps(ch, frame)
    ensures ch.Reliable() ==> Exchange(ch, frame).0.Reliable()
  {
    var c1 := ch.Write(frame).0;
    if !ch.RaisesAt(0) {
      var s := c1.Sleep();
      assert s.inbound == ch.inbound + ch.NextArrival() && c1.NextArrival() == ch.NextArrival();
      assert !s.Faulty() <==> !ch.RaisesAt(1);
      assert s.log == ch.log + [Sent(frame), Slept(ch.NextArrival())];
    }
  }

  /** Of a call's events only the frame is written. */
  lemma CallOpsWritten(ch: Channel, frame: seq<byte>)
    ensures Written(CallOps(ch, frame)) == if ch.RaisesAt(0) then [] else frame
  {
    if !ch.RaisesAt(0) {
      WriteThenWait(frame, ch.NextArrival(), if ch.RaisesAt(1) then [] else [Received(ReplyLine(ch))]);
    }
  }

  /** A write, a delay and at most one read write exactly the bytes sent. */
  lemma WriteThenWait(frame: seq<byte>, arrived: seq<byte>, tail: seq<Op>)
    requires tail == [] || (|tail| == 1 && tail[0].Received?)
    ensures Written([Sent(frame), Slept(arrived)] + tail) == frame
  {
    ProjectionsOne(Sent(frame));
    if tail != [] {
      ProjectionsOne(tail[0]);
      assert tail == [tail[0]];
    }
    assert [Sent(frame), Slept(arrived)] + tail == [Sent(frame)] + [Slept(arrived)] + tail;
    DelayProjections([Sent(frame)], arrived, tail);
    assert Written(tail) == [];
  }

  /** The outcome of one call: a `SerialException` from the write or the
      read is contained; a reply line that is not UTF-8 is the one failure
      that escapes; otherwise the reply is the stripped line. */
  lemma SendOutcome(ch: Channel, command: string)
    ensures var o := SendSpec(ch, command).1;
      var line := ReplyLine(ch);
      && (o == SerialFailure <==> ch.RaisesAt(0) || ch.RaisesAt(1))
      && (o == DecodeFailure <==> !ch.RaisesAt(0) && !ch.RaisesAt(1) && Utf8Decode(line).None?)
      && (o.Response? ==> Utf8Decode(line).Some? && o.text == Strip(Utf8Decode(line).value))
  {
    ExchangeEffect(ch, Frame(command));
  }

  /** ASCII traffic stays ASCII, and its replies always decode. */
  lemma SendAscii(ch: Channel, command: string)
    requires ch.AsciiTraffic()
    ensures SendSpec(ch, command).0.AsciiTraffic() && SendSpec(ch, command).1 != DecodeFailure
  {
    var c1 := ch.Write(Frame(command)).0;
    AsciiTrafficKept(ch, Frame(command));
    if !ch.RaisesAt(0) {
      var s := c1.Sleep();
      AsciiTrafficKept(c1, []);
      AsciiTrafficKept(s, []);
      var line := s.ReadLine().1;
      if line.Some? {
        Utf8DecodeAscii(line.value);
      }
    }
  }

  /** A call writes its frame, once, unless the write raises, and nothing
      else. */
  lemma SendWrites(ch: Channel, command: string)
    ensures Written(SendSpec(ch, command).0.log) == Written(ch.log) + (if ch.RaisesAt(0) then [] else Frame(command))
  {
    assert SendSpec(ch, command).0.log == ch.log + CallOps(ch, Frame(command)) by {
      ExchangeEffect(ch, Frame(command));
    }
    CallOpsWritten(ch, Frame(command));
    ProjectionsAppend(ch.log, CallOps(ch, Frame(command)));
  }

  // ===========================================================================
  // The startup sequence and the loop
  // ===========================================================================

  /** `send_command` for each of `commands` in turn, until a reply fails to
      decode: that exception ends the program. The port's next state and
      whether the program is still running. */
  function SendEach(ch: Channel, commands: seq<string>): (Channel, bool)
    decreases |commands|
  {
    if commands == [] then (ch, true)
    else
      var sent := SendSpec(ch, commands[0]);
      if sent.1 == DecodeFailure then (sent.0, false) else SendEach(sent.0, commands[1..])
  }

  /** One tick of the loop: the decision's commands, then the 0.1 s delay. */
  function TickSpec(ch: Channel, levels: Levels): (Channel, bool)
  {
    var sent := SendEach(ch, Decide(Sense(levels)));
    if !sent.1 then sent else (sent.0.Sleep(), true)
  }

  /** The loop over the pin samples, one tick per sample. */
  function LoopSpec(ch: Channel, samples: seq<Levels>): (Channel, bool)
    decreases |samples|
  {
    if samples == [] then (ch, true)
    else
      var ticked := TickSpec(ch, samples[0]);
      if !ticked.1 then ticked else LoopSpec(ticked.0, samples[1..])
  }

  /** The whole program: the startup sequence, then the loop. */
  function OperateSpec(ch: Channel, samples: seq<Levels>): (Channel, bool)
  {
    var started := SendEach(ch, Startup);
    if !started.1 then started else LoopSpec(started.0, samples)
  }

  /** Steps 1 and 2: slow speed, move down, define the limits. */
  method StartupSequence(port: SerialPort) returns (running: bool)
    modifies port
    ensures (port.State(), running) == SendEach(old(port.State()), Startup)
  {
    ghost var todo := Startup;
    ghost var goal := SendEach(port.State(), todo);
    var o := SendCommand(port, SetSlowSpeed);
    if o == DecodeFailure {
      return false;
    }
    todo := todo[1..];
    assert SendEach(port.State(), todo) == goal;
    o := SendCommand(port, MoveDown);
    if o == DecodeFailure {
      return false;
    }
    todo := todo[1..];
    assert SendEach(port.State(), todo) == goal;
    o := SendCommand(port, SetLimits);
    if o == DecodeFailure {
      return false;
    }
    todo := todo[1..];
    assert todo == [];
    running := true;
  }

  /** Sending `a + b` is sending `a`, then `b` if the program still runs. */
  lemma {:induction false} SendEachAppend(ch: Channel, a: seq<string>, b: seq<string>)
    ensures SendEach(ch, a + b) ==
      if SendEach(ch, a).1 then SendEach(SendEach(ch, a).0, b) else SendEach(ch, a)
    decreases |a|
  {
    if a == [] {
      assert a + b == b;
    } else {
      assert (a + b)[0] == a[0] && (a + b)[1..] == a[1..] + b;
      SendEachAppend(SendSpec(ch, a[0]).0, a[1..], b);
    }
  }

  /** One `send_command` call, as the program sees it: whether it still runs. */
  method SendOne(port: SerialPort, command: string) returns (running: bool)
    modifies port
    ensures (port.State(), running) == SendEach(old(port.State()), [command])
  {
    ghost var goal := SendEach(port.State(), [command]);
    var o := SendCommand(port, command);
    assert [command][1..] == [];
    running := o != DecodeFailure;
  }

  /** Two `send_command` calls, the second only if the first did not end
      the program. */
  method SendPair(port: SerialPort, first: string, second: string) returns (running: bool)
    modifies port
    ensures (port.State(), running) == SendEach(old(port.State()), [first, second])
  {
    ghost var todo := [first, second];
    ghost var goal := SendEach(port.State(), todo);
    var o := SendCommand(port, first);
    if o == DecodeFailure {
      return false;
    }
    todo := todo[1..];
    assert todo == [second];
    assert SendEach(port.State(), todo) == goal;
    running := SendOne(port, second);
  }

  /** Steps 3 to 5 of one pass: stop, move up or move down. */
  method SendButtonCommands(port: SerialPort, i: Inputs) returns (running: bool)
    modifies port
    ensures (port.State(), running) == SendEach(old(port.State()), ButtonCommands(i))
  {
    if (i.upPressed && i.downPressed) || (!i.upPressed && !i.downPressed) {
      running := SendOne(port, StopMotor);
    } else if i.upPressed && !i.upperLimit {
      running := SendPair(port, SetFastSpeed, MoveUp);
    } else if i.downPressed && !i.lowerLimit {
      running := SendPair(port, SetFastSpeed, MoveDownSteps);
    } else {
      running := true;
    }
  }

  /** One pass of the `while True` loop over the pins' levels. */
  method Tick(port: SerialPort, levels: Levels) returns (running: bool)
    modifies port
    ensures (port.State(), running) == TickSpec(old(port.State()), levels)
  {
    var i := Sense(levels);
    ghost var start := port.State();
    SendEachAppend(start, ButtonCommands(i), LimitCommands(i));
    running := SendButtonCommands(port, i);
    if !running {
      return;
    }
    if i.upperLimit || i.lowerLimit {
      running := SendOne(port, StopMotor);
      if !running {
        return;
      }
    }
    port.Sleep();
  }

  /** The program over the pin samples: whether it is still running at the
      end. Only a reply that fails to decode stops it. */
  method Operate(port: SerialPort, samples: seq<Levels>) returns (running: bool)
    modifies port
    ensures (port.State(), running) == OperateSpec(old(port.State()), samples)
  {
    running := StartupSequence(port);
    if !running {
      return;
    }
    var i := 0;
    while i < |samples|
      invariant i <= |samples|
      invariant LoopSpec(port.State(), samples[i..]) == OperateSpec(old(port.State()), samples)
    {
      assert samples[i..][1..] == samples[i + 1..];
      running := Tick(port, samples[i]);
      if !running {
        return;
      }
      i := i + 1;
    }
  }

  // ===========================================================================
  // What the program puts on the line, and when it stops
  // ===========================================================================

  /** The frames of `commands`, one after the other. */
  function Frames(commands: seq<string>): seq<byte>
    decreases |commands|
  {
    if commands == [] then [] else Frame(commands[0]) + Frames(commands[1..])
  }

  lemma {:induction false} FramesAppend(a: seq<string>, b: seq<string>)
    ensures Frames(a + b) == Frames(a) + Frames(b)
    decreases |a|
  {
    if a != [] {
      var head := Frame(a[0]);
      assert (a + b)[0] == a[0] && (a + b)[1..] == a[1..] + b;
      assert Frames(a + b) == head + Frames(a[1..] + b);
      FramesAppend(a[1..], b);
      ConcatAssoc(head, Frames(a[1..]), Frames(b));
      assert Frames(a) == head + Frames(a[1..]);
    } else {
      assert a + b == b;
    }
  }

  /** The bytes of the startup sequence: `VE5\r`, `FL1\r`, `DL\r`. */
  lemma StartupFrames()
    ensures Frames(Startup) == [86, 69, 53, 13] + [70, 76, 49, 13] + [68, 76, 13]
  {
    FramesOfThree(SetSlowSpeed, MoveDown, SetLimits);
    SlowSpeedFrame();
    MoveDownFrame();
    SetLimitsFrame();
  }

  lemma SlowSpeedFrame()
    ensures Frame(SetSlowSpeed) == [86, 69, 53, 13]
  {
    FrameOfAscii(SetSlowSpeed, [86, 69, 53]);
  }

  lemma MoveDownFrame()
    ensures Frame(MoveDown) == [70, 76, 49, 13]
  {
    FrameOfAscii(MoveDown, [70, 76, 49]);
  }

  lemma SetLimitsFrame()
    ensures Frame(SetLimits) == [68, 76, 13]
  {
    FrameOfAscii(SetLimits, [68, 76]);
  }

  lemma FramesOfThree(a: string, b: string, c: string)
    ensures Frames([a, b, c]) == Frame(a) + Frame(b) + Frame(c)
  {
    assert [a, b, c][1..] == [b, c] && [b, c][1..] == [c] && [c][1..] == [];
    assert Frames([c]) == Frame(c);
    ConcatAssoc(Frame(a), Frame(b), Frame(c));
  }

  /** The frame of an ASCII command, given its bytes. */
  lemma FrameOfAscii(command: string, bytes: seq<byte>)
    requires |bytes| == |command|
    requires forall i :: 0 <= i < |command| ==> command[i] as int < 0x80 && bytes[i] as int == command[i] as int
    ensures Frame(command) == bytes + [CR]
  {
    assert AsciiEncode(command).value == bytes;
  }

  /** The commands of every tick of `samples`, in order. */
  function Commands(samples: seq<Levels>): seq<string>
    decreases |samples|
  {
    if samples == [] then [] else Decide(Sense(samples[0])) + Commands(samples[1..])
  }

  /** On ASCII traffic the program runs on however the port fails. */
  lemma {:induction false} SendEachRuns(ch: Channel, commands: seq<string>)
    requires ch.AsciiTraffic()
    ensures SendEach(ch, commands).1 && SendEach(ch, commands).0.AsciiTraffic()
    decreases |commands|
  {
    if commands != [] {
      SendAscii(ch, commands[0]);
      SendEachRuns(SendSpec(ch, commands[0]).0, commands[1..]);
    }
  }

  /** One call on a port that never raises and carries only ASCII: it stays
      so, the reply decodes and the frame goes out. */
  lemma SendReliable(ch: Channel, command: string)
    requires ch.Reliable() && ch.AsciiTraffic()
    ensures var (c, o) := SendSpec(ch, command);
      && o != DecodeFailure && c.Reliable() && c.AsciiTraffic()
      && Written(c.log) == Written(ch.log) + Frame(command)
  {
    ExchangeEffect(ch, Frame(command));
    SendAscii(ch, command);
    SendWrites(ch, command);
  }

  /** A port that never raises and carries only ASCII stays so, and every
      command's frame goes out, in order. */
  lemma {:induction false} SendEachWrites(ch: Channel, commands: seq<string>)
    requires ch.Reliable() && ch.AsciiTraffic()
    ensures SendEach(ch, commands).1
    ensures SendEach(ch, commands).0.Reliable() && SendEach(ch, commands).0.AsciiTraffic()
    ensures Written(SendEach(ch, commands).0.log) == Written(ch.log) + Frames(commands)
    decreases |commands|
  {
    if commands != [] {
      var c := SendSpec(ch, commands[0]).0;
      SendReliable(ch, commands[0]);
      SendEachFirst(ch, commands);
      SendEachWrites(c, commands[1..]);
      ConcatAssoc(Written(ch.log), Frame(commands[0]), Frames(commands[1..]));
    } else {
      assert SendEach(ch, commands) == (ch, true) && Frames(commands) == [];
    }
  }

  /** Sending commands whose first one does not stop the program is sending
      the first, then the rest. */
  lemma SendEachFirst(ch: Channel, commands: seq<string>)
    requires commands != [] && SendSpec(ch, commands[0]).1 != DecodeFailure
    ensures SendEach(ch, commands) == SendEach(SendSpec(ch, commands[0]).0, commands[1..])
    ensures Frames(commands) == Frame(commands[0]) + Frames(commands[1..])
  {
  }

  lemma LoopUnfold(ch: Channel, samples: seq<Levels>)
    requires samples != []
    ensures var ticked := TickSpec(ch, samples[0]);
      LoopSpec(ch, samples) == if ticked.1 then LoopSpec(ticked.0, samples[1..]) else ticked
  {
  }

  /** One tick on a port that never raises and carries only ASCII: the
      decision's frames go out, then the delay. */
  lemma TickWrites(ch: Channel, levels: Levels)
    requires ch.Reliable() && ch.AsciiTraffic()
    ensures TickSpec(ch, levels).1
    ensures TickSpec(ch, levels).0.Reliable() && TickSpec(ch, levels).0.AsciiTraffic()
    ensures Written(TickSpec(ch, levels).0.log) == Written(ch.log) + Frames(Decide(Sense(levels)))
  {
    var sent := SendEach(ch, Decide(Sense(levels))).0;
    SendEachWrites(ch, Decide(Sense(levels)));
    SleepWritesNothing(sent);
    AsciiTrafficKept(sent, []);
  }

  /** On a port that never raises and carries only ASCII, the loop runs on
      and writes the frames of every tick's commands. */
  lemma {:induction false} LoopWrites(ch: Channel, samples: seq<Levels>)
    requires ch.Reliable() && ch.AsciiTraffic()
    ensures LoopSpec(ch, samples).1
    ensures LoopSpec(ch, samples).0.Reliable() && LoopSpec(ch, samples).0.AsciiTraffic()
    ensures Written(LoopSpec(ch, samples).0.log) == Written(ch.log) + Frames(Commands(samples))
    decreases |samples|
  {
    if samples != [] {
      var c := TickSpec(ch, samples[0]).0;
      var cmds := Decide(Sense(samples[0]));
      var rest := Commands(samples[1..]);
      TickWrites(ch, samples[0]);
      LoopUnfold(ch, samples);
      LoopWrites(c, samples[1..]);
      calc {
        Written(LoopSpec(ch, samples).0.log);
        Written(c.log) + Frames(rest);
        (Written(ch.log) + Frames(cmds)) + Frames(rest);
        { ConcatAssoc(Written(ch.log), Frames(cmds), Frames(rest)); }
        Written(ch.log) + (Frames(cmds) + Frames(rest));
        { FramesAppend(cmds, rest); }
        Written(ch.log) + Frames(Commands(samples));
      }
    }
  }

  /** On a port that never raises and carries only ASCII, the program writes
      the startup frames and then the frames of every tick's commands, and
      is still running. */
  lemma OperateWrites(ch: Channel, samples: seq<Levels>)
    requires ch.Reliable() && ch.AsciiTraffic()
    ensures OperateSpec(ch, samples).1
    ensures Written(OperateSpec(ch, samples).0.log) == Written(ch.log) + Frames(Startup) + Frames(Commands(samples))
  {
    SendEachWrites(ch, Startup);
    LoopWrites(SendEach(ch, Startup).0, samples);
  }

  /** A `SerialException` never ends the program: on ASCII traffic it runs
      every tick whatever the port raises. */
  lemma {:induction false} LoopRuns(ch: Channel, samples: seq<Levels>)
    requires ch.AsciiTraffic()
    ensures LoopSpec(ch, samples).1
    decreases |samples|
  {
    if samples != [] {
      var sent := SendEach(ch, Decide(Sense(samples[0]))).0;
      SendEachRuns(ch, Decide(Sense(samples[0])));
      AsciiTrafficKept(sent, []);
      LoopUnfold(ch, samples);
      LoopRuns(sent.Sleep(), samples[1..]);
    }
  }

  lemma NeverStopsOnAscii(ch: Channel, samples: seq<Levels>)
    requires ch.AsciiTraffic()
    ensures OperateSpec(ch, samples).1
  {
    SendEachRuns(ch, Startup);
    LoopRuns(SendEach(ch, Startup).0, samples);
  }

  /** The program stops only right after reading a line that is not UTF-8. */
  predicate EndsOnUndecodable(ch: Channel, c: Channel)
  {
    |c.log| > |ch.log| && c.log[|c.log| - 1].Received? && Utf8Decode(c.log[|c.log| - 1].data).None?
  }

  lemma SendStops(ch: Channel, command: string)
    ensures SendSpec(ch, command).1 == DecodeFailure ==> EndsOnUndecodable(ch, SendSpec(ch, command).0)
  {
    ExchangeEffect(ch, Frame(command));
  }

  lemma {:induction false} SendEachStops(ch: Channel, commands: seq<string>)
    ensures !SendEach(ch, commands).1 ==> EndsOnUndecodable(ch, SendEach(ch, commands).0)
    ensures |SendEach(ch, commands).0.log| >= |ch.log|
    decreases |commands|
  {
    if commands != [] {
      var sent := SendSpec(ch, commands[0]);
      SendStops(ch, commands[0]);
      ExchangeEffect(ch, Frame(commands[0]));
      SendEachStops(sent.0, commands[1..]);
    }
  }

  lemma {:induction false} LoopStops(ch: Channel, samples: seq<Levels>)
    ensures !LoopSpec(ch, samples).1 ==> EndsOnUndecodable(ch, LoopSpec(ch, samples).0)
    ensures |LoopSpec(ch, samples).0.log| >= |ch.log|
    decreases |samples|
  {
    if samples != [] {
      var sent := SendEach(ch, Decide(Sense(samples[0])));
      SendEachStops(ch, Decide(Sense(samples[0])));
      LoopUnfold(ch, samples);
      if sent.1 {
        LoopStops(sent.0.Sleep(), samples[1..]);
      }
    }
  }

  lemma OperateStops(ch: Channel, samples: seq<Levels>)
    ensures !OperateSpec(ch, samples).1 ==> EndsOnUndecodable(ch, OperateSpec(ch, samples).0)
  {
    SendEachStops(ch, Startup);
    LoopStops(SendEach(ch, Startup).0, samples);
  }

  /** A reply of `0xFF` to the first startup command ends the program there:
      only that command's frame has gone out. */
  lemma InvalidReplyEndsProgram(samples: seq<Levels>)
    ensures var ch := Channel([], [], [], [[0xFF, LF]]);
      var (c, running) := OperateSpec(ch, samples);
      && !running
      && Written(c.log) == [86, 69, 53, 13]
  {
    var ch := Channel([], [], [], [[0xFF, LF]]);
    assert ReplyLine(ch) == [0xFF, LF];
    assert Utf8Decode([0xFF, LF]).None?;
    SendOutcome(ch, SetSlowSpeed);
    SendWrites(ch, SetSlowSpeed);
    assert IsAscii(SetSlowSpeed);
    assert Frame(SetSlowSpeed) == [86, 69, 53, 13];
  }
}
