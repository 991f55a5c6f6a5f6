/**
 * The two-button jog controller of `lift.py`: the power-up handshake with the
 * motor controller, the command driver, and the jog state machine that turns
 * the two button levels into SCL jog commands, one tick at a time.
 */
module Lift {
  import opened Options
  import opened Text
  import opened Serial

  // ===========================================================================
  // The command driver (send_command)
  // ===========================================================================

  /** The step of `send_command` whose exception was caught. */
  datatype Cause = ResetRaised | EncodeRaised | WriteRaised | ReadRaised | DecodeRaised

  /** What `send_command` reports about one command. */
  datatype CommandOutcome =
    | NotAwaited                  // expect_response=False: no reply is read
    | Acknowledged                // the stripped reply is "%"
    | Unexpected(reply: string)   // any other stripped reply, the empty one included
    | Failed(cause: Cause)        // an exception, caught and reported

  /** `(command + '\r').encode('ascii')`. */
  function Frame(command: string): (r: Option<seq<byte>>)
    ensures r.Some? <==> IsAscii(command)
    ensures r.Some? ==> r.value == AsciiEncode(command).value + [CR]
  {
    AsciiEncodeWithCR(command);
    AsciiEncode(command + "\r")
  }

  /** The reply check: a decoded reply is stripped and compared with "%". */
  function Classify(text: string): (o: CommandOutcome)
    ensures o == Acknowledged <==> Padded(text, '%')
    ensures o != Acknowledged ==> o == Unexpected(Strip(text))
  {
    StripIsSingle(text, '%');
    var response := Strip(text);
    if response != "%" then Unexpected(response) else Acknowledged
  }

  /** The first half of `send_command` on a port in state `ch`: reset the
      input buffer, encode, write. The port's next state and the step that
      raised, if one did. */
  function Transmit(ch: Channel, command: string): (Channel, Option<Cause>)
  {
    var (c1, flushed) := ch.ResetInput();
    if !flushed then (c1, Some(ResetRaised))
    else match Frame(command)
      case None => (c1, Some(EncodeRaised))
      case Some(bytes) =>
        var (c2, wrote) := c1.Write(bytes);
        (c2, if wrote then None else Some(WriteRaised))
  }

  /** The second half, when a reply is awaited: the settle delay, `read_all`,
      the ASCII decode and the reply check. */
  function Collect(ch: Channel): (Channel, CommandOutcome)
  {
    var (c, raw) := ch.Sleep().ReadAll();
    if raw.None? then (c, Failed(ReadRaised))
    else match AsciiDecode(raw.value)
      case None => (c, Failed(DecodeRaised))
      case Some(text) => (c, Classify(text))
  }

  /** `send_command(ser, command, expect_response)` on a port in state `ch`:
      the port's next state and the outcome. Every exception is caught. */
  function SendSpec(ch: Channel, command: string, expectResponse: bool): (Channel, CommandOutcome)
  {
    var (c, raised) := Transmit(ch, command);
    if raised.Some? then (c, Failed(raised.value))
    else if !expectResponse then (c, NotAwaited)
    else Collect(c)
  }

  method SendCommand(port: SerialPort, command: string, expectResponse: bool := true)
    returns (outcome: CommandOutcome)
    modifies port
    ensures (port.State(), outcome) == SendSpec(old(port.State()), command, expectResponse)
  {
    var fullCmd := command + "\r";
    var flushed := port.ResetInputBuffer();
    if !flushed {
      return Failed(ResetRaised);
    }
    AsciiEncodeWithCR(command);
    var bytes := AsciiEncode(fullCmd);
    if bytes.None? {
      return Failed(EncodeRaised);
    }
    var wrote := port.Write(bytes.value);
    if !wrote {
      return Failed(WriteRaised);
    }
    if expectResponse {
      ghost var settled := port.State();
      port.Sleep();
      var raw := port.ReadAll();
      if raw.None? {
        return Failed(ReadRaised);
      }
      var text := AsciiDecode(raw.value);
      if text.None? {
        return Failed(DecodeRaised);
      }
      var response := Strip(text.value);
      StripIsSingle(text.value, '%');
      if response != "%" {
        outcome := Unexpected(response);
      } else {
        outcome := Acknowledged;
      }
      assert (port.State(), outcome) == Collect(settled);
    } else {
      outcome := NotAwaited;
    }
  }

  /** The command reaches the line: the reset and the write do not raise and
      the command encodes as ASCII. */
  predicate Transmits(ch: Channel, command: string) {
    !ch.RaisesAt(0) && IsAscii(command) && !ch.RaisesAt(1)
  }

  /** The number of port operations the first half of a call performs. */
  function TransmitOps(ch: Channel, command: string): nat {
    if ch.RaisesAt(0) || !IsAscii(command) then 1 else 2
  }

  /** What the first half does, in every case: the step that raises, the
      events it logs, the input buffer it leaves. */
  lemma TransmitEffect(ch: Channel, command: string)
    ensures var (c, raised) := Transmit(ch, command);
      && (raised == Some(ResetRaised) <==> ch.RaisesAt(0))
      && (raised == Some(EncodeRaised) <==> !ch.RaisesAt(0) && !IsAscii(command))
      && (raised == Some(WriteRaised) <==> !ch.RaisesAt(0) && IsAscii(command) && ch.RaisesAt(1))
      && (raised.None? <==> Transmits(ch, command))
      && c.log == ch.log + (if ch.RaisesAt(0) then [] else [Flushed(ch.inbound)])
                         + (if Transmits(ch, command) then [Sent(Frame(command).value)] else [])
      && c.inbound == (if ch.RaisesAt(0) then ch.inbound else [])
      && c.arrivals == ch.arrivals
      && (forall k: nat :: c.RaisesAt(k) == ch.RaisesAt(k + TransmitOps(ch, command)))
      && (ch.Reliable() ==> c.Reliable())
  {
    var (c1, flushed) := ch.ResetInput();
    if flushed && IsAscii(command) {
      var (c2, wrote) := c1.Write(Frame(command).value);
      assert Transmit(ch, command) == (c2, if wrote then None else Some(WriteRaised));
    }
  }

  /** What the second half does, in every case: the reply it reads is what
      was buffered plus what arrived during the delay, and the outcome is
      decided by that reply alone. */
  lemma CollectEffect(ch: Channel)
    ensures var (c, o) := Collect(ch);
      var reply := ch.inbound + ch.NextArrival();
      && c.log == ch.log + [Slept(ch.NextArrival())] + (if ch.RaisesAt(0) then [] else [Received(reply)])
      && c.inbound == (if ch.RaisesAt(0) then reply else [])
      && (o == Failed(ReadRaised) <==> ch.RaisesAt(0))
      && (o == Failed(DecodeRaised) <==> !ch.RaisesAt(0) && !AllAscii(reply))
      && (o == Acknowledged <==> !ch.RaisesAt(0) && AllAscii(reply) && Padded(AsciiDecode(reply).value, '%'))
      && (o.Unexpected? ==> !ch.RaisesAt(0) && AllAscii(reply) && o.reply == Strip(AsciiDecode(reply).value))
      && !o.NotAwaited? && !(o.Failed? && o.cause != ReadRaised && o.cause != DecodeRaised)
      && (forall k: nat :: c.RaisesAt(k) == ch.RaisesAt(k + 1))
      && (ch.Reliable() ==> c.Reliable())
  {
    var s := ch.Sleep();
    assert s.inbound == ch.inbound + ch.NextArrival();
    assert forall k: nat :: s.RaisesAt(k) == ch.RaisesAt(k);
  }

  /** The events the first half of a call logs. */
  function SentOps(ch: Channel, command: string): seq<Op> {
    (if ch.RaisesAt(0) then [] else [Flushed(ch.inbound)])
      + (if Transmits(ch, command) then [Sent(Frame(command).value)] else [])
  }

  /** The events the second half of a call logs, from the state `t` the
      first half left. */
  function AwaitOps(t: Channel, awaited: bool): seq<Op> {
    if awaited then [Slept(t.NextArrival())] + (if t.RaisesAt(0) then [] else [Received(t.inbound + t.NextArrival())])
    else []
  }

  /** A call's log is the log before it, the first half's events, then the
      second half's events. */
  lemma SendEvents(ch: Channel, command: string, expectResponse: bool)
    ensures var t := Transmit(ch, command).0;
      && SendSpec(ch, command, expectResponse).0.log
           == ch.log + SentOps(ch, command) + AwaitOps(t, Transmits(ch, command) && expectResponse)
      && (ch.Reliable() ==> SendSpec(ch, command, expectResponse).0.Reliable())
  {
    var c := SendSpec(ch, command, expectResponse).0;
    var t := Transmit(ch, command).0;
    var raised := Transmit(ch, command).1;
    assert t.log == ch.log + SentOps(ch, command) && (raised.None? <==> Transmits(ch, command))
      && (ch.Reliable() ==> t.Reliable()) by {
      TransmitEffect(ch, command);
    }
    if raised.None? && expectResponse {
      CollectLog(t);
      assert c == Collect(t).0;
    } else {
      assert c == t;
    }
  }

  /** The events of the second half: the delay, then the read unless it
      raises. */
  lemma CollectLog(t: Channel)
    ensures Collect(t).0.log == t.log + AwaitOps(t, true)
    ensures t.Reliable() ==> Collect(t).0.Reliable()
  {
    var read: seq<Op> := if t.RaisesAt(0) then [] else [Received(t.inbound + t.NextArrival())];
    CollectEffect(t);
    ConcatAssoc(t.log, [Slept(t.NextArrival())], read);
  }

  /** The only event of a call that writes is its `Sent`. */
  lemma SendWrites(ch: Channel, command: string, t: Channel, awaited: bool)
    ensures Written(SentOps(ch, command)) == if Transmits(ch, command) then Frame(command).value else []
    ensures Written(AwaitOps(t, awaited)) == []
  {
    ProjectionsOne(Flushed(ch.inbound));
    if Transmits(ch, command) {
      ProjectionsOne(Sent(Frame(command).value));
    }
    ProjectionsAppend(if ch.RaisesAt(0) then [] else [Flushed(ch.inbound)],
                      if Transmits(ch, command) then [Sent(Frame(command).value)] else []);
    ProjectionsOne(Slept(t.NextArrival()));
    ProjectionsOne(Received(t.inbound + t.NextArrival()));
    ProjectionsAppend([Slept(t.NextArrival())],
                      if t.RaisesAt(0) then [] else [Received(t.inbound + t.NextArrival())]);
    assert Written([]) == [];
  }

  /** The log after `send_command` extends the log before it: the command's
      frame is written (and nothing else is) exactly when it transmits, the
      reset's entry is immediately before the write's, and whatever was
      buffered before the call is what the reset discarded. */
  lemma SendLog(ch: Channel, command: string, expectResponse: bool)
    ensures var c := SendSpec(ch, command, expectResponse).0;
      && |ch.log| <= |c.log| && c.log[..|ch.log|] == ch.log
      && Written(c.log) == Written(ch.log) + (if Transmits(ch, command) then Frame(command).value else [])
      && (Transmits(ch, command) ==>
            c.log[|ch.log|..|ch.log| + 2] == [Flushed(ch.inbound), Sent(Frame(command).value)])
      && (ch.Reliable() ==> c.Reliable())
  {
    SendEvents(ch, command, expectResponse);
    SendPrefix(ch, command, expectResponse);
    SendWritten(ch, command, expectResponse);
  }

  /** The log of a call extends the old one, with the flush and the frame
      first when the frame goes out. */
  lemma SendPrefix(ch: Channel, command: string, expectResponse: bool)
    ensures var c := SendSpec(ch, command, expectResponse).0;
      && |ch.log| <= |c.log| && c.log[..|ch.log|] == ch.log
      && (Transmits(ch, command) ==>
            c.log[|ch.log|..|ch.log| + 2] == [Flushed(ch.inbound), Sent(Frame(command).value)])
  {
    var t := Transmit(ch, command).0;
    var head := SentOps(ch, command);
    var tail := AwaitOps(t, Transmits(ch, command) && expectResponse);
    SendEvents(ch, command, expectResponse);
    assert (ch.log + head + tail)[..|ch.log|] == ch.log;
    if Transmits(ch, command) {
      assert (ch.log + head + tail)[|ch.log|..|ch.log| + 2] == head;
    }
  }

  lemma SendWritten(ch: Channel, command: string, expectResponse: bool)
    ensures Written(SendSpec(ch, command, expectResponse).0.log)
      == Written(ch.log) + (if Transmits(ch, command) then Frame(command).value else [])
  {
    var t := Transmit(ch, command).0;
    var awaited := Transmits(ch, command) && expectResponse;
    var head := SentOps(ch, command);
    var tail := AwaitOps(t, awaited);
    SendEvents(ch, command, expectResponse);
    SendWrites(ch, command, t, awaited);
    ProjectionsAppend(ch.log + head, tail);
    ProjectionsAppend(ch.log, head);
  }

  /** With `expect_response=False` nothing is read after the write: the call
      ends right after it, with the input buffer empty as the reset left it. */
  lemma SendWithoutReply(ch: Channel, command: string)
    requires Transmits(ch, command)
    ensures var (c, o) := SendSpec(ch, command, false);
      && o == NotAwaited
      && c.log == ch.log + [Flushed(ch.inbound), Sent(Frame(command).value)]
      && c.inbound == []
      && c.arrivals == ch.arrivals
  {
    TransmitEffect(ch, command);
  }

  /** With a reply awaited, the call sleeps once and then reads every byte
      the controller delivered meanwhile, and only those: older bytes were
      discarded by the reset. */
  lemma SendReadsReply(ch: Channel, command: string)
    requires Transmits(ch, command) && !ch.RaisesAt(2)
    ensures var c := SendSpec(ch, command, true).0;
      && c.log == ch.log + [Flushed(ch.inbound), Sent(Frame(command).value),
                            Slept(ch.NextArrival()), Received(ch.NextArrival())]
      && c.inbound == []
  {
    var t := Transmit(ch, command).0;
    var sent := [Flushed(ch.inbound), Sent(Frame(command).value)];
    assert !t.RaisesAt(0) && t.inbound == [] && t.NextArrival() == ch.NextArrival()
      && SendSpec(ch, command, true) == Collect(t) && t.log == ch.log + sent by {
      TransmitEffect(ch, command);
    }
    CollectReadsAll(t);
    assert t.inbound + t.NextArrival() == ch.NextArrival();
    AppendPairs(ch.log, Flushed(ch.inbound), Sent(Frame(command).value),
                Slept(ch.NextArrival()), Received(ch.NextArrival()));
  }

  /** A second half whose read does not raise empties the input buffer. */
  lemma CollectReadsAll(t: Channel)
    requires !t.RaisesAt(0)
    ensures Collect(t).0.log == t.log + [Slept(t.NextArrival()), Received(t.inbound + t.NextArrival())]
    ensures Collect(t).0.inbound == []
  {
    var s := t.Sleep();
    assert !s.RaisesAt(0) && s.inbound == t.inbound + t.NextArrival();
    assert Collect(t).0 == s.ReadAll().0;
  }

  /** A log-shape fact about sequences only; it models nothing of the program and is
      proved apart so that the proofs using it stay cheap. */
  lemma AppendPairs(log: seq<Op>, p: Op, q: Op, r: Op, u: Op)
    ensures log + [p, q] + [r, u] == log + [p, q, r, u]
  {
  }

  /** Which outcome a call reports, for every way it can go; in particular
      no exception escapes, and a reply counts as acknowledged exactly when
      it is "%" padded with whitespace (so an empty reply is unexpected). */
  lemma SendOutcome(ch: Channel, command: string, expectResponse: bool)
    ensures var o := SendSpec(ch, command, expectResponse).1;
      var reply := ch.NextArrival();
      && (o == Failed(ResetRaised) <==> ch.RaisesAt(0))
      && (o == Failed(EncodeRaised) <==> !ch.RaisesAt(0) && !IsAscii(command))
      && (o == Failed(WriteRaised) <==> !ch.RaisesAt(0) && IsAscii(command) && ch.RaisesAt(1))
      && (o == NotAwaited <==> Transmits(ch, command) && !expectResponse)
      && (o == Failed(ReadRaised) <==> Transmits(ch, command) && expectResponse && ch.RaisesAt(2))
      && (o == Failed(DecodeRaised) <==>
            Transmits(ch, command) && expectResponse && !ch.RaisesAt(2) && !AllAscii(reply))
      && (o == Acknowledged <==>
            Transmits(ch, command) && expectResponse && !ch.RaisesAt(2) && AllAscii(reply)
            && Padded(AsciiDecode(reply).value, '%'))
      && (o.Unexpected? ==>
            Transmits(ch, command) && expectResponse && !ch.RaisesAt(2) && AllAscii(reply)
            && o.reply == Strip(AsciiDecode(reply).value))
  {
    TransmitEffect(ch, command);
    var (t, raised) := Transmit(ch, command);
    if raised.None? {
      assert t.RaisesAt(0) == ch.RaisesAt(2);
      assert t.inbound + t.NextArrival() == ch.NextArrival();
      CollectEffect(t);
    }
  }

  /** A call that transmits and reads an ASCII reply reports the reply
      check's verdict on exactly the bytes delivered after the write. */
  lemma ReplyOutcome(ch: Channel, command: string)
    requires Transmits(ch, command) && !ch.RaisesAt(2) && AllAscii(ch.NextArrival())
    ensures SendSpec(ch, command, true).1 == Classify(AsciiDecode(ch.NextArrival()).value)
  {
    var t := Transmit(ch, command).0;
    assert !t.RaisesAt(0) && t.inbound == [] && t.NextArrival() == ch.NextArrival()
      && SendSpec(ch, command, true) == Collect(t) by {
      TransmitEffect(ch, command);
    }
    var s := t.Sleep();
    assert s.inbound == ch.NextArrival() && !s.Faulty();
  }

  /** The reply check on concrete replies: "%" followed by a CR is an
      acknowledgement. */
  lemma PercentIsAcknowledged(ch: Channel)
    requires ch.Reliable() && ch.arrivals == [[0x25, CR]]
    ensures SendSpec(ch, "SJ", true).1 == Acknowledged
  {
    assert IsAscii("SJ");
    assert ch.NextArrival() == [0x25, CR];
    var percent := AsciiDecode([0x25, CR]).value;
    assert percent[0] == '%' && IsSpace(percent[1]);
    assert Padded(percent, '%');
    ReplyOutcome(ch, "SJ");
  }

  /** "?" followed by a CR, the controller's "not understood", is reported
      as an unexpected reply like any other text. */
  lemma QuestionMarkIsUnexpected(ch: Channel)
    requires ch.Reliable() && ch.arrivals == [[0x3F, CR]]
    ensures SendSpec(ch, "SJ", true).1 == Unexpected("?")
  {
    assert IsAscii("SJ");
    assert ch.NextArrival() == [0x3F, CR];
    QuestionMarkReply();
    ReplyOutcome(ch, "SJ");
  }

  /** The reply check's verdict on the bytes `?`, CR. */
  lemma QuestionMarkReply()
    ensures Classify(AsciiDecode([0x3F, CR]).value) == Unexpected("?")
  {
    var question := AsciiDecode([0x3F, CR]).value;
    assert question == "?\r" by {
      assert question[0] == '?' && question[1] == '\r';
    }
    StripQuestionMark();
  }

  /** `"?\r".strip()` is `"?"`, which is not the acknowledgement. */
  lemma StripQuestionMark()
    ensures Strip("?\r") == "?" && !Padded("?\r", '%')
  {
    var question := "?\r";
    assert question[0] == '?' && IsSpace(question[1]);
    assert Lead(question) == 0;
    assert Trail(question[..1]) == 0;
    assert Trail(question) == 1;
    assert question[..1] == "?";
  }

  /** Silence is also reported as an unexpected (empty) reply. */
  lemma SilenceIsUnexpected(ch: Channel)
    requires ch.Reliable() && ch.arrivals == []
    ensures SendSpec(ch, "SJ", true).1 == Unexpected("")
  {
    assert IsAscii("SJ");
    assert ch.NextArrival() == [];
    assert AsciiDecode([]).value == "";
    assert !Padded("", '%');
    ReplyOutcome(ch, "SJ");
  }

  // ===========================================================================
  // The power-up handshake (wait_for_power_up)
  // ===========================================================================

  datatype HandshakeOutcome =
    | Completed(firmware: byte, model: byte)   // announcement read and double zero sent
    | TimedOut                                 // no announcement before the deadline
    | Aborted                                  // a SerialException left the function

  /** Byte 0 of the controller's power-up announcement. */
  const Sentinel: byte := 0xFF
  /** The reply that switches the controller into SCL mode: ASCII "00". */
  const DoubleZero: seq<byte> := [0x30, 0x30]
  /** One tick is one 50 ms polling delay; the 10 s deadline is 200 ticks. */
  const PowerUpTimeout: nat := 200

  /** The packet check of one polling iteration on a port in state `ch`: the
      port's next state and, when the loop ends here, how it ends. */
  function PacketCheck(ch: Channel): (Channel, Option<HandshakeOutcome>)
  {
    var (c1, waiting) := ch.InWaiting();
    if waiting.None? then (c1, Some(Aborted))
    else if waiting.value < 3 then (c1, None)
    else
      var (c2, packet) := c1.Read(3);
      if packet.None? then (c2, Some(Aborted))
      else if packet.value[0] != Sentinel then (c2, None)
      else
        var (c3, wrote) := c2.Sleep().Write(DoubleZero);
        (c3, Some(if wrote then Completed(packet.value[1], packet.value[2]) else Aborted))
  }

  /** The polling loop from iteration `elapsed` (the number of ticks since it
      started) with the deadline `timeout`: the packet check comes first, the
      deadline check second, then one tick's delay. */
  function PowerUp(ch: Channel, elapsed: nat, timeout: nat): (Channel, HandshakeOutcome)
    decreases timeout - elapsed
  {
    var (c, done) := PacketCheck(ch);
    if done.Some? then (c, done.value)
    else if elapsed > timeout then (c, TimedOut)
    else PowerUp(c.Sleep(), elapsed + 1, timeout)
  }

  method WaitForPowerUp(port: SerialPort, timeout: nat) returns (outcome: HandshakeOutcome)
    modifies port
    ensures (port.State(), outcome) == PowerUp(old(port.State()), 0, timeout)
  {
    var elapsed := 0;
    while true
      invariant PowerUp(port.State(), elapsed, timeout) == PowerUp(old(port.State()), 0, timeout)
      decreases timeout - elapsed
    {
      var done := CheckPacket(port);
      if done.Some? {
        return done.value;
      }
      if elapsed > timeout {
        return TimedOut;
      }
      port.Sleep();
      elapsed := elapsed + 1;
    }
  }

  /** The packet check of one iteration of `wait_for_power_up`'s loop; `None`
      when polling goes on. */
  method CheckPacket(port: SerialPort) returns (done: Option<HandshakeOutcome>)
    modifies port
    ensures (port.State(), done) == PacketCheck(old(port.State()))
  {
    var waiting := port.InWaiting();
    if waiting.None? {
      return Some(Aborted);
    }
    if waiting.value < 3 {
      return None;
    }
    var packet := port.Read(3);
    if packet.None? {
      return Some(Aborted);
    }
    if packet.value[0] != Sentinel {
      return None;
    }
    port.Sleep();
    var wrote := port.Write(DoubleZero);
    return Some(if wrote then Completed(packet.value[1], packet.value[2]) else Aborted);
  }

  /** The events one packet check logs. */
  function CheckOps(ch: Channel): seq<Op> {
    if ch.RaisesAt(0) || |ch.inbound| < 3 || ch.RaisesAt(1) then []
    else if ch.inbound[0] != Sentinel then [Received(ch.inbound[..3])]
    else [Received(ch.inbound[..3]), Slept(ch.NextArrival())] + (if ch.RaisesAt(2) then [] else [Sent(DoubleZero)])
  }

  /** When one packet check ends the loop: polling goes on exactly when
      `in_waiting` succeeds and either fewer than three bytes are buffered or
      the three read do not start with the sentinel; otherwise the loop
      completes or is aborted, never timed out. */
  lemma CheckOutcome(ch: Channel)
    ensures var done := PacketCheck(ch).1;
      && (done.None? <==> !ch.RaisesAt(0) && (|ch.inbound| < 3 || (!ch.RaisesAt(1) && ch.inbound[0] != Sentinel)))
      && (done.Some? ==> done.value.Completed? || done.value == Aborted)
  {
  }

  /** When one packet check completes the handshake: a sentinel frame read
      and the double zero written; it reports the frame's other two bytes. */
  lemma CheckCompletes(ch: Channel)
    ensures var done := PacketCheck(ch).1;
      && (done.Some? && done.value.Completed? <==>
            !ch.RaisesAt(0) && |ch.inbound| >= 3 && !ch.RaisesAt(1) && ch.inbound[0] == Sentinel && !ch.RaisesAt(2))
      && (done.Some? && done.value.Completed? ==> done.value == Completed(ch.inbound[1], ch.inbound[2]))
  {
    var (c1, waiting) := ch.InWaiting();
    if waiting.Some? && waiting.value >= 3 {
      var (c2, packet) := c1.Read(3);
      if packet.Some? {
        assert packet.value == ch.inbound[..3];
        assert c2.Sleep().RaisesAt(0) == ch.RaisesAt(2);
      }
    }
  }

  /** A packet check after which polling goes on reads either nothing or
      exactly the oldest three bytes, and leaves the far end's script where
      the next iteration expects it. */
  lemma CheckContinues(ch: Channel)
    requires PacketCheck(ch).1.None?
    ensures var c := PacketCheck(ch).0;
      && c.arrivals == ch.arrivals
      && (|ch.inbound| < 3 ==> c.inbound == ch.inbound)
      && (|ch.inbound| >= 3 ==> c.inbound == ch.inbound[3..])
      && (forall k: nat :: c.RaisesAt(k) == ch.RaisesAt(k + (if |ch.inbound| < 3 then 1 else 2)))
  {
    var (c1, waiting) := ch.InWaiting();
    if waiting.value >= 3 {
      var (c2, packet) := c1.Read(3);
      assert forall k: nat :: c2.RaisesAt(k) == ch.RaisesAt(k + 2);
    }
  }

  /** A packet check on a port that never raises leaves one that never raises. */
  lemma CheckReliable(ch: Channel)
    requires ch.Reliable()
    ensures PacketCheck(ch).0.Reliable()
  {
    var (c1, waiting) := ch.InWaiting();
    if waiting.Some? && waiting.value >= 3 {
      var (c2, packet) := c1.Read(3);
      assert c2.Reliable();
    }
  }

  /** One packet check logs exactly `CheckOps`. */
  lemma CheckLog(ch: Channel)
    ensures PacketCheck(ch).0.log == ch.log + CheckOps(ch)
  {
    if !ch.RaisesAt(0) && |ch.inbound| >= 3 && !ch.RaisesAt(1) && ch.inbound[0] == Sentinel {
      AnswerLog(ch);
    } else {
      var (c1, waiting) := ch.InWaiting();
      if waiting.Some? && waiting.value >= 3 {
        var (c2, packet) := c1.Read(3);
        assert packet.Some? ==> packet.value == ch.inbound[..3];
      }
    }
  }

  /** The log of a packet check that reads a frame starting with the sentinel. */
  lemma AnswerLog(ch: Channel)
    requires !ch.RaisesAt(0) && |ch.inbound| >= 3 && !ch.RaisesAt(1) && ch.inbound[0] == Sentinel
    ensures PacketCheck(ch).0.log == ch.log + CheckOps(ch)
  {
    var c2 := ch.InWaiting().0.Read(3).0;
    var frame := ch.inbound[..3];
    assert c2.log == ch.log + [Received(frame)] && c2.arrivals == ch.arrivals;
    assert c2.Sleep().RaisesAt(0) == ch.RaisesAt(2);
    assert PacketCheck(ch).0 == c2.Sleep().Write(DoubleZero).0;
    var w: seq<Op> := if ch.RaisesAt(2) then [] else [Sent(DoubleZero)];
    assert CheckOps(ch) == [Received(frame), Slept(ch.NextArrival())] + w;
    AnswerOpsLog(ch.log, frame, ch.NextArrival(), w);
  }

  /** A log-shape fact about sequences only; it models nothing of the program and is
      proved apart so that the proofs using it stay cheap. */
  lemma AnswerOpsLog(log: seq<Op>, frame: seq<byte>, arrived: seq<byte>, w: seq<Op>)
    ensures log + [Received(frame)] + [Slept(arrived)] + w == log + ([Received(frame), Slept(arrived)] + w)
  {
    ConcatAssoc(log, [Received(frame)], [Slept(arrived)]);
    ConcatAssoc(log, [Received(frame)] + [Slept(arrived)], w);
    assert [Received(frame)] + [Slept(arrived)] == [Received(frame), Slept(arrived)];
  }

  /** The projections of the events of a poll that answers a frame. */
  lemma AnswerProjections(frame: seq<byte>, arrived: seq<byte>, w: seq<Op>)
    requires w == [] || w == [Sent(DoubleZero)]
    ensures Written([Received(frame), Slept(arrived)] + w) == (if w == [] then [] else DoubleZero)
    ensures ReadsOf([Received(frame), Slept(arrived)] + w) == [frame]
    ensures Sleeps([Received(frame), Slept(arrived)] + w) == 1
  {
    assert [Received(frame), Slept(arrived)] + w == [Received(frame)] + [Slept(arrived)] + w;
    DelayProjections([Received(frame)], arrived, w);
    ProjectionsOne(Received(frame));
    if w != [] {
      ProjectionsOne(Sent(DoubleZero));
    }
    assert Written([]) == [] && ReadsOf([]) == [] && Sleeps([]) == 0;
  }

  /** The projections of one packet check's events. */
  lemma CheckProjections(ch: Channel)
    ensures var read := !ch.RaisesAt(0) && |ch.inbound| >= 3 && !ch.RaisesAt(1);
      && Written(CheckOps(ch)) ==
           (if read && ch.inbound[0] == Sentinel && !ch.RaisesAt(2) then DoubleZero else [])
      && ReadsOf(CheckOps(ch)) == (if read then [ch.inbound[..3]] else [])
      && Sleeps(CheckOps(ch)) == (if read && ch.inbound[0] == Sentinel then 1 else 0)
  {
    if !ch.RaisesAt(0) && |ch.inbound| >= 3 && !ch.RaisesAt(1) {
      if ch.inbound[0] == Sentinel {
        AnswerProjections(ch.inbound[..3], ch.NextArrival(), if ch.RaisesAt(2) then [] else [Sent(DoubleZero)]);
      } else {
        ProjectionsOne(Received(ch.inbound[..3]));
      }
    } else {
      assert Written([]) == [] && ReadsOf([]) == [] && Sleeps([]) == 0;
    }
  }

  /** The events the polling loop logs from iteration `elapsed` on. */
  function PowerUpOps(ch: Channel, elapsed: nat, timeout: nat): seq<Op>
    decreases timeout - elapsed
  {
    var (c, done) := PacketCheck(ch);
    if done.Some? || elapsed > timeout then CheckOps(ch)
    else CheckOps(ch) + [Slept(c.NextArrival())] + PowerUpOps(c.Sleep(), elapsed + 1, timeout)
  }

  lemma {:induction false} PowerUpEffect(ch: Channel, elapsed: nat, timeout: nat)
    ensures PowerUp(ch, elapsed, timeout).0.log == ch.log + PowerUpOps(ch, elapsed, timeout)
    decreases timeout - elapsed
  {
    var (c, done) := PacketCheck(ch);
    CheckLog(ch);
    if done.None? && elapsed <= timeout {
      ContinuedOps(ch, elapsed, timeout);
      var next := c.Sleep();
      PowerUpEffect(next, elapsed + 1, timeout);
      DelayedLog(ch.log, CheckOps(ch), c.log, c.NextArrival(), next.log,
        PowerUpOps(next, elapsed + 1, timeout), PowerUp(next, elapsed + 1, timeout).0.log);
    } else {
      StoppedOps(ch, elapsed, timeout);
    }
  }

  /** A loop that ends at iteration `elapsed`: its last state is that of the
      packet check, and its only events are the check's. */
  lemma StoppedOps(ch: Channel, elapsed: nat, timeout: nat)
    requires PacketCheck(ch).1.Some? || elapsed > timeout
    ensures PowerUp(ch, elapsed, timeout).0 == PacketCheck(ch).0
    ensures PowerUp(ch, elapsed, timeout).1 == if PacketCheck(ch).1.Some? then PacketCheck(ch).1.value else TimedOut
    ensures PowerUpOps(ch, elapsed, timeout) == CheckOps(ch)
  {
  }

  /** Logs chained through one delay. A fact about sequences only; it models
      nothing of the program and is proved apart so that the proofs using it
      stay cheap. */
  lemma DelayedLog(a: seq<Op>, b: seq<Op>, before: seq<Op>, arrived: seq<byte>, after: seq<Op>,
                   rest: seq<Op>, final: seq<Op>)
    requires before == a + b && after == before + [Slept(arrived)] && final == after + rest
    ensures final == a + (b + [Slept(arrived)] + rest)
  {
    ConcatAssoc(a, b, [Slept(arrived)]);
    ConcatAssoc(a, b + [Slept(arrived)], rest);
  }

  /** A loop that goes on past iteration `elapsed`: the rest of it, and its
      events, are those of that iteration's delay and the next iterations. */
  lemma ContinuedOps(ch: Channel, elapsed: nat, timeout: nat)
    requires PacketCheck(ch).1.None? && elapsed <= timeout
    ensures var c := PacketCheck(ch).0;
      && PowerUp(ch, elapsed, timeout) == PowerUp(c.Sleep(), elapsed + 1, timeout)
      && PowerUpOps(ch, elapsed, timeout)
           == CheckOps(ch) + [Slept(c.NextArrival())] + PowerUpOps(c.Sleep(), elapsed + 1, timeout)
  {
  }

  /** The loop writes the double zero, once, when it completes, and writes
      nothing otherwise. */
  lemma {:induction false} PowerUpWrites(ch: Channel, elapsed: nat, timeout: nat)
    ensures Written(PowerUpOps(ch, elapsed, timeout)) ==
      if PowerUp(ch, elapsed, timeout).1.Completed? then DoubleZero else []
    decreases timeout - elapsed
  {
    CheckOutcome(ch);
    CheckCompletes(ch);
    CheckProjections(ch);
    var (c, done) := PacketCheck(ch);
    if done.None? && elapsed <= timeout {
      ContinuedOps(ch, elapsed, timeout);
      DelayProjections(CheckOps(ch), c.NextArrival(), PowerUpOps(c.Sleep(), elapsed + 1, timeout));
      PowerUpWrites(c.Sleep(), elapsed + 1, timeout);
    } else {
      StoppedOps(ch, elapsed, timeout);
    }
  }

  /** The frames one packet check reads: at most one, of three bytes; one
      not starting with the sentinel when polling goes on, and the reported
      one when the handshake completes. */
  lemma CheckReads(ch: Channel)
    ensures var done := PacketCheck(ch).1;
      var here := ReadsOf(CheckOps(ch));
      && |here| <= 1 && (forall i :: 0 <= i < |here| ==> |here[i]| == 3)
      && (done.None? ==> forall i :: 0 <= i < |here| ==> here[i][0] != Sentinel)
      && (done.Some? && done.value.Completed? ==> here == [[Sentinel, done.value.firmware, done.value.model]])
      && (done.Some? ==> done.value.Completed? || done.value == Aborted)
  {
    CheckOutcome(ch);
    CheckCompletes(ch);
    CheckProjections(ch);
    if !ch.RaisesAt(0) && |ch.inbound| >= 3 && !ch.RaisesAt(1) {
      OneFrame(ReadsOf(CheckOps(ch)), ch.inbound, PacketCheck(ch).1);
    } else {
      assert ReadsOf(CheckOps(ch)) == [];
    }
  }

  /** The one frame of three bytes a packet check read, and how it ended. */
  lemma OneFrame(here: seq<seq<byte>>, b: seq<byte>, done: Option<HandshakeOutcome>)
    requires |b| >= 3 && here == [b[..3]]
    requires done.None? ==> b[0] != Sentinel
    requires done.Some? && done.value.Completed? ==> b[0] == Sentinel && done.value == Completed(b[1], b[2])
    ensures |here| <= 1 && (forall i :: 0 <= i < |here| ==> |here[i]| == 3)
    ensures done.None? ==> forall i :: 0 <= i < |here| ==> here[i][0] != Sentinel
    ensures done.Some? && done.value.Completed? ==> here == [[Sentinel, done.value.firmware, done.value.model]]
  {
    assert b[..3] == [b[0], b[1], b[2]];
  }

  /** What the loop reads: frames of exactly three bytes; only the last can
      start with the sentinel, and it does when the loop completes, carrying
      the firmware and model bytes reported; after a timeout no frame read
      started with it. */
  lemma {:induction false} PowerUpReads(ch: Channel, elapsed: nat, timeout: nat)
    ensures ReadsFit(ReadsOf(PowerUpOps(ch, elapsed, timeout)), PowerUp(ch, elapsed, timeout).1)
    decreases timeout - elapsed
  {
    CheckReads(ch);
    var (c, done) := PacketCheck(ch);
    if done.None? && elapsed <= timeout {
      var rest := PowerUpOps(c.Sleep(), elapsed + 1, timeout);
      ContinuedOps(ch, elapsed, timeout);
      DelayProjections(CheckOps(ch), c.NextArrival(), rest);
      PowerUpReads(c.Sleep(), elapsed + 1, timeout);
      ReadsFitAppend(ReadsOf(CheckOps(ch)), ReadsOf(rest), PowerUp(c.Sleep(), elapsed + 1, timeout).1);
    } else {
      StoppedOps(ch, elapsed, timeout);
    }
  }

  /** The frames read by a handshake that ended with `o`: three bytes each;
      only the last can start with the sentinel, and it does when the
      handshake completed, carrying the firmware and model bytes reported;
      after a timeout none does. */
  predicate ReadsFit(frames: seq<seq<byte>>, o: HandshakeOutcome) {
    && (forall i :: 0 <= i < |frames| ==> |frames[i]| == 3)
    && (forall i :: 0 <= i < |frames| - 1 ==> frames[i][0] != Sentinel)
    && (o.Completed? ==> |frames| > 0 && frames[|frames| - 1] == [Sentinel, o.firmware, o.model])
    && (o.TimedOut? ==> forall i :: 0 <= i < |frames| ==> frames[i][0] != Sentinel)
  }

  /** Frames of three bytes without the sentinel, read before a fitting
      run, still fit. */
  lemma ReadsFitAppend(here: seq<seq<byte>>, rest: seq<seq<byte>>, o: HandshakeOutcome)
    requires forall i :: 0 <= i < |here| ==> |here[i]| == 3 && here[i][0] != Sentinel
    requires ReadsFit(rest, o)
    ensures ReadsFit(here + rest, o)
  {
    var frames := here + rest;
    assert forall i :: 0 <= i < |here| ==> frames[i] == here[i];
    assert forall i :: |here| <= i < |frames| ==> frames[i] == rest[i - |here|];
  }

  /** A timed-out loop delayed exactly once per iteration up to and
      including the deadline's. From the start that is 201 delays of 50 ms,
      because processing time is counted as zero. */
  lemma {:induction false} PowerUpSleeps(ch: Channel, elapsed: nat, timeout: nat)
    ensures PowerUp(ch, elapsed, timeout).1.TimedOut? ==>
      Sleeps(PowerUpOps(ch, elapsed, timeout)) == if elapsed > timeout then 0 else timeout + 1 - elapsed
    decreases timeout - elapsed
  {
    CheckOutcome(ch);
    CheckProjections(ch);
    var (c, done) := PacketCheck(ch);
    if done.None? && elapsed <= timeout {
      ContinuedOps(ch, elapsed, timeout);
      DelayProjections(CheckOps(ch), c.NextArrival(), PowerUpOps(c.Sleep(), elapsed + 1, timeout));
      PowerUpSleeps(c.Sleep(), elapsed + 1, timeout);
    } else {
      StoppedOps(ch, elapsed, timeout);
    }
  }

  /** On a port that never raises, the handshake is never aborted. */
  lemma {:induction false} PowerUpNotAborted(ch: Channel, elapsed: nat, timeout: nat)
    requires ch.Reliable()
    ensures PowerUp(ch, elapsed, timeout).1 != Aborted
    decreases timeout - elapsed
  {
    CheckOutcome(ch);
    CheckCompletes(ch);
    CheckReliable(ch);
    var (c, done) := PacketCheck(ch);
    if done.None? && elapsed <= timeout {
      ContinuedOps(ch, elapsed, timeout);
      assert c.Sleep().Reliable();
      PowerUpNotAborted(c.Sleep(), elapsed + 1, timeout);
    } else {
      StoppedOps(ch, elapsed, timeout);
    }
  }

  /** On a port that never raises, the handshake answers, exactly when some
      frame it read started with the sentinel, and otherwise times out. */
  lemma HandshakeAcks(ch: Channel, elapsed: nat, timeout: nat)
    requires ch.Reliable()
    ensures var o := PowerUp(ch, elapsed, timeout).1;
      var frames := ReadsOf(PowerUpOps(ch, elapsed, timeout));
      && (forall i :: 0 <= i < |frames| ==> |frames[i]| == 3)
      && (o.Completed? <==> SomeSentinel(frames))
      && (o.TimedOut? <==> !SomeSentinel(frames))
  {
    PowerUpNotAborted(ch, elapsed, timeout);
    PowerUpReads(ch, elapsed, timeout);
    SentinelDecides(ReadsOf(PowerUpOps(ch, elapsed, timeout)), PowerUp(ch, elapsed, timeout).1);
  }

  /** Some frame read starts with the sentinel. */
  predicate SomeSentinel(frames: seq<seq<byte>>) {
    exists i :: 0 <= i < |frames| && |frames[i]| > 0 && frames[i][0] == Sentinel
  }

  /** For a handshake that was not aborted, the frames it read decide how it
      ended: completed exactly when one starts with the sentinel. */
  lemma SentinelDecides(frames: seq<seq<byte>>, o: HandshakeOutcome)
    requires ReadsFit(frames, o) && o != Aborted
    ensures o.Completed? <==> SomeSentinel(frames)
    ensures o.TimedOut? <==> !SomeSentinel(frames)
  {
    if o.Completed? {
      var last := |frames| - 1;
      assert frames[last] == [Sentinel, o.firmware, o.model];
      assert frames[last][0] == Sentinel;
    }
  }

  /** The packet check comes before the deadline check: a frame with the
      sentinel buffered when the deadline has already passed is still
      answered. */
  lemma FrameAtDeadline(ch: Channel, elapsed: nat, timeout: nat)
    requires elapsed > timeout
    requires !ch.RaisesAt(0) && !ch.RaisesAt(1) && !ch.RaisesAt(2)
    requires |ch.inbound| >= 3 && ch.inbound[0] == Sentinel
    ensures PowerUp(ch, elapsed, timeout).1 == Completed(ch.inbound[1], ch.inbound[2])
  {
    CheckCompletes(ch);
  }

  /** With nothing buffered and nothing ever delivered, the loop polls until
      the deadline and gives up. */
  lemma {:induction false} SilenceTimesOut(ch: Channel, elapsed: nat, timeout: nat)
    requires ch.Reliable() && ch.inbound == [] && ch.arrivals == []
    ensures PowerUp(ch, elapsed, timeout).1 == TimedOut
    decreases timeout - elapsed
  {
    var (c, done) := PacketCheck(ch);
    assert done.None? && c.inbound == [] && c.arrivals == [] && c.Reliable() by {
      CheckOutcome(ch);
      CheckContinues(ch);
      CheckReliable(ch);
    }
    if elapsed <= timeout {
      ContinuedOps(ch, elapsed, timeout);
      SilenceTimesOut(c.Sleep(), elapsed + 1, timeout);
    }
  }

  /** A silent controller: the handshake times out and writes nothing, after
      201 delays with processing time counted as zero. */
  lemma SilentController(ch: Channel)
    requires ch.Reliable() && ch.inbound == [] && ch.arrivals == []
    ensures var (c, o) := PowerUp(ch, 0, PowerUpTimeout);
      && o == TimedOut
      && Written(c.log) == Written(ch.log)
      && Sleeps(c.log) == Sleeps(ch.log) + 201
  {
    SilenceTimesOut(ch, 0, PowerUpTimeout);
    PowerUpEffect(ch, 0, PowerUpTimeout);
    PowerUpWrites(ch, 0, PowerUpTimeout);
    PowerUpSleeps(ch, 0, PowerUpTimeout);
    ProjectionsAppend(ch.log, PowerUpOps(ch, 0, PowerUpTimeout));
  }

  /** A controller announcing firmware 1.7, model 3 during the first delay:
      the second iteration reads the frame and answers with the double zero. */
  lemma AnnouncingController(ch: Channel)
    requires ch.Reliable() && ch.inbound == [] && ch.arrivals == [[0xFF, 7, 3]]
    ensures var (c, o) := PowerUp(ch, 0, PowerUpTimeout);
      && o == Completed(7, 3)
      && Written(c.log) == Written(ch.log) + DoubleZero
  {
    var (c, done) := PacketCheck(ch);
    assert done.None? && c.inbound == [] && c.arrivals == ch.arrivals && c.Reliable() by {
      CheckOutcome(ch);
      CheckContinues(ch);
      CheckReliable(ch);
    }
    ContinuedOps(ch, 0, PowerUpTimeout);
    var next := c.Sleep();
    assert next.inbound == [0xFF, 7, 3];
    assert !next.RaisesAt(0) && !next.RaisesAt(1) && !next.RaisesAt(2);
    CheckCompletes(next);
    PowerUpEffect(ch, 0, PowerUpTimeout);
    PowerUpWrites(ch, 0, PowerUpTimeout);
    ProjectionsAppend(ch.log, PowerUpOps(ch, 0, PowerUpTimeout));
  }

  // ===========================================================================
  // The jog state machine (the body of the main loop)
  // ===========================================================================

  /** `last_command`: None, "CCW", "CW" or "STOP". */
  datatype LastCommand = Unset | CCW | CW | Stop

  /** The burst that starts a jog: stop any jog first, set acceleration,
      deceleration and speed, the direction ("DI-1" counter-clockwise, "DI1"
      clockwise), then start. */
  function JogStart(direction: string): seq<string> {
    ["SJ", "JA10", "JL25", "JS5", direction, "CJ"]
  }

  /** A direction command of a burst. */
  predicate IsDirection(command: string) {
    command == "DI-1" || command == "DI1"
  }

  /** One tick of the loop: the commands it sends, the new `last_command`,
      and whether it ends with the 0.1 s delay. */
  datatype Tick = Tick(commands: seq<string>, next: LastCommand, pause: bool)

  /** The value `last_command` holds after a tick with these buttons. */
  function Holding(b1: bool, b2: bool): LastCommand {
    if b1 && b2 then Unset else if b1 then CCW else if b2 then CW else Stop
  }

  /** The if/elif chain of one tick, with button 1 (counter-clockwise) and
      button 2 (clockwise) read as `b1` and `b2`. A single press starts its
      jog unless that jog is already current, and holding it sends nothing;
      no button sends a stop, both buttons a kill; afterwards `last_command`
      reflects the buttons alone. */
  function Step(last: LastCommand, b1: bool, b2: bool): (t: Tick)
    ensures t.next == Holding(b1, b2)
    ensures t.pause <==> b1 == b2
  {
    if b1 && !b2 && last != CCW then Tick(JogStart("DI-1"), CCW, false)
    else if b2 && !b1 && last != CW then Tick(JogStart("DI1"), CW, false)
    else if !b1 && !b2 then Tick(["SJ"], Stop, true)
    else if b1 && b2 then Tick(["SK"], Unset, true)
    else Tick([], last, false)
  }

  /** What one tick sends, branch by branch: each burst exactly when its
      condition holds. */
  lemma StepCommands(last: LastCommand, b1: bool, b2: bool)
    ensures var t := Step(last, b1, b2);
      && (t.commands == JogStart("DI-1") <==> b1 && !b2 && last != CCW)
      && (t.commands == JogStart("DI1") <==> b2 && !b1 && last != CW)
      && (t.commands == ["SJ"] <==> !b1 && !b2)
      && (t.commands == ["SK"] <==> b1 && b2)
      && (t.commands == [] <==> b1 != b2 && last == Holding(b1, b2))
  {
  }

  /** A tick sends a direction only at place 4, after a stop. */
  lemma StepDirections(last: LastCommand, b1: bool, b2: bool)
    ensures var t := Step(last, b1, b2);
      forall k :: 0 <= k < |t.commands| && IsDirection(t.commands[k]) ==> k == 4 && t.commands[0] == "SJ"
  {
  }

  /** A tick sends only ASCII commands. */
  lemma StepAscii(last: LastCommand, b1: bool, b2: bool)
    ensures AllAsciiText(Step(last, b1, b2).commands)
  {
    assert IsAscii("SJ") && IsAscii("JA10") && IsAscii("JL25") && IsAscii("JS5");
    assert IsAscii("DI-1") && IsAscii("DI1") && IsAscii("CJ") && IsAscii("SK");
  }

  /** The ticks of a run of the loop from `last` over the button samples. */
  function Ticks(last: LastCommand, samples: seq<(bool, bool)>): seq<Tick>
    decreases |samples|
  {
    if samples == [] then []
    else
      var t := Step(last, samples[0].0, samples[0].1);
      [t] + Ticks(t.next, samples[1..])
  }

  /** `last_command` at the start of tick `i`: the initial value on the first
      tick, and what the previous tick's buttons left on every later one. */
  function Before(last: LastCommand, samples: seq<(bool, bool)>, i: nat): LastCommand
    requires i <= |samples|
  {
    if i == 0 then last else Holding(samples[i - 1].0, samples[i - 1].1)
  }

  /** Tick `i` of a run is the step from `Before(last, samples, i)`: no state
      other than the previous tick's buttons carries over. */
  lemma {:induction false} TicksAt(last: LastCommand, samples: seq<(bool, bool)>)
    ensures |Ticks(last, samples)| == |samples|
    ensures forall i :: 0 <= i < |samples| ==>
      Ticks(last, samples)[i] == Step(Before(last, samples, i), samples[i].0, samples[i].1)
    decreases |samples|
  {
    if samples != [] {
      var t := Step(last, samples[0].0, samples[0].1);
      var rest := samples[1..];
      TicksAt(t.next, rest);
      forall i | 0 < i < |samples|
        ensures Ticks(last, samples)[i] == Step(Before(last, samples, i), samples[i].0, samples[i].1)
      {
        assert Ticks(last, samples)[i] == Ticks(t.next, rest)[i - 1];
        assert rest[i - 1] == samples[i];
        assert Before(t.next, rest, i - 1) == Before(last, samples, i);
      }
    }
  }

  /** What tick `i` sends, for every combination of buttons: a burst exactly
      on the first tick of a single press (so never twice within one
      uninterrupted press), nothing while that press is held, a stop on
      every idle tick and a kill on every tick with both buttons. */
  lemma TickCommands(last: LastCommand, samples: seq<(bool, bool)>, i: nat)
    requires i < |samples|
    ensures |Ticks(last, samples)| == |samples|
    ensures var cmds := Ticks(last, samples)[i].commands;
      && (cmds == JogStart("DI-1") <==>
            samples[i] == (true, false) && (if i == 0 then last != CCW else samples[i - 1] != (true, false)))
      && (cmds == JogStart("DI1") <==>
            samples[i] == (false, true) && (if i == 0 then last != CW else samples[i - 1] != (false, true)))
      && (cmds == [] <==>
            samples[i].0 != samples[i].1
            && (if i == 0 then last == Holding(samples[0].0, samples[0].1) else samples[i - 1] == samples[i]))
      && (cmds == ["SJ"] <==> samples[i] == (false, false))
      && (cmds == ["SK"] <==> samples[i] == (true, true))
  {
    TicksAt(last, samples);
  }

  /** After a kill the next single press sends its whole burst again. */
  lemma KillRearms(last: LastCommand, samples: seq<(bool, bool)>, i: nat)
    requires 0 < i < |samples| && samples[i - 1] == (true, true) && samples[i].0 != samples[i].1
    ensures |Ticks(last, samples)| == |samples|
    ensures Ticks(last, samples)[i].commands == JogStart(if samples[i].0 then "DI-1" else "DI1")
  {
    TickCommands(last, samples, i);
  }

  /** Every command the loop sends, in order. */
  function Stream(last: LastCommand, samples: seq<(bool, bool)>): seq<string>
    decreases |samples|
  {
    if samples == [] then []
    else
      var t := Step(last, samples[0].0, samples[0].1);
      t.commands + Stream(t.next, samples[1..])
  }

  /** Every direction command comes four commands after a stop. */
  predicate StopsFirst(cmds: seq<string>) {
    forall k :: 0 <= k < |cmds| && IsDirection(cmds[k]) ==> k >= 4 && cmds[k - 4] == "SJ"
  }

  /** Every direction command in the stream comes four commands after a stop
      of the same burst: a change of direction always stops first. */
  lemma {:induction false} StopBeforeDirection(last: LastCommand, samples: seq<(bool, bool)>)
    ensures StopsFirst(Stream(last, samples))
    decreases |samples|
  {
    if samples != [] {
      var t := Step(last, samples[0].0, samples[0].1);
      StepDirections(last, samples[0].0, samples[0].1);
      StopBeforeDirection(t.next, samples[1..]);
      StopsFirstAppend(t.commands, Stream(t.next, samples[1..]));
      assert Stream(last, samples) == t.commands + Stream(t.next, samples[1..]);
    }
  }

  /** A burst whose only direction is at place 4 after a stop, followed by
      commands that stop first, stops first. */
  lemma StopsFirstAppend(burst: seq<string>, rest: seq<string>)
    requires forall k :: 0 <= k < |burst| && IsDirection(burst[k]) ==> k == 4 && burst[0] == "SJ"
    requires StopsFirst(rest)
    ensures StopsFirst(burst + rest)
  {
    var cmds := burst + rest;
    forall k | 0 <= k < |cmds| && IsDirection(cmds[k])
      ensures k >= 4 && cmds[k - 4] == "SJ"
    {
      if k < |burst| {
        assert cmds[k] == burst[k];
        assert k == 4 && cmds[k - 4] == burst[0];
      } else {
        var j := k - |burst|;
        assert cmds[k] == rest[j];
        assert j >= 4 && rest[j - 4] == "SJ";
        assert cmds[k - 4] == rest[j - 4];
      }
    }
  }

  /** Every command is ASCII text. */
  predicate AllAsciiText(cmds: seq<string>) {
    forall k :: 0 <= k < |cmds| ==> IsAscii(cmds[k])
  }

  /** Every command of the stream is ASCII. */
  lemma {:induction false} StreamAscii(last: LastCommand, samples: seq<(bool, bool)>)
    ensures AllAsciiText(Stream(last, samples))
    decreases |samples|
  {
    if samples != [] {
      var t := Step(last, samples[0].0, samples[0].1);
      StepAscii(last, samples[0].0, samples[0].1);
      StreamAscii(t.next, samples[1..]);
      AsciiTextAppend(t.commands, Stream(t.next, samples[1..]));
      assert Stream(last, samples) == t.commands + Stream(t.next, samples[1..]);
    }
  }

  lemma AsciiTextAppend(a: seq<string>, b: seq<string>)
    requires AllAsciiText(a) && AllAsciiText(b)
    ensures AllAsciiText(a + b)
  {
    forall k | 0 <= k < |a + b|
      ensures IsAscii((a + b)[k])
    {
      if k < |a| {
        assert (a + b)[k] == a[k];
      } else {
        assert (a + b)[k] == b[k - |a|];
      }
    }
  }

  // ---------------------------------------------------------------------------
  // The loop on the port
  // ---------------------------------------------------------------------------

  /** `send_command` for each of `commands` in turn, replies awaited. */
  function SendEach(ch: Channel, commands: seq<string>): Channel
    decreases |commands|
  {
    if commands == [] then ch else SendEach(SendSpec(ch, commands[0], true).0, commands[1..])
  }

  /** One tick of the loop on a port in state `ch`: the port's next state and
      the new `last_command`. */
  function TickSpec(ch: Channel, last: LastCommand, b1: bool, b2: bool): (Channel, LastCommand)
  {
    var t := Step(last, b1, b2);
    var c := SendEach(ch, t.commands);
    (if t.pause then c.Sleep() else c, t.next)
  }

  /** The loop over the button samples, one tick per sample. */
  function LoopSpec(ch: Channel, last: LastCommand, samples: seq<(bool, bool)>): (Channel, LastCommand)
    decreases |samples|
  {
    if samples == [] then (ch, last)
    else
      var (c, next) := TickSpec(ch, last, samples[0].0, samples[0].1);
      LoopSpec(c, next, samples[1..])
  }

  /** The six `send_command` calls of a jog start. */
  method StartJog(port: SerialPort, direction: string)
    modifies port
    ensures port.State() == SendEach(old(port.State()), JogStart(direction))
  {
    ghost var todo := JogStart(direction);
    ghost var goal := SendEach(port.State(), todo);
    var o := SendCommand(port, "SJ");
    todo := todo[1..];
    assert SendEach(port.State(), todo) == goal;
    o := SendCommand(port, "JA10");
    todo := todo[1..];
    assert SendEach(port.State(), todo) == goal;
    o := SendCommand(port, "JL25");
    todo := todo[1..];
    assert SendEach(port.State(), todo) == goal;
    o := SendCommand(port, "JS5");
    todo := todo[1..];
    assert SendEach(port.State(), todo) == goal;
    o := SendCommand(port, direction);
    todo := todo[1..];
    assert SendEach(port.State(), todo) == goal;
    o := SendCommand(port, "CJ");
    todo := todo[1..];
    assert todo == [];
  }

  /** The body of the main loop, with the buttons read as `b1` and `b2`. */
  method JogTick(port: SerialPort, last: LastCommand, b1: bool, b2: bool) returns (next: LastCommand)
    modifies port
    ensures (port.State(), next) == TickSpec(old(port.State()), last, b1, b2)
  {
    if b1 && !b2 && last != CCW {
      StartJog(port, "DI-1");
      next := CCW;
    } else if b2 && !b1 && last != CW {
      StartJog(port, "DI1");
      next := CW;
    } else if !b1 && !b2 {
      var o := SendCommand(port, "SJ");
      next := Stop;
      port.Sleep();
    } else if b1 && b2 {
      var o := SendCommand(port, "SK");
      next := Unset;
      port.Sleep();
    } else {
      next := last;
    }
  }

  /** The main loop over the button samples, from `last_command = None`. */
  method JogLoop(port: SerialPort, samples: seq<(bool, bool)>) returns (last: LastCommand)
    modifies port
    ensures (port.State(), last) == LoopSpec(old(port.State()), Unset, samples)
  {
    last := Unset;
    var i := 0;
    while i < |samples|
      invariant i <= |samples|
      invariant LoopSpec(port.State(), last, samples[i..]) == LoopSpec(old(port.State()), Unset, samples)
    {
      var (b1, b2) := samples[i];
      assert samples[i..][1..] == samples[i + 1..];
      last := JogTick(port, last, b1, b2);
      i := i + 1;
    }
  }

  /** `main`: the handshake, the 0.1 s delay, then the loop; a
      `SerialException` out of the handshake ends the program. */
  function OperateSpec(ch: Channel, samples: seq<(bool, bool)>): (Channel, HandshakeOutcome)
  {
    var (c, h) := PowerUp(ch, 0, PowerUpTimeout);
    if h == Aborted then (c, h) else (LoopSpec(c.Sleep(), Unset, samples).0, h)
  }

  method Operate(port: SerialPort, samples: seq<(bool, bool)>) returns (handshake: HandshakeOutcome)
    modifies port
    ensures (port.State(), handshake) == OperateSpec(old(port.State()), samples)
  {
    handshake := WaitForPowerUp(port, PowerUpTimeout);
    if handshake == Aborted {
      return;
    }
    port.Sleep();
    var last := JogLoop(port, samples);
  }

  /** The frames of `commands`, in order, as they go out on the line. */
  function Frames(commands: seq<string>): seq<byte>
    decreases |commands|
  {
    if commands == [] then []
    else (if IsAscii(commands[0]) then Frame(commands[0]).value else []) + Frames(commands[1..])
  }

  lemma {:induction false} FramesAppend(a: seq<string>, b: seq<string>)
    ensures Frames(a + b) == Frames(a) + Frames(b)
    decreases |a|
  {
    if a != [] {
      assert (a + b)[1..] == a[1..] + b;
      FramesAppend(a[1..], b);
    } else {
      assert a + b == b;
    }
  }

  /** On a port that never raises, sending ASCII commands puts exactly their
      frames on the line, in order. */
  lemma {:induction false} SendEachWrites(ch: Channel, commands: seq<string>)
    requires ch.Reliable() && AllAsciiText(commands)
    ensures Written(SendEach(ch, commands).log) == Written(ch.log) + Frames(commands)
    ensures SendEach(ch, commands).Reliable()
    decreases |commands|
  {
    if commands != [] {
      var c := SendSpec(ch, commands[0], true).0;
      assert IsAscii(commands[0]);
      SendLog(ch, commands[0], true);
      assert AllAsciiText(commands[1..]) by {
        assert forall k :: 0 <= k < |commands| - 1 ==> commands[1..][k] == commands[k + 1];
      }
      SendEachWrites(c, commands[1..]);
    }
  }

  /** On a port that never raises, one tick writes exactly the frames of its
      commands. */
  lemma TickWrites(ch: Channel, last: LastCommand, b1: bool, b2: bool)
    requires ch.Reliable()
    ensures Written(TickSpec(ch, last, b1, b2).0.log) == Written(ch.log) + Frames(Step(last, b1, b2).commands)
    ensures TickSpec(ch, last, b1, b2).0.Reliable()
  {
    var t := Step(last, b1, b2);
    StepAscii(last, b1, b2);
    SendEachWrites(ch, t.commands);
    SleepWritesNothing(SendEach(ch, t.commands));
  }

  /** On a port that never raises, the loop writes exactly the frames of its
      command stream. */
  lemma {:induction false} LoopWrites(ch: Channel, last: LastCommand, samples: seq<(bool, bool)>)
    requires ch.Reliable()
    ensures Written(LoopSpec(ch, last, samples).0.log) == Written(ch.log) + Frames(Stream(last, samples))
    ensures LoopSpec(ch, last, samples).0.Reliable()
    decreases |samples|
  {
    if samples != [] {
      var ticked := TickSpec(ch, last, samples[0].0, samples[0].1);
      var cmds := Step(last, samples[0].0, samples[0].1).commands;
      var rest := Stream(ticked.1, samples[1..]);
      TickWrites(ch, last, samples[0].0, samples[0].1);
      assert LoopSpec(ch, last, samples) == LoopSpec(ticked.0, ticked.1, samples[1..]);
      LoopWrites(ticked.0, ticked.1, samples[1..]);
      calc {
        Written(LoopSpec(ch, last, samples).0.log);
        Written(ticked.0.log) + Frames(rest);
        (Written(ch.log) + Frames(cmds)) + Frames(rest);
        { ConcatAssoc(Written(ch.log), Frames(cmds), Frames(rest)); }
        Written(ch.log) + (Frames(cmds) + Frames(rest));
        { FramesAppend(cmds, rest); }
        Written(ch.log) + Frames(cmds + rest);
        { assert Stream(last, samples) == cmds + rest; }
        Written(ch.log) + Frames(Stream(last, samples));
      }
    }
  }

  /** Whatever the port does, `last_command` ends as the last tick's buttons
      left it: `send_command` never lets a failure reach the state machine. */
  lemma LoopState(ch: Channel, last: LastCommand, samples: seq<(bool, bool)>)
    ensures LoopSpec(ch, last, samples).1 ==
      if samples == [] then last else Holding(samples[|samples| - 1].0, samples[|samples| - 1].1)
  {
    LoopLast(ch, last, samples);
    FinalHolding(last, samples);
  }

  /** `last_command` after the samples, as the state machine alone sets it. */
  function Final(last: LastCommand, samples: seq<(bool, bool)>): LastCommand
    decreases |samples|
  {
    if samples == [] then last else Final(Holding(samples[0].0, samples[0].1), samples[1..])
  }

  lemma {:induction false} LoopLast(ch: Channel, last: LastCommand, samples: seq<(bool, bool)>)
    ensures LoopSpec(ch, last, samples).1 == Final(last, samples)
    decreases |samples|
  {
    if samples != [] {
      var ticked := TickSpec(ch, last, samples[0].0, samples[0].1);
      assert ticked.1 == Holding(samples[0].0, samples[0].1);
      LoopLast(ticked.0, ticked.1, samples[1..]);
    }
  }

  lemma {:induction false} FinalHolding(last: LastCommand, samples: seq<(bool, bool)>)
    ensures Final(last, samples) ==
      if samples == [] then last else Holding(samples[|samples| - 1].0, samples[|samples| - 1].1)
    decreases |samples|
  {
    if samples != [] {
      var rest := samples[1..];
      FinalHolding(Holding(samples[0].0, samples[0].1), rest);
      if rest != [] {
        assert rest[|rest| - 1] == samples[|samples| - 1];
      }
    }
  }

  /** The whole program on a port that never raises: the double zero when
      the controller announced itself, then the frames of the command stream
      the buttons produce, and nothing else. */
  lemma OperateWrites(ch: Channel, samples: seq<(bool, bool)>)
    requires ch.Reliable()
    ensures var (c, h) := OperateSpec(ch, samples);
      && h != Aborted
      && Written(c.log) == Written(ch.log) + (if h.Completed? then DoubleZero else []) + Frames(Stream(Unset, samples))
  {
    var (c, h) := PowerUp(ch, 0, PowerUpTimeout);
    PowerUpNotAborted(ch, 0, PowerUpTimeout);
    PowerUpEffect(ch, 0, PowerUpTimeout);
    PowerUpWrites(ch, 0, PowerUpTimeout);
    ProjectionsAppend(ch.log, PowerUpOps(ch, 0, PowerUpTimeout));
    assert c.Reliable() by {
      PowerUpReliable(ch, 0, PowerUpTimeout);
    }
    SleepWritesNothing(c);
    LoopWrites(c.Sleep(), Unset, samples);
  }

  lemma {:induction false} PowerUpReliable(ch: Channel, elapsed: nat, timeout: nat)
    requires ch.Reliable()
    ensures PowerUp(ch, elapsed, timeout).0.Reliable()
    decreases timeout - elapsed
  {
    CheckReliable(ch);
    var (c, done) := PacketCheck(ch);
    if done.None? && elapsed <= timeout {
      ContinuedOps(ch, elapsed, timeout);
      assert c.Sleep().Reliable();
      PowerUpReliable(c.Sleep(), elapsed + 1, timeout);
    } else {
      StoppedOps(ch, elapsed, timeout);
    }
  }
}
