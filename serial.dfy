/**
 * The serial line to the motor controller, as the host sees it.
 *
 * A port holds the bytes received but not yet read (`in_waiting` is their
 * number) and a log of everything the host did on the line. The far end is
 * scripted inside the port: `failures` says, one flag per port operation in
 * order, whether that operation raises `SerialException` (an exhausted script
 * means every further operation succeeds), and `arrivals` lists the bytes the
 * device delivers during each successive delay of the host, one chunk per
 * delay (an exhausted list means the device stays silent).
 *
 * The member functions of `Channel` below are the environment's definitions:
 * they state what each pyserial call does to the line, and the methods of
 * `SerialPort` are proved against them.
 */
module Serial {
  import opened Options
  import opened Text

  /** One observable event on the line. */
  datatype Op =
    | Flushed(dropped: seq<byte>)   // reset_input_buffer discarded these unread bytes
    | Sent(data: seq<byte>)         // write put these bytes on the line
    | Received(data: seq<byte>)     // read, read_all or readline took these bytes in
    | Slept(arrived: seq<byte>)     // a delay, during which the device delivered these bytes

  /** The value of a port at one moment. */
  datatype Channel = Channel(inbound: seq<byte>, log: seq<Op>, failures: seq<bool>, arrivals: seq<seq<byte>>)
  {
    /** The next port operation raises `SerialException`. */
    predicate Faulty() {
      RaisesAt(0)
    }

    /** The port operation `k` places from now raises (the next one is 0). */
    predicate RaisesAt(k: nat) {
      k < |failures| && failures[k]
    }

    /** No port operation from now on raises. */
    predicate Reliable() {
      forall i :: 0 <= i < |failures| ==> !failures[i]
    }

    /** Every byte buffered now or delivered later is ASCII. */
    predicate AsciiTraffic() {
      AllAscii(inbound) && forall i :: 0 <= i < |arrivals| ==> AllAscii(arrivals[i])
    }

    /** The port after one more operation has used up its failure flag. */
    function Advance(): (c: Channel)
      ensures c.inbound == inbound && c.log == log && c.arrivals == arrivals
      ensures Reliable() ==> c.Reliable()
      ensures forall k: nat :: c.RaisesAt(k) == RaisesAt(k + 1)
    {
      this.(failures := if |failures| > 0 then failures[1..] else [])
    }

    /** `in_waiting`: the number of bytes received and not yet read. */
    function InWaiting(): (r: (Channel, Option<nat>))
      ensures r.1.None? <==> Faulty()
      ensures r.1.Some? ==> r.1.value == |inbound|
      ensures r.0 == Advance()
    {
      if Faulty() then (Advance(), None) else (Advance(), Some(|inbound|))
    }

    /** `read(size)`: up to `size` buffered bytes, oldest first. */
    function Read(size: nat): (r: (Channel, Option<seq<byte>>))
      ensures r.1.None? <==> Faulty()
      ensures r.1.None? ==> r.0 == Advance()
      ensures r.1.Some? ==> |r.1.value| == (if size < |inbound| then size else |inbound|)
      ensures r.1.Some? ==> r.1.value + r.0.inbound == inbound
      ensures r.1.Some? ==> r.0.log == log + [Received(r.1.value)]
      ensures r.0.failures == Advance().failures && r.0.arrivals == arrivals
    {
      if Faulty() then (Advance(), None)
      else
        var n := if size < |inbound| then size else |inbound|;
        (Advance().(inbound := inbound[n..], log := log + [Received(inbound[..n])]), Some(inbound[..n]))
    }

    /** `read_all()`: every buffered byte. */
    function ReadAll(): (r: (Channel, Option<seq<byte>>))
      ensures r.1.None? <==> Faulty()
      ensures r.1.None? ==> r.0 == Advance()
      ensures r.1.Some? ==> r.1.value == inbound && r.0.inbound == []
      ensures r.1.Some? ==> r.0.log == log + [Received(inbound)]
      ensures r.0.failures == Advance().failures && r.0.arrivals == arrivals
    {
      if Faulty() then (Advance(), None)
      else (Advance().(inbound := [], log := log + [Received(inbound)]), Some(inbound))
    }

    /** `readline()`: the buffered bytes up to and including the first line
        feed, or all of them when none is a line feed (the read times out). */
    function ReadLine(): (r: (Channel, Option<seq<byte>>))
      ensures r.1.None? <==> Faulty()
      ensures r.1.None? ==> r.0 == Advance()
      ensures r.1.Some? ==> r.1.value + r.0.inbound == inbound
      ensures r.1.Some? ==> forall i :: 0 <= i < |r.1.value| - 1 ==> r.1.value[i] != LF
      ensures r.1.Some? && r.0.inbound != [] ==> |r.1.value| > 0 && r.1.value[|r.1.value| - 1] == LF
      ensures r.1.Some? ==> r.0.log == log + [Received(r.1.value)]
      ensures r.0.failures == Advance().failures && r.0.arrivals == arrivals
    {
      if Faulty() then (Advance(), None)
      else
        var n := LineLength(inbound);
        (Advance().(inbound := inbound[n..], log := log + [Received(inbound[..n])]), Some(inbound[..n]))
    }

    /** `write(data)`: the bytes go out on the line. */
    function Write(data: seq<byte>): (r: (Channel, bool))
      ensures r.1 <==> !Faulty()
      ensures r.0.log == log + (if r.1 then [Sent(data)] else [])
      ensures r.0.inbound == inbound && r.0.failures == Advance().failures && r.0.arrivals == arrivals
    {
      if Faulty() then (Advance(), false) else (Advance().(log := log + [Sent(data)]), true)
    }

    /** `reset_input_buffer()`: every buffered byte is discarded. */
    function ResetInput(): (r: (Channel, bool))
      ensures r.1 <==> !Faulty()
      ensures r.1 ==> r.0.inbound == [] && r.0.log == log + [Flushed(inbound)]
      ensures !r.1 ==> r.0 == Advance()
      ensures r.0.failures == Advance().failures && r.0.arrivals == arrivals
    {
      if Faulty() then (Advance(), false)
      else (Advance().(inbound := [], log := log + [Flushed(inbound)]), true)
    }

    /** A delay of the host (`time.sleep`): the device's next chunk arrives. */
    function Sleep(): (c: Channel)
      ensures c.inbound == inbound + NextArrival()
      ensures c.log == log + [Slept(NextArrival())]
      ensures c.failures == failures
      ensures c.arrivals == if |arrivals| > 0 then arrivals[1..] else []
    {
      this.(inbound := inbound + NextArrival(), log := log + [Slept(NextArrival())],
            arrivals := if |arrivals| > 0 then arrivals[1..] else [])
    }

    function NextArrival(): seq<byte> {
      if |arrivals| > 0 then arrivals[0] else []
    }
  }

  /** The length of the line at the start of `b`: through its first line feed,
      or all of `b` when it holds none. */
  function LineLength(b: seq<byte>): (n: nat)
    ensures n <= |b|
    ensures forall i :: 0 <= i < n - 1 ==> b[i] != LF
    ensures n < |b| ==> n > 0 && b[n - 1] == LF
    ensures n == |b| && n > 0 && b[n - 1] != LF ==> forall i :: 0 <= i < |b| ==> b[i] != LF
    ensures n == 0 ==> b == []
  {
    if b == [] then 0 else if b[0] == LF then 1 else 1 + LineLength(b[1..])
  }

  // ---------------------------------------------------------------------------
  // Projections of the log
  // ---------------------------------------------------------------------------

  /** Every byte the host has written, in order. */
  function Written(log: seq<Op>): seq<byte>
  {
    if log == [] then []
    else Written(log[..|log| - 1]) + (if log[|log| - 1].Sent? then log[|log| - 1].data else [])
  }

  /** Every chunk the host has read, in order. */
  function ReadsOf(log: seq<Op>): seq<seq<byte>>
  {
    if log == [] then []
    else ReadsOf(log[..|log| - 1]) + (if log[|log| - 1].Received? then [log[|log| - 1].data] else [])
  }

  /** The number of delays in the log. */
  function Sleeps(log: seq<Op>): nat
  {
    if log == [] then 0 else Sleeps(log[..|log| - 1]) + (if log[|log| - 1].Slept? then 1 else 0)
  }

  lemma {:induction false} ProjectionsAppend(a: seq<Op>, b: seq<Op>)
    ensures Written(a + b) == Written(a) + Written(b)
    ensures ReadsOf(a + b) == ReadsOf(a) + ReadsOf(b)
    ensures Sleeps(a + b) == Sleeps(a) + Sleeps(b)
  {
    if b != [] {
      var b' := b[..|b| - 1];
      assert (a + b)[..|a + b| - 1] == a + b';
      assert (a + b)[|a + b| - 1] == b[|b| - 1];
      ProjectionsAppend(a, b');
      assert b[..|b| - 1] == b';
    } else {
      assert a + b == a;
    }
  }

  /** The projections of a log split around one delay. */
  lemma DelayProjections(a: seq<Op>, arrived: seq<byte>, b: seq<Op>)
    ensures Written(a + [Slept(arrived)] + b) == Written(a) + Written(b)
    ensures ReadsOf(a + [Slept(arrived)] + b) == ReadsOf(a) + ReadsOf(b)
    ensures Sleeps(a + [Slept(arrived)] + b) == Sleeps(a) + 1 + Sleeps(b)
  {
    ProjectionsOne(Slept(arrived));
    ProjectionsAppend(a + [Slept(arrived)], b);
    ProjectionsAppend(a, [Slept(arrived)]);
  }

  /** Operations never make the traffic non-ASCII, and a line read from
      ASCII traffic is ASCII. */
  lemma AsciiTrafficKept(ch: Channel, data: seq<byte>)
    requires ch.AsciiTraffic()
    ensures ch.Sleep().AsciiTraffic()
    ensures ch.Write(data).0.AsciiTraffic()
    ensures ch.ReadLine().0.AsciiTraffic()
    ensures ch.ReadLine().1.Some? ==> AllAscii(ch.ReadLine().1.value)
  {
    SleepKeepsAscii(ch);
    ReadLineKeepsAscii(ch);
  }

  lemma SleepKeepsAscii(ch: Channel)
    requires ch.AsciiTraffic()
    ensures ch.Sleep().AsciiTraffic()
  {
    var s := ch.Sleep();
    assert AllAscii(ch.NextArrival());
    AllAsciiAppend(ch.inbound, ch.NextArrival());
    assert forall i :: 0 <= i < |s.arrivals| ==> s.arrivals[i] == ch.arrivals[i + 1];
  }

  lemma ReadLineKeepsAscii(ch: Channel)
    requires ch.AsciiTraffic()
    ensures ch.ReadLine().0.AsciiTraffic()
    ensures ch.ReadLine().1.Some? ==> AllAscii(ch.ReadLine().1.value)
  {
    var (c, line) := ch.ReadLine();
    if line.Some? {
      assert forall i :: 0 <= i < |line.value| ==> line.value[i] == ch.inbound[i];
      assert forall i :: 0 <= i < |c.inbound| ==> c.inbound[i] == ch.inbound[i + |line.value|];
    }
  }

  lemma AllAsciiAppend(a: seq<byte>, b: seq<byte>)
    requires AllAscii(a) && AllAscii(b)
    ensures AllAscii(a + b)
  {
    forall i | 0 <= i < |a + b| ensures (a + b)[i] as int < 0x80 {
      if i >= |a| {
        assert (a + b)[i] == b[i - |a|];
      }
    }
  }

  /** A delay writes nothing. */
  lemma SleepWritesNothing(ch: Channel)
    ensures Written(ch.Sleep().log) == Written(ch.log)
    ensures ch.Reliable() ==> ch.Sleep().Reliable()
  {
    ProjectionsOne(Slept(ch.NextArrival()));
    ProjectionsAppend(ch.log, [Slept(ch.NextArrival())]);
  }

  /** The projections of a few single events, as used by the proofs. */
  lemma ProjectionsOne(op: Op)
    ensures Written([op]) == (if op.Sent? then op.data else [])
    ensures ReadsOf([op]) == (if op.Received? then [op.data] else [])
    ensures Sleeps([op]) == (if op.Slept? then 1 else 0)
  {
    assert [op][..0] == [];
  }

  // ---------------------------------------------------------------------------
  // The port itself
  // ---------------------------------------------------------------------------

  class SerialPort {
    var inbound: seq<byte>
    var log: seq<Op>
    var failures: seq<bool>
    var arrivals: seq<seq<byte>>

    function State(): Channel
      reads this
    {
      Channel(inbound, log, failures, arrivals)
    }

    constructor (initial: Channel)
      ensures State() == initial
    {
      inbound, log, failures, arrivals := initial.inbound, initial.log, initial.failures, initial.arrivals;
    }

    /** Uses up the failure flag of the operation under way; true if it raises. */
    method Attempt() returns (raises: bool)
      modifies this
      ensures raises == old(State()).Faulty()
      ensures State() == old(State()).Advance()
    {
      raises := |failures| > 0 && failures[0];
      failures := if |failures| > 0 then failures[1..] else [];
    }

    method InWaiting() returns (n: Option<nat>)
      modifies this
      ensures (State(), n) == old(State()).InWaiting()
    {
      var raises := Attempt();
      n := if raises then None else Some(|inbound|);
    }

    method Read(size: nat) returns (data: Option<seq<byte>>)
      modifies this
      ensures (State(), data) == old(State()).Read(size)
    {
      var raises := Attempt();
      if raises {
        data := None;
      } else {
        var n := if size < |inbound| then size else |inbound|;
        data := Some(inbound[..n]);
        log := log + [Received(inbound[..n])];
        inbound := inbound[n..];
      }
    }

    method ReadAll() returns (data: Option<seq<byte>>)
      modifies this
      ensures (State(), data) == old(State()).ReadAll()
    {
      var raises := Attempt();
      if raises {
        data := None;
      } else {
        data := Some(inbound);
        log := log + [Received(inbound)];
        inbound := [];
      }
    }

    method ReadLine() returns (data: Option<seq<byte>>)
      modifies this
      ensures (State(), data) == old(State()).ReadLine()
    {
      var raises := Attempt();
      if raises {
        data := None;
      } else {
        var n := 0;
        while n < |inbound| && inbound[n] != LF
          invariant 0 <= n <= |inbound|
          invariant LineLength(inbound) == n + LineLength(inbound[n..])
        {
          assert inbound[n..][1..] == inbound[n + 1..];
          n := n + 1;
        }
        if n < |inbound| {
          n := n + 1;
        }
        data := Some(inbound[..n]);
        log := log + [Received(inbound[..n])];
        inbound := inbound[n..];
      }
    }

    method Write(bytes: seq<byte>) returns (ok: bool)
      modifies this
      ensures (State(), ok) == old(State()).Write(bytes)
    {
      var raises := Attempt();
      ok := !raises;
      if ok {
        log := log + [Sent(bytes)];
      }
    }

    method ResetInputBuffer() returns (ok: bool)
      modifies this
      ensures (State(), ok) == old(State()).ResetInput()
    {
      var raises := Attempt();
      ok := !raises;
      if ok {
        log := log + [Flushed(inbound)];
        inbound := [];
      }
    }

    /** `time.sleep(...)`: whatever the device sends meanwhile is buffered. */
    method Sleep()
      modifies this
      ensures State() == old(State()).Sleep()
    {
      var chunk := if |arrivals| > 0 then arrivals[0] else [];
      inbound := inbound + chunk;
      log := log + [Slept(chunk)];
      arrivals := if |arrivals| > 0 then arrivals[1..] else [];
    }
  }
}
