/** The dynamic-payload ping pair: `setup()` picks a role from the strap pin
    and opens the pipes, and each call of `loop()` runs one tick of the role's
    branch. The initiator ("ping out") sends a growing prefix of a fixed text
    and waits up to 500 ms for it to come back; the responder ("pong back")
    echoes every valid frame it receives. */
module PingPairDyn {
  import opened Payload
  import opened Trace
  import opened Transceiver
  import opened Timing

  datatype Role = PingOut | PongBack

  /** The enumeration value of a role: `role_ping_out` is 1 and
      `role_pong_back` the next one. */
  function RoleCode(r: Role): (c: nat)
    ensures c == 1 || c == 2
    ensures c == 1 <==> r == PingOut
  {
    match r
    case PingOut => 1
    case PongBack => 2
  }

  /** The debug names, indexed by enumeration value; index 0 is unused. */
  const RoleFriendlyName: seq<string> := ["invalid", "Ping out", "Pong back"]

  /** The role a strap reading selects: a pin left open (pulled high) pings,
      a pin tied to ground pongs. */
  function RoleFromStrap(strapHigh: bool): (r: Role)
    ensures r == PingOut <==> strapHigh
  {
    if strapHigh then PingOut else PongBack
  }

  /** The name printed for a role: always one of the two real names, never
      the placeholder for an invalid role. */
  function FriendlyName(r: Role): (name: string)
    ensures RoleCode(r) < |RoleFriendlyName| && name == RoleFriendlyName[RoleCode(r)]
    ensures name != RoleFriendlyName[0]
  {
    RoleFriendlyName[RoleCode(r)]
  }

  /** Which of the two pipe addresses a role writes to. */
  function WritingPipe(r: Role): (p: nat)
    ensures p < 2
  {
    if r == PingOut then 0 else 1
  }

  /** Which of the two pipe addresses a role listens on. */
  function ReadingPipe(r: Role): (p: nat)
    ensures p < 2
  {
    if r == PingOut then 1 else 0
  }

  /** The reading pipe is opened on child pipe number 1. */
  const ReadingChild: nat := 1

  /** Each node listens where the other writes, and never where it writes
      itself. */
  lemma PipesCrossed(r: Role)
    ensures WritingPipe(r) != ReadingPipe(r)
    ensures WritingPipe(PingOut) == ReadingPipe(PongBack)
    ensures WritingPipe(PongBack) == ReadingPipe(PingOut)
  {
  }

  /** The radio actions of `setup()` for role `r`: open this role's writing
      pipe, open the other role's as reading pipe 1, start listening. */
  function SetupTrace(r: Role): (t: seq<Event>)
    ensures ListeningAfter(t)
    ensures HalfDuplex(t) && TemplateWrites(t) && EchoesRead(t) && Written(t) == []
  {
    var e1 := [OpenWritingPipe(WritingPipe(r))];
    var e2 := [OpenWritingPipe(WritingPipe(r)), OpenReadingPipe(ReadingChild, ReadingPipe(r))];
    var e3 := [OpenWritingPipe(WritingPipe(r)), OpenReadingPipe(ReadingChild, ReadingPipe(r)), StartListening];
    assert e3[..2] == e2 && e2[..1] == e1 && e1[..0] == [];
    assert Written(e1) == Written(e1[..0]) + [] == [];
    assert Written(e2) == Written(e1) + [] == [];
    e3
  }

  /** Milliseconds of `delay()` before the strap is read, and between
      initiator ticks. */
  const SettleDelay: nat := 20
  const InterPingDelay: nat := 100

  /** What one initiator tick made of the reply. */
  datatype Reply = TimedOut | Corrupt | Answered(payload: Frame)

  /** The radio actions of an initiator tick with cursor `n`: switch to
      transmit, send the prefix, switch back to receive, then read the reply
      if there was a valid one. */
  function PingTrace(n: int, reply: Reply): (t: seq<Event>)
    requires InRange(n)
  {
    [StopListening, Write(Outgoing(n)), StartListening]
      + (if reply.Answered? then [Read(reply.payload)] else [])
  }

  /** An initiator tick keeps the half-duplex discipline, writes only
      template prefixes, writes exactly one frame, and reads only the reply. */
  lemma PingTraceDiscipline(t: seq<Event>, n: int, reply: Reply)
    requires InRange(n)
    requires HalfDuplex(t) && TemplateWrites(t)
    ensures HalfDuplex(t + PingTrace(n, reply)) && TemplateWrites(t + PingTrace(n, reply))
    ensures Written(PingTrace(n, reply)) == [Outgoing(n)]
    ensures Received(PingTrace(n, reply)) == if reply.Answered? then [reply.payload] else []
  {
    var p := PingTrace(n, reply);
    var e1, e2 := [StopListening], [StopListening, Write(Outgoing(n))];
    var e3 := [StopListening, Write(Outgoing(n)), StartListening];
    assert e1[..0] == [] && e2[..1] == e1 && e3[..2] == e2;
    assert Written(e1) == [] && Received(e1) == [];
    assert Written(e2) == [Outgoing(n)] && Received(e2) == [];
    assert Written(e3) == [Outgoing(n)] && Received(e3) == [];
    if reply.Answered? {
      assert p[..3] == e3;
    } else {
      assert p == e3;
    }
    assert HalfDuplex(p) && TemplateWrites(p);
    HalfDuplexAppend(t, p);
    TemplateWritesAppend(t, p);
  }

  /** The frame taken from the receive FIFO by an initiator tick: `q` is what
      the FIFO held and received during the wait, `rest` what it holds
      afterwards. A timeout takes nothing; otherwise the head frame is taken,
      and it is empty exactly when the reply is reported corrupt. */
  predicate ReplyTaken(q: seq<Frame>, reply: Reply, rest: seq<Frame>) {
    match reply
    case TimedOut => rest == q
    case Corrupt => q != [] && q[0] == [] && rest == q[1..]
    case Answered(p) => q != [] && q[0] == p && p != [] && rest == q[1..]
  }

  /** One availability check, after `polls` earlier ones, of a FIFO that held
      `rx0` when the schedule was `earlier`: the frames `taken` have since
      been removed from the front of what arrived. The check uses the next
      slot of the schedule. */
  method PollAfter(radio: Radio, ghost taken: seq<Frame>, ghost rx0: seq<Frame>,
                   ghost earlier: seq<seq<Frame>>, ghost polls: nat)
    returns (ready: bool)
    requires radio.Valid() && radio.listening
    requires radio.arrivals == Remaining(earlier, polls)
    requires taken + radio.rx == rx0 + Flatten(Used(earlier, polls))
    modifies radio
    ensures radio.Valid() && radio.listening && radio.trace == old(radio.trace)
    ensures radio.arrivals == Remaining(earlier, polls + 1)
    ensures taken + radio.rx == rx0 + Flatten(Used(earlier, polls + 1))
    ensures ready <==> radio.rx != []
    ensures |radio.arrivals| < |old(radio.arrivals)| || (radio.arrivals == old(radio.arrivals) == [] && radio.rx == old(radio.rx))
  {
    PollStep(rx0, earlier, polls, taken + radio.rx);
    ready := radio.Available();
  }

  /** Each of the first `polls - 1` availability checks found a frame: with
      one frame taken per earlier check, more frames had arrived by check `j`
      than the `j - 1` taken before it. */
  predicate EachCheckFound(rx0: seq<Frame>, earlier: seq<seq<Frame>>, polls: nat) {
    forall j :: 1 <= j < polls ==> |rx0 + Flatten(Used(earlier, j))| >= j
  }

  /** One more check that found a frame extends the run. */
  lemma EachCheckFoundStep(rx0: seq<Frame>, earlier: seq<seq<Frame>>, polls: nat)
    requires EachCheckFound(rx0, earlier, polls)
    requires polls >= 1 ==> |rx0 + Flatten(Used(earlier, polls))| >= polls
    ensures EachCheckFound(rx0, earlier, polls + 1)
  {
  }

  /** The initiator's wait: poll for a frame until one is available or a
      counter reading lies more than 500 ms past the one taken at the start.
      Each pass reads the counter once and checks the FIFO once; the check
      comes after the reading that sets `timeout`, so a frame found then
      stays queued. `polls` counts the availability checks. */
  method AwaitReply(radio: Radio, clock: Clock) returns (timeout: bool, ghost polls: nat)
    requires radio.Valid() && radio.listening
    requires clock.Valid() && clock.WindowCloses()
    modifies radio, clock
    ensures radio.Valid() && radio.listening && radio.trace == old(radio.trace)
    ensures clock.Valid() && clock.pos == old(clock.pos) + polls && polls >= 1
    ensures radio.arrivals == Remaining(old(radio.arrivals), polls)
    ensures radio.rx == old(radio.rx) + Flatten(Used(old(radio.arrivals), polls))
    ensures !timeout ==> radio.rx != []
    ensures polls >= 2 ==> old(radio.rx) == [] && Flatten(Used(old(radio.arrivals), polls - 1)) == []
    ensures clock.pos <= FirstLate(clock.readings, old(clock.pos), old(clock.pos) + 1) + 1
    ensures timeout <==> clock.pos == FirstLate(clock.readings, old(clock.pos), old(clock.pos) + 1) + 1
  {
    ghost var p0, rx0, arrivals0 := clock.pos, radio.rx, radio.arrivals;
    ghost var deadline := FirstLate(clock.readings, p0, p0 + 1);
    var startedWaitingAt := clock.Millis();
    timeout := false;
    PollStart(arrivals0);
    var available := PollAfter(radio, [], rx0, arrivals0, 0);
    polls := 1;
    while !available && !timeout
      invariant radio.Valid() && radio.listening && radio.trace == old(radio.trace)
      invariant clock.Valid() && clock.pos == p0 + polls && polls >= 1
      invariant radio.arrivals == Remaining(arrivals0, polls)
      invariant radio.rx == rx0 + Flatten(Used(arrivals0, polls))
      invariant startedWaitingAt == clock.readings[p0]
      invariant available <==> radio.rx != []
      invariant polls >= 2 ==> rx0 == [] && Flatten(Used(arrivals0, polls - 1)) == []
      invariant clock.pos <= deadline + 1
      invariant timeout <==> clock.pos == deadline + 1
      decreases |clock.readings| - clock.pos
    {
      var now := clock.Millis();
      if Elapsed(now, startedWaitingAt) > ReplyWindow {
        timeout := true;
      }
      available := PollAfter(radio, [], rx0, arrivals0, polls);
      polls := polls + 1;
    }
  }

  /** The sketch's global state after `setup()`. */
  class Sketch {
    const radio: Radio
    const role: Role
    /** `receive_payload`: room for a full frame and its NUL terminator. */
    const receivePayload: array<Byte>
    /** `next_payload_size`: the length of the next initiator frame. */
    var nextPayloadSize: int
    /** Total milliseconds spent in `delay()`. */
    ghost var delayed: nat

    ghost predicate Valid()
      reads this, radio
    {
      && InRange(nextPayloadSize)
      && receivePayload.Length == MaxPayloadSize + 1
      && radio.Valid() && radio.listening
      && HalfDuplex(radio.trace)
      && (role == PingOut ==> TemplateWrites(radio.trace))
      && (role == PongBack ==> EchoesRead(radio.trace))
    }

    /** `setup()` on a freshly initialised radio: read the strap, open this
        role's writing pipe and the other role's as reading pipe 1, and
        start listening. */
    constructor Setup(strapHigh: bool, radio: Radio)
      requires radio.Valid() && radio.trace == []
      modifies radio
      ensures Valid() && this.radio == radio && fresh(receivePayload)
      ensures role == RoleFromStrap(strapHigh)
      ensures nextPayloadSize == MinPayloadSize && delayed == SettleDelay
      ensures receivePayload[..] == seq(MaxPayloadSize + 1, _ => 0)
      ensures radio.trace == SetupTrace(role)
      ensures radio.rx == old(radio.rx) && radio.arrivals == old(radio.arrivals)
    {
      this.radio := radio;
      receivePayload := new Byte[MaxPayloadSize + 1](_ => 0);
      nextPayloadSize := MinPayloadSize;
      delayed := SettleDelay;
      if strapHigh {
        role := PingOut;
      } else {
        role := PongBack;
      }
      new;
      if role == PingOut {
        radio.OpenWritingPipe(0);
        radio.OpenReadingPipe(ReadingChild, 1);
      } else {
        radio.OpenWritingPipe(1);
        radio.OpenReadingPipe(ReadingChild, 0);
      }
      radio.StartListening();
      assert radio.trace == SetupTrace(role);
    }

    /** One call of `loop()`: the branch of this node's role. `reply` is what
        an initiator tick made of the reply and `polls` how many availability
        checks the tick made. An initiator reads the counter once per check
        and finds the FIFO empty at every check but the last; a responder
        stops at the first check that finds the FIFO empty, after taking one
        frame per earlier check. */
    method Loop(clock: Clock) returns (ghost reply: Reply, ghost polls: nat)
      requires Valid() && clock.Valid()
      requires role == PingOut ==> clock.WindowCloses()
      modifies this, radio, clock, receivePayload
      ensures Valid() && clock.Valid()
      ensures role == PingOut ==>
        && clock.pos == old(clock.pos) + polls && polls >= 1
        && clock.pos <= FirstLate(clock.readings, old(clock.pos), old(clock.pos) + 1) + 1
        && (reply.TimedOut? <==> clock.pos == FirstLate(clock.readings, old(clock.pos), old(clock.pos) + 1) + 1)
        && radio.trace == old(radio.trace) + PingTrace(old(nextPayloadSize), reply)
        && nextPayloadSize == (if reply.Corrupt? then old(nextPayloadSize) else Advance(old(nextPayloadSize)))
        && delayed == old(delayed) + (if reply.Corrupt? then 0 else InterPingDelay)
        && radio.arrivals == Remaining(old(radio.arrivals), polls)
        && (polls >= 2 ==>
              old(radio.rx) == [] && Flatten(Used(old(radio.arrivals), polls - 1)) == [])
        && ReplyTaken(old(radio.rx) + Flatten(Used(old(radio.arrivals), polls)), reply, radio.rx)
        && receivePayload[..] ==
             (if reply.Answered? then StoreFrame(old(receivePayload[..]), reply.payload)
              else old(receivePayload[..]))
      ensures role == PongBack ==>
        && nextPayloadSize == old(nextPayloadSize) && delayed == old(delayed)
        && clock.pos == old(clock.pos)
        && radio.rx == []
        && polls >= 1 && |old(radio.rx) + Flatten(Used(old(radio.arrivals), polls))| == polls - 1
        && EachCheckFound(old(radio.rx), old(radio.arrivals), polls)
        && radio.arrivals == Remaining(old(radio.arrivals), polls)
        && radio.trace ==
             old(radio.trace) + EchoTrace(old(radio.rx) + Flatten(Used(old(radio.arrivals), polls)))
        && receivePayload[..] ==
             StoreFrames(old(receivePayload[..]), old(radio.rx) + Flatten(Used(old(radio.arrivals), polls)))
    {
      reply, polls := TimedOut, 0;
      if role == PingOut {
        reply, polls := PingTick(clock);
      }
      if role == PongBack {
        polls := PongTick();
      }
    }

    /** The initiator branch of `loop()`; `polls` counts its availability
        checks, each of which uses one counter reading. */
    method PingTick(clock: Clock) returns (reply: Reply, ghost polls: nat)
      requires Valid() && role == PingOut
      requires clock.Valid() && clock.WindowCloses()
      modifies this, radio, clock, receivePayload
      ensures Valid()
      ensures clock.Valid() && clock.pos == old(clock.pos) + polls && polls >= 1
      ensures clock.pos <= FirstLate(clock.readings, old(clock.pos), old(clock.pos) + 1) + 1
      ensures reply.TimedOut? <==>
        clock.pos == FirstLate(clock.readings, old(clock.pos), old(clock.pos) + 1) + 1
      ensures radio.trace == old(radio.trace) + PingTrace(old(nextPayloadSize), reply)
      ensures nextPayloadSize ==
        if reply.Corrupt? then old(nextPayloadSize) else Advance(old(nextPayloadSize))
      ensures delayed == old(delayed) + if reply.Corrupt? then 0 else InterPingDelay
      ensures radio.arrivals == Remaining(old(radio.arrivals), polls)
      ensures polls >= 2 ==>
        old(radio.rx) == [] && Flatten(Used(old(radio.arrivals), polls - 1)) == []
      ensures ReplyTaken(old(radio.rx) + Flatten(Used(old(radio.arrivals), polls)), reply, radio.rx)
      ensures receivePayload[..] ==
        if reply.Answered? then StoreFrame(old(receivePayload[..]), reply.payload)
        else old(receivePayload[..])
    {
      ghost var t0 := radio.trace;
      var n := nextPayloadSize;
      reply, polls := Exchange(clock);
      PingTraceDiscipline(t0, n, reply);
      ghost var buffer := receivePayload[..];
      Pace(reply);
      assert receivePayload[..] == buffer;
    }

    /** The end of an initiator tick: a corrupt reply returns at once;
        otherwise the cursor advances, wrapping past the maximum, and the
        tick waits out the inter-ping delay. */
    method Pace(reply: Reply)
      requires InRange(nextPayloadSize)
      modifies this
      ensures nextPayloadSize ==
        if reply.Corrupt? then old(nextPayloadSize) else Advance(old(nextPayloadSize))
      ensures delayed == old(delayed) + if reply.Corrupt? then 0 else InterPingDelay
    {
      if reply.Corrupt? {
        return;
      }
      nextPayloadSize := nextPayloadSize + PayloadSizeIncrementsBy;
      if nextPayloadSize > MaxPayloadSize {
        nextPayloadSize := MinPayloadSize;
      }
      delayed := delayed + InterPingDelay;
    }

    /** The radio and clock part of an initiator tick: send the prefix, wait
        for a reply, and take it if one is available. */
    method Exchange(clock: Clock) returns (reply: Reply, ghost polls: nat)
      requires radio.Valid() && InRange(nextPayloadSize)
      requires receivePayload.Length == MaxPayloadSize + 1
      requires clock.Valid() && clock.WindowCloses()
      modifies radio, clock, receivePayload
      ensures radio.Valid() && radio.listening
      ensures clock.Valid() && clock.pos == old(clock.pos) + polls && polls >= 1
      ensures clock.pos <= FirstLate(clock.readings, old(clock.pos), old(clock.pos) + 1) + 1
      ensures reply.TimedOut? <==>
        clock.pos == FirstLate(clock.readings, old(clock.pos), old(clock.pos) + 1) + 1
      ensures radio.trace == old(radio.trace) + PingTrace(nextPayloadSize, reply)
      ensures radio.arrivals == Remaining(old(radio.arrivals), polls)
      ensures polls >= 2 ==>
        old(radio.rx) == [] && Flatten(Used(old(radio.arrivals), polls - 1)) == []
      ensures ReplyTaken(old(radio.rx) + Flatten(Used(old(radio.arrivals), polls)), reply, radio.rx)
      ensures receivePayload[..] ==
        if reply.Answered? then StoreFrame(old(receivePayload[..]), reply.payload)
        else old(receivePayload[..])
    {
      ghost var t0 := radio.trace;
      SendPing();
      var timeout;
      timeout, polls := AwaitReply(radio, clock);
      if timeout {
        reply := TimedOut;
      } else {
        reply := TakeReply();
      }
      assert radio.trace == t0 + PingTrace(nextPayloadSize, reply);
    }

    /** The initiator's transmission: switch to transmit, send the first
        `nextPayloadSize` octets of the template, switch back to receive. */
    method SendPing()
      requires radio.Valid() && InRange(nextPayloadSize)
      modifies radio
      ensures radio.Valid() && radio.listening
      ensures radio.trace == old(radio.trace) + [StopListening, Write(Outgoing(nextPayloadSize)), StartListening]
      ensures radio.rx == old(radio.rx) && radio.arrivals == old(radio.arrivals)
    {
      radio.StopListening();
      radio.Write(SendPayload[..nextPayloadSize]);
      radio.StartListening();
    }

    /** The initiator's handling of an available reply: a corrupt one is
        dropped by the size query; otherwise it is copied to the buffer,
        NUL-terminated and taken off the FIFO. */
    method TakeReply() returns (reply: Reply)
      requires radio.Valid() && radio.rx != []
      requires receivePayload.Length == MaxPayloadSize + 1
      modifies radio, receivePayload
      ensures radio.Valid() && radio.listening == old(radio.listening) && radio.arrivals == old(radio.arrivals)
      ensures !reply.TimedOut? && ReplyTaken(old(radio.rx), reply, radio.rx)
      ensures radio.trace == old(radio.trace) + if reply.Answered? then [Read(reply.payload)] else []
      ensures receivePayload[..] ==
        if reply.Answered? then StoreFrame(old(receivePayload[..]), reply.payload)
        else old(receivePayload[..])
    {
      ghost var q, buf0 := radio.rx, receivePayload[..];
      var len := radio.DynamicPayloadSize();
      if len == 0 {
        return Corrupt;
      }
      radio.Read(receivePayload, len);
      receivePayload[len] := 0;
      assert q[0][..len] == q[0];
      reply := Answered(receivePayload[..len]);
      assert receivePayload[..] == StoreFrame(buf0, reply.payload);
    }

    /** One pass of the responder's loop, on the frame at the head of the
        FIFO: a corrupt one is dropped by the size query and the pass ends
        there (`continue`); otherwise it is copied to the buffer and
        NUL-terminated, and sent back between a switch to transmit and the
        switch back to receive. */
    method EchoFrame()
      requires radio.Valid() && radio.listening && radio.rx != []
      requires receivePayload.Length == MaxPayloadSize + 1
      modifies radio, receivePayload
      ensures radio.Valid() && radio.listening && radio.arrivals == old(radio.arrivals)
      ensures radio.rx == old(radio.rx)[1..]
      ensures radio.trace == old(radio.trace) + EchoOne(old(radio.rx)[0])
      ensures receivePayload[..] ==
        if old(radio.rx)[0] == [] then old(receivePayload[..])
        else StoreFrame(old(receivePayload[..]), old(radio.rx)[0])
    {
      ghost var f, t0, buf0 := radio.rx[0], radio.trace, receivePayload[..];
      var len := radio.DynamicPayloadSize();
      if len == 0 {
        return;
      }
      radio.Read(receivePayload, len);
      receivePayload[len] := 0;
      assert f[..len] == f && receivePayload[..len] == f;
      radio.StopListening();
      radio.Write(receivePayload[..len]);
      radio.StartListening();
      assert radio.trace == t0 + EchoOne(f);
      assert receivePayload[..] == StoreFrame(buf0, f);
    }

    /** One availability check of the responder's loop and, when a frame is
        available, one pass on it. `taken` are the frames earlier passes took
        from the FIFO since it held `rx0` and the schedule was `arrivals0`;
        `f` is the frame this pass takes. */
    method PongStep(ghost t0: seq<Event>, ghost rx0: seq<Frame>, ghost arrivals0: seq<seq<Frame>>,
                    ghost buf0: seq<Byte>, ghost taken: seq<Frame>, ghost polls: nat)
      returns (available: bool, ghost f: Frame)
      requires radio.Valid() && radio.listening
      requires receivePayload.Length == MaxPayloadSize + 1 && |buf0| > MaxPayloadSize
      requires radio.arrivals == Remaining(arrivals0, polls)
      requires taken + radio.rx == rx0 + Flatten(Used(arrivals0, polls))
      requires radio.trace == t0 + EchoTrace(taken)
      requires receivePayload[..] == StoreFrames(buf0, taken)
      modifies radio, receivePayload
      ensures radio.Valid() && radio.listening
      ensures radio.arrivals == Remaining(arrivals0, polls + 1)
      ensures !available ==>
        radio.rx == [] && taken == rx0 + Flatten(Used(arrivals0, polls + 1))
        && radio.trace == old(radio.trace) && receivePayload[..] == old(receivePayload[..])
      ensures available ==>
        taken + [f] + radio.rx == rx0 + Flatten(Used(arrivals0, polls + 1))
        && radio.trace == t0 + EchoTrace(taken + [f])
        && receivePayload[..] == StoreFrames(buf0, taken + [f])
        && (|radio.arrivals| < |old(radio.arrivals)|
            || (radio.arrivals == old(radio.arrivals) && |radio.rx| < |old(radio.rx)|))
    {
      available := PollAfter(radio, taken, rx0, arrivals0, polls);
      f := [];
      if available {
        f := radio.rx[0];
        TakeHead(taken, radio.rx);
        EchoNext(t0, buf0, taken);
      }
    }

    /** A pass on the head frame, seen as extending the frames taken so far:
        the trace and the buffer become those of one more frame. */
    method EchoNext(ghost t0: seq<Event>, ghost buf0: seq<Byte>, ghost taken: seq<Frame>)
      requires radio.Valid() && radio.listening && radio.rx != []
      requires receivePayload.Length == MaxPayloadSize + 1 && |buf0| > MaxPayloadSize
      requires radio.trace == t0 + EchoTrace(taken)
      requires receivePayload[..] == StoreFrames(buf0, taken)
      modifies radio, receivePayload
      ensures radio.Valid() && radio.listening && radio.arrivals == old(radio.arrivals)
      ensures radio.rx == old(radio.rx)[1..]
      ensures radio.trace == t0 + EchoTrace(taken + [old(radio.rx)[0]])
      ensures receivePayload[..] == StoreFrames(buf0, taken + [old(radio.rx)[0]])
    {
      EchoTraceSnoc(t0, taken, radio.rx[0]);
      StoreFramesSnoc(buf0, taken, radio.rx[0]);
      EchoFrame();
    }

    /** The responder branch of `loop()`: while a frame is available, take
        it and echo it. The FIFO is left empty, every frame taken is echoed
        in order, and the buffer holds the last valid one. `polls` counts the
        availability checks: each earlier check found a frame (one more had
        arrived than were taken before it), and the last found none. */
    method PongTick() returns (ghost polls: nat)
      requires Valid() && role == PongBack
      modifies radio, receivePayload
      ensures Valid()
      ensures radio.rx == []
      ensures polls >= 1 && |old(radio.rx) + Flatten(Used(old(radio.arrivals), polls))| == polls - 1
      ensures EachCheckFound(old(radio.rx), old(radio.arrivals), polls)
      ensures radio.arrivals == Remaining(old(radio.arrivals), polls)
      ensures radio.trace ==
        old(radio.trace) + EchoTrace(old(radio.rx) + Flatten(Used(old(radio.arrivals), polls)))
      ensures receivePayload[..] ==
        StoreFrames(old(receivePayload[..]), old(radio.rx) + Flatten(Used(old(radio.arrivals), polls)))
    {
      ghost var t0, rx0, arrivals0, buf0 := radio.trace, radio.rx, radio.arrivals, receivePayload[..];
      ghost var taken: seq<Frame> := [];
      PollStart(arrivals0);
      polls := 0;
      var available := true;
      while available
        invariant radio.Valid() && radio.listening
        invariant radio.arrivals == Remaining(arrivals0, polls)
        invariant available ==> taken + radio.rx == rx0 + Flatten(Used(arrivals0, polls))
        invariant !available ==> radio.rx == [] && taken == rx0 + Flatten(Used(arrivals0, polls))
        invariant radio.trace == t0 + EchoTrace(taken)
        invariant receivePayload[..] == StoreFrames(buf0, taken)
        invariant available ==> |taken| == polls
        invariant !available ==> polls >= 1 && |taken| == polls - 1
        invariant EachCheckFound(rx0, arrivals0, polls)
        decreases available, |radio.arrivals|, |radio.rx|
      {
        EachCheckFoundStep(rx0, arrivals0, polls);
        ghost var f;
        available, f := PongStep(t0, rx0, arrivals0, buf0, taken, polls);
        polls := polls + 1;
        if available {
          taken := taken + [f];
        }
      }
      EchoTraceDiscipline(taken);
      HalfDuplexAppend(t0, EchoTrace(taken));
      EchoesReadAppend(t0, EchoTrace(taken));
    }
  }
}
