/** The nRF24L01 transceiver as the sketch uses it: an abstract half-duplex
    radio with a receive FIFO, fed by a supplied schedule of arriving frames,
    that records every action taken on it. */
module Transceiver {
  import opened Payload
  import opened Trace

  /** The frames of a schedule of arrivals, in order. */
  function Flatten(slots: seq<seq<Frame>>): (fs: seq<Frame>)
  {
    if slots == [] then [] else Flatten(slots[..|slots| - 1]) + slots[|slots| - 1]
  }

  /** The slots of the schedule `earlier` that `polls` availability checks
      have used, and what remains of it. */
  function Used(earlier: seq<seq<Frame>>, polls: nat): (used: seq<seq<Frame>>)
  {
    if polls < |earlier| then earlier[..polls] else earlier
  }

  function Remaining(earlier: seq<seq<Frame>>, polls: nat): (rest: seq<seq<Frame>>)
  {
    if polls < |earlier| then earlier[polls..] else []
  }

  /** Before any availability check the whole schedule remains and nothing
      has arrived. */
  lemma PollStart(earlier: seq<seq<Frame>>)
    ensures Remaining(earlier, 0) == earlier && Flatten(Used(earlier, 0)) == []
  {
    if 0 < |earlier| {
      assert earlier[..0] == [];
      assert earlier[0..] == earlier;
    }
  }

  /** One more availability check uses the next slot of the schedule, if any
      is left, and its frames join those that arrived. */
  lemma {:induction false} PollStep(rx0: seq<Frame>, earlier: seq<seq<Frame>>, polls: nat, rx: seq<Frame>)
    requires rx == rx0 + Flatten(Used(earlier, polls))
    ensures Remaining(earlier, polls + 1) ==
      if Remaining(earlier, polls) == [] then [] else Remaining(earlier, polls)[1..]
    ensures rx0 + Flatten(Used(earlier, polls + 1)) ==
      rx + if Remaining(earlier, polls) == [] then [] else Remaining(earlier, polls)[0]
  {
    if polls < |earlier| {
      var u := Used(earlier, polls + 1);
      assert u == earlier[..polls + 1];
      assert u[..polls] == Used(earlier, polls);
      assert Flatten(u) == Flatten(Used(earlier, polls)) + earlier[polls];
      assert Remaining(earlier, polls)[0] == earlier[polls];
      assert Remaining(earlier, polls + 1) == Remaining(earlier, polls)[1..];
    }
  }

  class Radio {
    /** Whether the radio is in receive mode. */
    var listening: bool
    /** The receive FIFO; an empty frame is one the driver will report as
        corrupt. */
    var rx: seq<Frame>
    /** The frames still to come: slot `j` reaches the FIFO just before the
        `j`-th availability check from now, if the radio is listening then. */
    var arrivals: seq<seq<Frame>>
    /** Every action taken on the radio so far. */
    ghost var trace: seq<Event>

    ghost predicate Valid()
      reads this
    {
      listening == ListeningAfter(trace)
    }

    constructor (arrivals: seq<seq<Frame>>)
      ensures Valid() && !listening && rx == [] && this.arrivals == arrivals && trace == []
    {
      listening := false;
      rx := [];
      this.arrivals := arrivals;
      trace := [];
    }

    method OpenWritingPipe(pipe: nat)
      requires Valid()
      modifies this
      ensures Valid() && trace == old(trace) + [Event.OpenWritingPipe(pipe)]
      ensures listening == old(listening) && rx == old(rx) && arrivals == old(arrivals)
    {
      ListeningAfterAppend(trace, Event.OpenWritingPipe(pipe));
      trace := trace + [Event.OpenWritingPipe(pipe)];
    }

    method OpenReadingPipe(child: nat, pipe: nat)
      requires Valid()
      modifies this
      ensures Valid() && trace == old(trace) + [Event.OpenReadingPipe(child, pipe)]
      ensures listening == old(listening) && rx == old(rx) && arrivals == old(arrivals)
    {
      ListeningAfterAppend(trace, Event.OpenReadingPipe(child, pipe));
      trace := trace + [Event.OpenReadingPipe(child, pipe)];
    }

    method StartListening()
      requires Valid()
      modifies this
      ensures Valid() && listening && trace == old(trace) + [Event.StartListening]
      ensures rx == old(rx) && arrivals == old(arrivals)
    {
      ListeningAfterAppend(trace, Event.StartListening);
      trace := trace + [Event.StartListening];
      listening := true;
    }

    method StopListening()
      requires Valid()
      modifies this
      ensures Valid() && !listening && trace == old(trace) + [Event.StopListening]
      ensures rx == old(rx) && arrivals == old(arrivals)
    {
      ListeningAfterAppend(trace, Event.StopListening);
      trace := trace + [Event.StopListening];
      listening := false;
    }

    /** Send `data`; the driver blocks until delivery is confirmed or its own
        retries are used up. */
    method Write(data: Frame)
      requires Valid()
      modifies this
      ensures Valid() && trace == old(trace) + [Event.Write(data)]
      ensures listening == old(listening) && rx == old(rx) && arrivals == old(arrivals)
    {
      ListeningAfterAppend(trace, Event.Write(data));
      trace := trace + [Event.Write(data)];
    }

    /** Whether a received frame is queued, after the frames of the next
        slot of the schedule have arrived. */
    method Available() returns (ready: bool)
      requires Valid()
      modifies this
      ensures Valid() && trace == old(trace) && listening == old(listening)
      ensures arrivals == if old(arrivals) == [] then [] else old(arrivals)[1..]
      ensures rx == old(rx) + (if listening && old(arrivals) != [] then old(arrivals)[0] else [])
      ensures ready <==> rx != []
    {
      if arrivals != [] {
        if listening {
          rx := rx + arrivals[0];
        }
        arrivals := arrivals[1..];
      }
      ready := rx != [];
    }

    /** The length of the frame at the head of the FIFO; 0 reports a corrupt
        frame, which the driver discards. */
    method DynamicPayloadSize() returns (len: Byte)
      requires Valid() && rx != []
      modifies this
      ensures Valid() && trace == old(trace) && listening == old(listening)
      ensures arrivals == old(arrivals)
      ensures len as int == |old(rx)[0]| && len as int <= MaxPayloadSize
      ensures rx == if len == 0 then old(rx)[1..] else old(rx)
    {
      len := |rx[0]| as Byte;
      if len == 0 {
        rx := rx[1..];
      }
    }

    /** Copy the first `len` octets of the head frame to the front of `buf`
        and take the frame off the FIFO. */
    method Read(buf: array<Byte>, len: Byte)
      requires Valid() && rx != [] && len as int <= |rx[0]| && len as int <= buf.Length
      modifies this, buf
      ensures Valid() && listening == old(listening) && arrivals == old(arrivals)
      ensures rx == old(rx)[1..]
      ensures trace == old(trace) + [Event.Read(old(rx)[0][..len])]
      ensures buf[..len] == old(rx)[0][..len]
      ensures buf[len..] == old(buf[len..])
    {
      var frame := rx[0];
      forall i | 0 <= i < len as int {
        buf[i] := frame[i];
      }
      ListeningAfterAppend(trace, Event.Read(frame[..len]));
      trace := trace + [Event.Read(frame[..len])];
      rx := rx[1..];
    }
  }
}
