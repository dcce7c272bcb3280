/** The radio actions the sketch performs, recorded as a trace, and the
    disciplines the sketch keeps over that trace. */
module Trace {
  import opened Payload

  datatype Event =
    | OpenWritingPipe(pipe: nat)
    | OpenReadingPipe(child: nat, pipe: nat)
    | StartListening
    | StopListening
    | Write(data: Frame)
    | Read(data: Frame)

  /** Whether the radio is in receive mode after the actions of `t`: the
      last mode switch decides, and a radio starts out not listening. */
  function ListeningAfter(t: seq<Event>): (on: bool) {
    if t == [] then false
    else match t[|t| - 1]
      case StartListening => true
      case StopListening => false
      case _ => ListeningAfter(t[..|t| - 1])
  }

  /** Half-duplex discipline: every write is immediately preceded by a
      switch out of receive mode and immediately followed by the switch back. */
  predicate HalfDuplex(t: seq<Event>) {
    forall i {:trigger t[i].Write?} :: 0 <= i < |t| && t[i].Write? ==>
      0 < i < |t| - 1 && t[i - 1] == StopListening && t[i + 1] == StartListening
  }

  /** Echo discipline: every write sends back, non-empty, exactly the octets
      read two actions earlier. */
  predicate EchoesRead(t: seq<Event>) {
    forall i {:trigger t[i].Write?} :: 0 <= i < |t| && t[i].Write? ==>
      2 <= i && t[i - 2] == Read(t[i].data) && t[i].data != []
  }

  /** Initiator discipline: every write is a prefix of the template whose
      length is a legal payload size. */
  predicate TemplateWrites(t: seq<Event>) {
    forall i :: 0 <= i < |t| && t[i].Write? ==>
      InRange(|t[i].data|) && t[i].data <= SendPayload
  }

  /** The frames written, in order. */
  function Written(t: seq<Event>): (ws: seq<Frame>) {
    if t == [] then []
    else Written(t[..|t| - 1]) + (if t[|t| - 1].Write? then [t[|t| - 1].data] else [])
  }

  /** The frames read, in order. */
  function Received(t: seq<Event>): (rs: seq<Frame>) {
    if t == [] then []
    else Received(t[..|t| - 1]) + (if t[|t| - 1].Read? then [t[|t| - 1].data] else [])
  }

  /** The actions of the responder on one frame taken from the FIFO: nothing
      for a corrupt one, otherwise read it, switch to transmit, send it back,
      switch to receive. */
  function EchoOne(f: Frame): (e: seq<Event>) {
    if f == [] then [] else [Read(f), StopListening, Write(f), StartListening]
  }

  /** The responder's actions on the frames `fs`, taken in order. */
  function EchoTrace(fs: seq<Frame>): (t: seq<Event>) {
    if fs == [] then [] else EchoTrace(fs[..|fs| - 1]) + EchoOne(fs[|fs| - 1])
  }

  /** Echoing one more frame appends its actions. */
  lemma EchoTraceSnoc(t: seq<Event>, fs: seq<Frame>, f: Frame)
    ensures t + EchoTrace(fs + [f]) == t + EchoTrace(fs) + EchoOne(f)
  {
    assert (fs + [f])[..|fs|] == fs;
  }

  lemma ListeningAfterAppend(t: seq<Event>, e: Event)
    ensures ListeningAfter(t + [e]) ==
      if e.StartListening? then true
      else if e.StopListening? then false
      else ListeningAfter(t)
  {
    assert (t + [e])[..|t|] == t;
  }

  lemma HalfDuplexAppend(a: seq<Event>, b: seq<Event>)
    requires HalfDuplex(a) && HalfDuplex(b)
    ensures HalfDuplex(a + b)
  {
    var t := a + b;
    forall i | 0 <= i < |t| && t[i].Write?
      ensures 0 < i < |t| - 1 && t[i - 1] == StopListening && t[i + 1] == StartListening
    {
      if i < |a| {
        assert a[i].Write?;
      } else {
        assert b[i - |a|].Write?;
      }
    }
  }

  lemma EchoesReadAppend(a: seq<Event>, b: seq<Event>)
    requires EchoesRead(a) && EchoesRead(b)
    ensures EchoesRead(a + b)
  {
    var t := a + b;
    forall i | 0 <= i < |t| && t[i].Write?
      ensures 2 <= i && t[i - 2] == Read(t[i].data) && t[i].data != []
    {
      if i < |a| {
        assert a[i].Write?;
      } else {
        assert b[i - |a|].Write?;
      }
    }
  }

  lemma TemplateWritesAppend(a: seq<Event>, b: seq<Event>)
    requires TemplateWrites(a) && TemplateWrites(b)
    ensures TemplateWrites(a + b)
  {
    var t := a + b;
    forall i | 0 <= i < |t| && t[i].Write?
      ensures InRange(|t[i].data|) && t[i].data <= SendPayload
    {
      if i < |a| {
        assert a[i].Write?;
      } else {
        assert b[i - |a|].Write?;
      }
    }
  }

  lemma {:induction false} WrittenAppend(a: seq<Event>, b: seq<Event>)
    ensures Written(a + b) == Written(a) + Written(b)
    decreases |b|
  {
    if b == [] {
      assert a + b == a;
    } else {
      var b' := b[..|b| - 1];
      assert (a + b)[..|a + b| - 1] == a + b';
      WrittenAppend(a, b');
    }
  }

  lemma {:induction false} ReceivedAppend(a: seq<Event>, b: seq<Event>)
    ensures Received(a + b) == Received(a) + Received(b)
    decreases |b|
  {
    if b == [] {
      assert a + b == a;
    } else {
      var b' := b[..|b| - 1];
      assert (a + b)[..|a + b| - 1] == a + b';
      ReceivedAppend(a, b');
    }
  }

  /** The responder's actions keep the half-duplex and echo disciplines. */
  lemma {:induction false} EchoTraceDiscipline(fs: seq<Frame>)
    ensures HalfDuplex(EchoTrace(fs)) && EchoesRead(EchoTrace(fs))
  {
    if fs != [] {
      EchoTraceDiscipline(fs[..|fs| - 1]);
      var e := EchoOne(fs[|fs| - 1]);
      assert HalfDuplex(e) && EchoesRead(e);
      HalfDuplexAppend(EchoTrace(fs[..|fs| - 1]), e);
      EchoesReadAppend(EchoTrace(fs[..|fs| - 1]), e);
    }
  }

  /** Echo fidelity: what the responder sends is exactly, in order, the
      non-corrupt frames it took from the FIFO, and it reads exactly those. */
  lemma {:induction false} EchoFidelity(fs: seq<Frame>)
    ensures Written(EchoTrace(fs)) == NonEmpty(fs)
    ensures Received(EchoTrace(fs)) == NonEmpty(fs)
  {
    if fs != [] {
      var init := fs[..|fs| - 1];
      var f := fs[|fs| - 1];
      EchoFidelity(init);
      WrittenAppend(EchoTrace(init), EchoOne(f));
      ReceivedAppend(EchoTrace(init), EchoOne(f));
      if f != [] {
        var e := EchoOne(f);
        var e1, e2, e3 := [Read(f)], [Read(f), StopListening], [Read(f), StopListening, Write(f)];
        assert e1[..0] == [] && e2[..1] == e1 && e3[..2] == e2 && e[..3] == e3;
        assert Written(e1) == [] && Received(e1) == [f];
        assert Written(e2) == [] && Received(e2) == [f];
        assert Written(e3) == [f] && Received(e3) == [f];
      }
    }
  }

  /** The responder's actions leave a listening radio listening. */
  lemma {:induction false} EchoTraceListening(t: seq<Event>, fs: seq<Frame>)
    requires ListeningAfter(t)
    ensures ListeningAfter(t + EchoTrace(fs))
  {
    if fs == [] {
      assert t + EchoTrace(fs) == t;
    } else {
      var init := fs[..|fs| - 1];
      var f := fs[|fs| - 1];
      EchoTraceListening(t, init);
      var u := t + EchoTrace(init);
      assert t + EchoTrace(fs) == u + EchoOne(f);
      if f == [] {
        assert u + EchoOne(f) == u;
      } else {
        assert u + EchoOne(f) == u + [Read(f), StopListening, Write(f)] + [StartListening];
        ListeningAfterAppend(u + [Read(f), StopListening, Write(f)], StartListening);
      }
    }
  }
}
