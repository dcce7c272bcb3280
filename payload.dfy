/** Payload sizes, the outbound template and the receive buffer of the
    dynamic-payload ping pair. */
module Payload {

  /** One octet as the sketch's `char`/`uint8_t` holds it. */
  newtype Byte = x: int | 0 <= x < 0x100

  const MinPayloadSize: int := 4
  const MaxPayloadSize: int := 32
  const PayloadSizeIncrementsBy: int := 1

  /** A radio frame: at most 32 octets, the transceiver's payload limit;
      length 0 is how the driver reports a corrupt frame. */
  type Frame = f: seq<Byte> | |f| <= MaxPayloadSize

  /** How many distinct values the payload-size cursor takes (29). */
  const CursorPeriod: int := MaxPayloadSize - MinPayloadSize + 1

  predicate InRange(n: int) {
    MinPayloadSize <= n <= MaxPayloadSize
  }

  /** The cursor update after a completed initiator tick: add the increment,
      fall back to the minimum when the maximum is passed. */
  function Advance(n: int): (r: int)
    requires InRange(n)
    ensures InRange(r)
    ensures r - MinPayloadSize == (n - MinPayloadSize + PayloadSizeIncrementsBy) % CursorPeriod
  {
    var next := n + PayloadSizeIncrementsBy;
    if next > MaxPayloadSize then MinPayloadSize else next
  }

  /** The cursor after `k` advances from `n`. */
  function AdvanceTimes(n: int, k: nat): (r: int)
    requires InRange(n)
    ensures InRange(r)
  {
    if k == 0 then n else Advance(AdvanceTimes(n, k - 1))
  }

  /** After `k` advances the cursor has moved `k` places round the cycle
      of sizes 4..32. */
  lemma {:induction false} AdvanceTimesClosedForm(n: int, k: nat)
    requires InRange(n)
    ensures AdvanceTimes(n, k) - MinPayloadSize == (n - MinPayloadSize + k) % CursorPeriod
  {
    if k > 0 {
      AdvanceTimesClosedForm(n, k - 1);
      ModSucc(n - MinPayloadSize + k - 1);
    }
  }

  lemma ModSucc(x: int)
    requires x >= 0
    ensures (x % CursorPeriod + 1) % CursorPeriod == (x + 1) % CursorPeriod
  {
    var q, r := x / CursorPeriod, x % CursorPeriod;
    assert x == q * 29 + r && 0 <= r < 29;
    if r + 1 < 29 {
      assert x + 1 == q * 29 + (r + 1);
    } else {
      assert x + 1 == (q + 1) * 29 + 0;
    }
  }

  /** Starting from the initial value 4, the cursor after `k` advances is
      `4 + k mod 29`. */
  lemma CursorFromStart(k: nat)
    ensures AdvanceTimes(MinPayloadSize, k) == MinPayloadSize + k % CursorPeriod
  {
    AdvanceTimesClosedForm(MinPayloadSize, k);
  }

  /** The cursor returns to any starting value after exactly 29 advances
      and not before. */
  lemma CursorPeriodExact(n: int, k: nat)
    requires InRange(n)
    ensures AdvanceTimes(n, CursorPeriod) == n
    ensures 0 < k < CursorPeriod ==> AdvanceTimes(n, k) != n
  {
    AdvanceTimesClosedForm(n, CursorPeriod);
    AdvanceTimesClosedForm(n, k);
  }

  /** The fixed text the initiator sends prefixes of. */
  const Template: string := "ABCDEFGHIJKLMNOPQRSTUVWXYZ789012"

  /** The octets of an ASCII string. */
  function Ascii(s: string): (b: seq<Byte>)
    requires forall i :: 0 <= i < |s| ==> s[i] as int < 0x100
    ensures |b| == |s|
    ensures forall i :: 0 <= i < |s| ==> b[i] as int == s[i] as int
  {
    seq(|s|, i requires 0 <= i < |s| => s[i] as int as Byte)
  }

  /** The template as the octets held in `send_payload`. */
  const SendPayload: Frame := Ascii(Template)

  /** The frame the initiator sends when the cursor is `n`: the first `n`
      octets of the template, always within its 32 octets. */
  function Outgoing(n: int): (p: Frame)
    requires InRange(n)
    ensures |p| == n
    ensures p <= SendPayload
  {
    SendPayload[..n]
  }

  /** The receive buffer after a frame is copied to its front and a NUL is
      stored just past it. */
  function StoreFrame(buf: seq<Byte>, f: Frame): (r: seq<Byte>)
    requires |f| < |buf|
    ensures |r| == |buf|
    ensures forall i :: 0 <= i < |r| ==>
      r[i] == if i < |f| then f[i] else if i == |f| then 0 else buf[i]
  {
    f + [0] + buf[|f| + 1..]
  }

  /** The receive buffer after each non-corrupt frame of `fs` in turn has
      been stored in it; corrupt (empty) frames leave it alone. */
  function StoreFrames(buf: seq<Byte>, fs: seq<Frame>): (r: seq<Byte>)
    requires |buf| > MaxPayloadSize
    ensures |r| == |buf|
    ensures NonEmpty(fs) == [] ==> r == buf
    ensures NonEmpty(fs) != [] ==>
      var last := NonEmpty(fs)[|NonEmpty(fs)| - 1];
      |last| < |r| && r[..|last|] == last && r[|last|] == 0
  {
    if fs == [] then buf
    else
      var before := StoreFrames(buf, fs[..|fs| - 1]);
      var f := fs[|fs| - 1];
      if f == [] then before else StoreFrame(before, f)
  }

  /** Storing one more frame: a corrupt one leaves the buffer alone. */
  lemma StoreFramesSnoc(buf: seq<Byte>, fs: seq<Frame>, f: Frame)
    requires |buf| > MaxPayloadSize
    ensures StoreFrames(buf, fs + [f]) ==
      if f == [] then StoreFrames(buf, fs) else StoreFrame(StoreFrames(buf, fs), f)
  {
    assert (fs + [f])[..|fs|] == fs;
  }

  /** Moving the head of a queue to the end of what was taken from it. */
  lemma TakeHead<T>(taken: seq<T>, q: seq<T>)
    requires q != []
    ensures (taken + [q[0]]) + q[1..] == taken + q
  {
  }

  /** The non-corrupt frames of `fs`, in order. */
  function NonEmpty(fs: seq<Frame>): (r: seq<Frame>)
    ensures |r| <= |fs|
    ensures forall i :: 0 <= i < |r| ==> r[i] != []
  {
    if fs == [] then []
    else NonEmpty(fs[..|fs| - 1]) + (if fs[|fs| - 1] == [] then [] else [fs[|fs| - 1]])
  }
}
