/** The sender's half of the protocol: frames, and what a turn of the receiver makes of them. */
module Sender {
  import opened Gf2
  import opened Crc
  import opened Order
  import opened Wire
  import opened Receiver

  /** A block fills a packet of 128 or of 1024 bytes. */
  predicate Block(payload: seq<byte>) {
    |payload| == 128 || |payload| == 1024
  }

  function HeaderByte(payload: seq<byte>): byte {
    if |payload| == 128 then SOH else STX
  }

  /** The bytes of a frame after its header byte. */
  function Body(isCrc: bool, num: byte, payload: seq<byte>): (b: seq<byte>)
    ensures |b| == BodySize(isCrc, |payload|)
  {
    [num, 255 - num] + (payload + Trailer(isCrc, payload))
  }

  function FrameItems(isCrc: bool, num: byte, payload: seq<byte>): (r: seq<Item>)
    ensures |r| == 1 + BodySize(isCrc, |payload|)
  {
    [Byte(HeaderByte(payload))] + Items(Body(isCrc, num, payload))
  }

  /** Whatever the payload, a body is well formed or not by its two number bytes and its trailer. */
  lemma BodyWellFormed(isCrc: bool, num: byte, inv: byte, rest: seq<byte>)
    requires |rest| >= TrailerSize(isCrc)
    ensures var size := |rest| - TrailerSize(isCrc);
            WellFormed(isCrc, size, [num, inv] + rest) <==> num == 255 - inv && Sound(isCrc, rest)
  {
    assert ([num, inv] + rest)[2..] == rest;
  }

  /** Every frame a sender builds is well formed and carries its payload. */
  lemma BodyCarries(isCrc: bool, num: byte, payload: seq<byte>, v: Verdict)
    ensures WellFormed(isCrc, |payload|, Body(isCrc, num, payload))
    ensures Payload(Entry(isCrc, |payload|, Body(isCrc, num, payload), v)) == payload
  {
    var t := Trailer(isCrc, payload);
    TrailerIsUnique(isCrc, payload, t);
    BodyWellFormed(isCrc, num, 255 - num, payload + t);
    assert Body(isCrc, num, payload)[2..2 + |payload|] == payload;
  }

  /** A frame a sender builds is judged on its number alone. */
  lemma NumberDecides(s: State, num: byte, payload: seq<byte>)
    ensures Judge(s, |payload|, Body(Mode(s), num, payload)) ==
            if num == s.packetno then New
            else if num != s.packetno - 1 then Rejected
            else if s.retrans <= 1 then Exhausted else Duplicate
  {
    BodyCarries(Mode(s), num, payload, New);
    assert Body(Mode(s), num, payload)[0] == num;
  }

  /** However a frame goes on, a turn that finds a header reads exactly that frame. */
  lemma TurnReadsFrame(s: State, destsz: int, payload: seq<byte>, body: seq<byte>, rest: seq<Item>)
    requires Block(payload) && |body| == BodySize(Mode(s), |payload|)
    ensures var t := Turn(s, destsz, [Byte(HeaderByte(payload))] + Items(body) + rest);
            var e := Judged(s, |payload|, body);
            && t.log == [e]
            && t.sent == Solicitation(s) + Reply(e.verdict)
            && t.next == Update(s, destsz, e)
            && (t.Halt? <==> e.verdict.Exhausted?) && (t.Halt? ==> t.ret == ERROR_RETRANS_LIMIT)
            && t.rest == if e.verdict.Rejected? || e.verdict.Exhausted? then Flushed(rest) else rest
  {
    var input := [Byte(HeaderByte(payload))] + Items(body) + rest;
    assert input[1..] == Items(body) + rest;
    assert Next(input) == Some(HeaderByte(payload));
    TakenMessage(body, rest);
  }

  /**
   * Frame round trip: a frame with the expected number is accepted in either mode, acknowledged, and delivered
   * as far as the destination goes; nothing after it is touched.
   */
  lemma FrameRoundTrip(s: State, destsz: int, payload: seq<byte>, rest: seq<Item>)
    requires Block(payload)
    ensures var t := Turn(s, destsz, FrameItems(Mode(s), s.packetno, payload) + rest);
            && t.Continue?
            && t.sent == Solicitation(s) + [ACK]
            && t.rest == rest
            && t.next == State(0, Mode(s), (s.packetno + 1) % 256, MAX_RETRANS,
                               s.len + |Slice(destsz, s.len, payload)|, 0)
            && |t.log| == 1 && t.log[0].verdict.New? && Payload(t.log[0]) == payload
  {
    hide Turn, WellFormed;
    BodyCarries(Mode(s), s.packetno, payload, New);
    TurnReadsFrame(s, destsz, payload, Body(Mode(s), s.packetno, payload), rest);
  }

  /**
   * A line error in payload or trailer of a frame in CRC mode: one to three bits, an odd number of bits, or a
   * burst of at most sixteen. The frame is refused whatever its number.
   */
  ghost predicate Detectable(e: seq<byte>) {
    Burst(Bits(e)) || Odd(Weight(Bits(e))) || 1 <= Weight(Bits(e)) <= 3
  }

  /** A frame body in CRC mode whose payload and trailer have been hit by `e`. */
  function HitBody(num: byte, payload: seq<byte>, e: seq<byte>): (body: seq<byte>)
    requires |e| == |payload| + 2
    ensures |body| == |payload| + 4
  {
    [num, 255 - num] + Corrupted(payload + Trailer(true, payload), e)
  }

  lemma LineErrorRefused(num: byte, payload: seq<byte>, e: seq<byte>)
    requires Block(payload) && |e| == |payload| + 2 && Detectable(e)
    ensures !WellFormed(true, |payload|, HitBody(num, payload, e))
  {
    var good := payload + Trailer(true, payload);
    TrailerIsUnique(true, payload, Trailer(true, payload));
    if Burst(Bits(e)) {
      BurstDetected(good, e);
    } else if Odd(Weight(Bits(e))) {
      OddErrorDetected(good, e);
    } else {
      FewFlippedBitsDetected(good, e);
    }
    BodyWellFormed(true, num, 255 - num, Corrupted(good, e));
  }
}
