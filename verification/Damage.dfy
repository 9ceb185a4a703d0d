/** What a line can do to the bytes of a frame, and what the receiver makes of it. */
module Damage {
  import opened Crc
  import opened Sequences
  import opened Wire
  import opened Receiver
  import opened Ledger
  import opened Sender
  import opened Faults
  import opened Strays

  function FrameBytes(isCrc: bool, num: byte, payload: seq<byte>): (m: seq<byte>)
    ensures |m| == 1 + BodySize(isCrc, |payload|)
  {
    [HeaderByte(payload)] + Body(isCrc, num, payload)
  }

  // ----- The header byte arrives -----

  /** With its header byte intact a frame is read as far as it came; what it then is decides. */
  lemma HeaderReached(s: State, destsz: int, size: nat, rest: seq<byte>, q: nat)
    requires s.retry < MAX_BYTE_RETRIES && q > 0 && (size == 128 || size == 1024)
    ensures var m := [HeaderOf(size)] + rest;
            && Sight(s, m, q) == Frame(Patience(s), size, rest)
            && (Exposed(s, m, q) <==> !Found(s, size, rest).verdict.Rejected?)
            && (!Exposed(s, m, q) ==> (Hushed(s, destsz, m, q) <==> (|rest| < BodySize(Mode(s), size) ==> q > 1)))
  {
    WearySelf(s);
    assert ([HeaderOf(size)] + rest)[1..] == rest;
  }

  /** A frame cut short, wherever bytes are missing after the header, does no harm. */
  lemma ShortFrameHarmless(s: State, destsz: int, size: nat, rest: seq<byte>, q: nat)
    requires s.retry < MAX_BYTE_RETRIES && q > 0 && (size == 128 || size == 1024)
    requires |rest| < BodySize(Mode(s), size)
    ensures !Exposed(s, [HeaderOf(size)] + rest, q) && (q > 1 ==> Hushed(s, destsz, [HeaderOf(size)] + rest, q))
  {
    HeaderReached(s, destsz, size, rest, q);
  }

  /** A frame whose bytes fail the checks does no harm, whatever comes after them. */
  lemma BadFrameHarmless(s: State, destsz: int, size: nat, rest: seq<byte>, q: nat)
    requires s.retry < MAX_BYTE_RETRIES && q > 0 && (size == 128 || size == 1024)
    requires |rest| >= BodySize(Mode(s), size) && !WellFormed(Mode(s), size, rest[..BodySize(Mode(s), size)])
    ensures !Exposed(s, [HeaderOf(size)] + rest, q) && Hushed(s, destsz, [HeaderOf(size)] + rest, q)
  {
    HeaderReached(s, destsz, size, rest, q);
  }

  /** One wrong byte after the header is noticed, in either mode. */
  lemma OneByteRefused(isCrc: bool, num: byte, payload: seq<byte>, k: nat, x: byte)
    requires k < BodySize(isCrc, |payload|) && x != Body(isCrc, num, payload)[k]
    ensures !WellFormed(isCrc, |payload|, Body(isCrc, num, payload)[k := x])
  {
    hide Sound;
    var body := Body(isCrc, num, payload);
    BodyCarries(isCrc, num, payload, New);
    if k >= 2 {
      OneByteDetected(isCrc, body[2..], k - 2, x);
      assert body[k := x][2..] == body[2..][k - 2 := x];
    }
  }

  /** A frame with one wrong byte, anywhere but in its header byte, does no harm. */
  lemma OneByteHarmless(s: State, destsz: int, num: byte, payload: seq<byte>, k: nat, x: byte, q: nat)
    requires s.retry < MAX_BYTE_RETRIES && q > 0 && Block(payload)
    requires 0 < k < |FrameBytes(Mode(s), num, payload)| && x != FrameBytes(Mode(s), num, payload)[k]
    ensures var m := FrameBytes(Mode(s), num, payload)[k := x]; !Exposed(s, m, q) && Hushed(s, destsz, m, q)
  {
    hide Exposed, Hushed, WellFormed;
    var body := Body(Mode(s), num, payload)[k - 1 := x];
    OneByteRefused(Mode(s), num, payload, k - 1, x);
    TakesAll(body);
    BadFrameHarmless(s, destsz, |payload|, body, q);
    assert FrameBytes(Mode(s), num, payload)[k := x] == [HeaderOf(|payload|)] + body;
  }

  /** A frame in CRC mode hit by a line error that the CRC notices does no harm. */
  lemma LineErrorHarmless(s: State, destsz: int, num: byte, payload: seq<byte>, e: seq<byte>, q: nat)
    requires s.retry < MAX_BYTE_RETRIES && q > 0 && Block(payload) && Mode(s)
    requires |e| == |payload| + 2 && Detectable(e)
    ensures var m := [HeaderByte(payload)] + HitBody(num, payload, e); !Exposed(s, m, q) && Hushed(s, destsz, m, q)
  {
    var body := HitBody(num, payload, e);
    LineErrorRefused(num, payload, e);
    TakesAll(body);
    BadFrameHarmless(s, destsz, |payload|, body, q);
  }

  // ----- The frame arrives among other bytes -----

  /** A byte that means nothing to an attempt to get a header. */
  predicate Stray(b: byte) {
    b != SOH && b != STX && b != EOT && b != CAN
  }

  predicate AllStray(m: seq<byte>) {
    forall k :: 0 <= k < |m| ==> Stray(m[k])
  }

  /** Each stray byte uses up one attempt. */
  lemma {:induction false} ScanPast(a: seq<byte>, rest: seq<byte>, q: nat, left: nat)
    requires q > 0 && AllStray(a) && |a| < left
    ensures Scan(a + rest, q, left) == Scan(rest, q, left - |a|)
    decreases |a|
  {
    if a == [] {
      Empties(rest);
    } else {
      assert (a + rest)[0] == a[0] && (a + rest)[1..] == a[1..] + rest;
      ScanPast(a[1..], rest, q, left - 1);
    }
  }

  lemma {:induction false} ScanStray(m: seq<byte>, q: nat, left: nat)
    requires q > 0 && AllStray(m)
    ensures Scan(m, q, left).Quiet? || Scan(m, q, left).GivesUp?
    decreases |m|
  {
    if m == [] {
      ScanSilence(q, left);
    } else if left > 0 {
      ScanStray(m[1..], q, left - 1);
    }
  }

  /** A frame that is good for the receiver, with stray bytes before and after it, is the one frame found. */
  lemma FrameAmongStrays(s: State, destsz: int, a: seq<byte>, num: byte, payload: seq<byte>, b: seq<byte>, q: nat)
    requires Ready(s) && q > 0 && Block(payload) && AllStray(a) && AllStray(b) && |a| < Patience(s)
    requires Answered(Judged(s, |payload|, Body(Mode(s), num, payload)))
    requires Mode(Weary(s, Patience(s) - |a|)) == Mode(s)
    ensures var m := a + (FrameBytes(Mode(s), num, payload) + b);
            && Frames(s, destsz, m, q) == [Judged(s, |payload|, Body(Mode(s), num, payload))]
            && !EndsBy(s, destsz, m, q) && Hushed(s, destsz, m, q)
  {
    hide Scan, Judge, WellFormed, Body, Weary;
    var w, body := Weary(s, Patience(s) - |a|), Body(Mode(s), num, payload);
    var tail, size := body + b, |payload|;
    ScanPast(a, FrameBytes(Mode(s), num, payload) + b, q, Patience(s));
    assert FrameBytes(Mode(s), num, payload) + b == [HeaderOf(size)] + tail;
    HeaderReached(w, destsz, size, tail, q);
    TakesBack(body, b);
    JudgedWeary(s, Patience(s) - |a|, size, body);
    var next := Update(w, destsz, Found(w, size, tail));
    ScanStray(b, q, Patience(next));
    NotShort(w, size, tail);
    var c := CatchIn(s, destsz, a + (FrameBytes(Mode(s), num, payload) + b), q);
    assert c.Acceptance? && c.e == Judged(s, size, body) && c.next == next && c.rest == b;
    assert CatchIn(next, destsz, b, q) == Idle;
    Empties([c.e]);
  }

  /** One EOT byte behind a frame that is accepted ends the run, however many blocks are missing. */
  lemma EndBehindFrame(s: State, destsz: int, num: byte, payload: seq<byte>, q: nat)
    requires Ready(s) && q > 0 && Block(payload)
    requires Answered(Judged(s, |payload|, Body(Mode(s), num, payload)))
    ensures var m := FrameBytes(Mode(s), num, payload) + [EOT];
            && Frames(s, destsz, m, q) == [Judged(s, |payload|, Body(Mode(s), num, payload))]
            && EndsBy(s, destsz, m, q) && !Sight(s, m, q).Finish?
  {
    hide Judge, WellFormed, Body;
    var body, size := Body(Mode(s), num, payload), |payload|;
    assert FrameBytes(Mode(s), num, payload) + [EOT] == [HeaderOf(size)] + (body + [EOT]);
    HeaderReached(s, destsz, size, body + [EOT], q);
    WearySelf(s);
    TakesBack(body, [EOT]);
    NotShort(s, size, body + [EOT]);
    var c := CatchIn(s, destsz, FrameBytes(Mode(s), num, payload) + [EOT], q);
    assert c.Acceptance? && c.e == Judged(s, size, body) && c.rest == [EOT];
    assert CatchIn(c.next, destsz, [EOT], q) == Stop;
    Empties([c.e]);
  }

  /** A frame is judged alike however many attempts it took to find it. */
  lemma JudgedWeary(s: State, left: nat, size: nat, body: seq<byte>)
    requires s.retry < MAX_BYTE_RETRIES && 1 <= left <= Patience(s) && Mode(Weary(s, left)) == Mode(s)
    ensures Judged(Weary(s, left), size, body) == Judged(s, size, body)
  {
  }

  // ----- The header byte is lost or hit -----

  /** A frame whose header byte is lost, or arrives as something else. */
  function Beheaded(h: Option<byte>, isCrc: bool, num: byte, payload: seq<byte>): seq<byte> {
    (match h case None => [] case Some(x) => [x]) + Body(isCrc, num, payload)
  }

  /** No header inside a 128-byte frame that lost its own has a frame behind it that is accepted. */
  lemma NoFrameInside(s: State, h: Option<byte>, num: byte, payload: seq<byte>, q: nat)
    requires Ready(s) && q > 0 && |payload| == 128 && h != Some(SOH)
    requires s.trychar == SOLICIT_CRC ==> s.packetno == 1
    ensures var sight := Sight(s, Beheaded(h, Mode(s), num, payload), q);
            sight.Frame? ==> Found(Weary(s, sight.left), sight.size, sight.rest).verdict.Rejected?
  {
    var m := Beheaded(h, Mode(s), num, payload);
    var sight := Sight(s, m, q);
    if h == Some(STX) {
      assert m[0] == STX && m[1..] == Body(Mode(s), num, payload);
      assert Short(s, 1024, m[1..]);
      WearySelf(s);
    } else if sight.Frame? {
      var w := Weary(s, sight.left);
      if h.Some? {
        assert m[0] == h.value;
        assert sight.left < Patience(s);
      }
      if !Short(w, sight.size, sight.rest) {
        OneAttemptTooFew(s, h.value, num, payload, q);
      }
    }
  }

  /**
   * The last attempt in CRC mode takes the byte in place of the header; the next one, in checksum mode, takes the
   * number for a header. The frame it finds has number 254, when 1 is expected.
   */
  lemma OneAttemptTooFew(s: State, x: byte, num: byte, payload: seq<byte>, q: nat)
    requires Ready(s) && q > 0 && |payload| == 128 && x != SOH && x != STX
    requires s.trychar == SOLICIT_CRC && s.packetno == 1
    requires var sight := Sight(s, Beheaded(Some(x), Mode(s), num, payload), q);
             && sight.Frame? && !Short(Weary(s, sight.left), sight.size, sight.rest)
    ensures var sight := Sight(s, Beheaded(Some(x), Mode(s), num, payload), q);
            Found(Weary(s, sight.left), sight.size, sight.rest).verdict.Rejected?
  {
    var m := Beheaded(Some(x), Mode(s), num, payload);
    var sight := Sight(s, m, q);
    assert m[0] == x && m[1..][0] == num && m[1..][1..] == m[2..] && m[2] == 255 - num;
    assert sight.left < Patience(s);
    assert |m| == 1 + BodySize(Mode(s), 128);
    assert x != CAN && sight == Scan(m[1..], q, Patience(s) - 1);
    assert sight.left == Patience(s) - 1;
    assert sight.rest == m[2..] && sight.rest[0] == 254;
  }

  /**
   * A frame of either size whose header byte is lost or hit. The attempts go on to its number, its inverse, and its
   * payload; the run ends normally, with blocks missing, exactly when these bytes lead to an EOT.
   */
  lemma BeheadedEndsIff(s: State, destsz: int, h: Option<byte>, num: byte, payload: seq<byte>, q: nat)
    requires Ready(s) && Block(payload) && q > 0
    ensures var m := Beheaded(h, Mode(s), num, payload);
            var t, sight := Settle(s, destsz, Noise(m, q)), Sight(s, m, q);
            && (t.Halt? && t.ret >= 0 <==> EndsBy(s, destsz, m, q))
            && (t.Halt? && t.log == [] && t.ret == ERROR_CANCEL <==> sight.Cancel?)
            && (t.Halt? && t.log == [] && t.ret == ERROR_SYNC <==> sight.GivesUp?)
            && (!Exposed(s, m, q) ==> Unharmed(s, t))
  {
    var m := Beheaded(h, Mode(s), num, payload);
    EndsEarlyIff(s, destsz, m, q);
    EndsUnframedIff(s, destsz, m, q);
    if !Exposed(s, m, q) {
      HarmlessNoise(s, destsz, m, q);
    }
  }

  /**
   * A 128-byte frame has no room for another: the run ends normally exactly when the first control byte reached is
   * EOT. It ends with an error exactly when the attempts reach a double CAN, or are used up before they reach anything,
   * or by a silence of sixteen waits after a frame that is refused. In all other cases nothing is accepted or
   * acknowledged and the run goes on. While 'C' is being sent, block 1 is expected.
   */
  lemma BeheadedFrameIff(s: State, destsz: int, h: Option<byte>, num: byte, payload: seq<byte>, q: nat)
    requires Ready(s) && |payload| == 128 && q > 0 && h != Some(SOH)
    requires s.trychar == SOLICIT_CRC ==> s.packetno == 1
    ensures var m := Beheaded(h, Mode(s), num, payload);
            var t, sight := Settle(s, destsz, Noise(m, q)), Sight(s, m, q);
            && (t.Halt? && t.ret >= 0 <==> sight.Finish?)
            && (t.Halt? && t.ret == ERROR_CANCEL <==> sight.Cancel?)
            && (t.Halt? && t.ret == ERROR_SYNC <==> sight.GivesUp? || OutOfPatience(s, sight, q))
            && (sight.Finish? ==> t.ret == s.len && t.log == [] && Acks(t))
            && (!sight.Finish? ==> Unharmed(s, t))
  {
    var m := Beheaded(h, Mode(s), num, payload);
    var sight := Sight(s, m, q);
    NoFrameInside(s, h, num, payload, q);
    EndsUnframedIff(s, destsz, m, q);
    if !sight.Finish? {
      HarmlessNoise(s, destsz, m, q);
    }
    if sight.Frame? {
      ScanTells(s, destsz, m, q);
      RefusedUnharmed(Weary(s, sight.left), destsz, sight.size, sight.rest, q);
    }
  }

  /** After a refused frame the silence lasts for all sixteen attempts. */
  predicate OutOfPatience(s: State, sight: Sighting, q: nat)
    requires s.retry < MAX_BYTE_RETRIES && (sight.Frame? ==> 1 <= sight.left <= Patience(s) && q > 0)
  {
    sight.Frame? && Hush(Weary(s, sight.left), sight.size, sight.rest, q) >= MAX_BYTE_RETRIES
  }

  /** Blocks number 4 and 251 end the run whenever their header byte is lost: the number or its inverse is EOT. */
  lemma NumbersThatEnd(s: State, isCrc: bool, num: byte, payload: seq<byte>, q: nat)
    requires Ready(s) && q > 0 && Patience(s) > 2 && (num == 4 || num == 251)
    ensures Sight(s, Beheaded(None, isCrc, num, payload), q).Finish?
    ensures Sight(s, Beheaded(Some(0), isCrc, num, payload), q).Finish?
  {
    EndInFront(Patience(s), isCrc, num, payload, q, Beheaded(None, isCrc, num, payload));
    EndInFront(Patience(s) - 1, isCrc, num, payload, q, Beheaded(None, isCrc, num, payload));
    assert Beheaded(Some(0), isCrc, num, payload)[1..] == Beheaded(None, isCrc, num, payload);
  }

  lemma EndInFront(left: nat, isCrc: bool, num: byte, payload: seq<byte>, q: nat, m: seq<byte>)
    requires q > 0 && left > 1 && (num == 4 || num == 251) && m == Beheaded(None, isCrc, num, payload)
    ensures Scan(m, q, left).Finish?
  {
    assert m[0] == num && m[1..][0] == 255 - num;
  }

  /**
   * The smallest example: three blocks are accepted, and the header byte of the fourth is lost, or one of its bits is
   * (SOH arrives as 0). The run ends at once as if the transfer were complete, and acknowledges; only if that 0 is the
   * last byte it still had an attempt for, it gives up.
   */
  lemma FourthHeaderLost(s: State, log: seq<Entry>, destsz: int, payload: seq<byte>, h: Option<byte>, more: seq<Item>)
    requires Agrees(s, log, destsz) && Count(log) == 3 && (h == None || h == Some(0))
    ensures var o := Session(s, destsz, Items(Beheaded(h, Mode(s), 4, payload)) + more);
            if h == None || s.retry < MAX_BYTE_RETRIES - 1
            then o.ret == s.len && s.len >= 0 && o.log == [] && o.sent == [ACK]
            else o.ret == ERROR_SYNC && o.log == [] && o.sent == ABORT
  {
    var m := Beheaded(h, Mode(s), 4, payload);
    var input := Items(m) + more;
    if h.None? {
      assert input[0] == Byte(EOT);
    } else {
      assert input[0] == Byte(0) && input[1..][0] == Byte(EOT);
      var t := Turn(s, destsz, input);
      if s.retry < MAX_BYTE_RETRIES - 1 {
        assert t == Continue(s.(retry := s.retry + 1), [], [], input[1..]);
        Empties(Session(t.next, destsz, t.rest).sent);
        Empties(Session(t.next, destsz, t.rest).log);
      }
    }
  }
}
