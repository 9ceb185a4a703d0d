/**
 * A chunk of any bytes at all, followed by silence, from its first byte to its last: the frames the receiver finds
 * among stray bytes, and whether an EOT among them ends the run.
 */
module Strays {
  import opened Crc
  import opened Sequences
  import opened Wire
  import opened Receiver
  import opened Ledger
  import opened Runs
  import opened Faults

  /** What the attempts on a chunk come to first: the run may go on behind an accepted frame. */
  datatype Catch =
    | Idle
    | Stop
    | Refusal(e: Entry, short: bool)
    | Exhaustion(e: Entry)
    | Acceptance(e: Entry, next: State, rest: seq<byte>)

  function CatchIn(s: State, destsz: int, m: seq<byte>, q: nat): (c: Catch)
    requires s.retry < MAX_BYTE_RETRIES && (m != [] ==> q > 0)
    ensures c.Acceptance? ==> |c.rest| < |m| && q > 0 && c.next.retry == 0
  {
    match Sight(s, m, q)
    case Finish(_) => Stop
    case Frame(l, size, rest) =>
      var w := Weary(s, l);
      var e := Found(w, size, rest);
      if e.verdict.Rejected? then Refusal(e, Short(w, size, rest))
      else if e.verdict.Exhausted? then Exhaustion(e)
      else
        NotShort(w, size, rest);
        Acceptance(e, Update(w, destsz, e), rest[BodySize(Mode(w), size)..])
    case _ => Idle
  }

  lemma NotShort(s: State, size: nat, rest: seq<byte>)
    requires !Found(s, size, rest).verdict.Rejected?
    ensures !Short(s, size, rest)
  {
  }

  /** The frames found in a chunk, with what became of them. */
  function Frames(s: State, destsz: int, m: seq<byte>, q: nat): seq<Entry>
    requires s.retry < MAX_BYTE_RETRIES && (m != [] ==> q > 0)
    decreases |m|
  {
    match CatchIn(s, destsz, m, q)
    case Refusal(e, _) => [e]
    case Exhaustion(e) => [e]
    case Acceptance(e, next, rest) => [e] + Frames(next, destsz, rest, q)
    case _ => []
  }

  /** An EOT is reached, behind any number of accepted frames. */
  predicate EndsBy(s: State, destsz: int, m: seq<byte>, q: nat)
    requires s.retry < MAX_BYTE_RETRIES && (m != [] ==> q > 0)
    decreases |m|
  {
    match CatchIn(s, destsz, m, q)
    case Stop => true
    case Acceptance(_, next, rest) => EndsBy(next, destsz, rest, q)
    case _ => false
  }

  /** If the chunk ends in a frame that is short, the silence lasts until the answer. */
  predicate Hushed(s: State, destsz: int, m: seq<byte>, q: nat)
    requires s.retry < MAX_BYTE_RETRIES && (m != [] ==> q > 0)
    decreases |m|
  {
    match CatchIn(s, destsz, m, q)
    case Refusal(_, short) => short ==> q > 1
    case Acceptance(_, next, rest) => Hushed(next, destsz, rest, q)
    case _ => true
  }

  /** The frame was acknowledged. */
  predicate Answered(e: Entry) {
    e.verdict.New? || e.verdict.Duplicate?
  }

  predicate Accepts(log: seq<Entry>) {
    exists k :: 0 <= k < |log| && Answered(log[k])
  }

  lemma CatchVerdict(s: State, destsz: int, m: seq<byte>, q: nat)
    requires s.retry < MAX_BYTE_RETRIES && (m != [] ==> q > 0)
    ensures var c := CatchIn(s, destsz, m, q);
            && (c.Refusal? ==> c.e.verdict.Rejected?)
            && (c.Exhaustion? ==> c.e.verdict.Exhausted?)
            && (c.Acceptance? ==> Answered(c.e) && (s.packetno == 0 ==> c.e.verdict.New?))
  {
  }

  /** When number 0 is expected, the first frame acknowledged is a new one. */
  lemma NoughtIsNew(s: State, destsz: int, m: seq<byte>, q: nat)
    requires s.retry < MAX_BYTE_RETRIES && q > 0 && s.packetno == 0 && Accepts(Frames(s, destsz, m, q))
    ensures Count(Frames(s, destsz, m, q)) > 0
  {
    hide CatchIn, Count;
    CatchVerdict(s, destsz, m, q);
    var c := CatchIn(s, destsz, m, q);
    if c.Acceptance? {
      LogConcat([c.e], Frames(c.next, destsz, c.rest, q));
      Snoc([], c.e);
      Empties([c.e]);
    }
  }

  // ----- One frame -----

  lemma AcceptedTurn(s: State, destsz: int, size: nat, rest: seq<byte>, q: nat, more: seq<Item>)
    requires q > 0 && Answered(Found(s, size, rest))
    ensures var e := Found(s, size, rest);
            && !Short(s, size, rest)
            && Heard(s, destsz, size, Noise(rest, q) + more) ==
               Continue(Update(s, destsz, e), Solicitation(s) + [ACK], [e],
                        Noise(rest[BodySize(Mode(s), size)..], q) + more)
  {
    NotShort(s, size, rest);
    FrameInNoise(rest, q, BodySize(Mode(s), size), more);
  }

  lemma ExhaustedTurn(s: State, destsz: int, size: nat, rest: seq<byte>, q: nat, more: seq<Item>)
    requires q > 0 && Found(s, size, rest).verdict.Exhausted?
    ensures var e, t := Found(s, size, rest), Heard(s, destsz, size, Noise(rest, q) + more);
            && t.Halt? && t.ret == ERROR_RETRANS_LIMIT && t.next == Update(s, destsz, e)
            && t.sent == Solicitation(s) + ABORT && t.log == [e]
  {
    NotShort(s, size, rest);
    FrameInNoise(rest, q, BodySize(Mode(s), size), more);
  }

  // ----- All of a chunk -----

  /** What the turns `t` on a chunk amount to. */
  ghost predicate Accounts(t: Step, frames: seq<Entry>, ends: bool) {
    && t.log == frames
    && (t.Halt? && t.ret >= 0 <==> ends)
    && (t.Halt? ==> t.ret == ERROR_CANCEL || t.ret == ERROR_SYNC || t.ret == ERROR_RETRANS_LIMIT || t.ret == t.next.len)
    && (Accepts(frames) ==> Acks(t))
    && (t.Continue? && Acks(t) ==> Accepts(frames))
  }

  lemma AccountsLater(asked: seq<byte>, t: Step, frames: seq<Entry>, ends: bool)
    requires Accounts(t, frames, ends) && ACK !in asked
    ensures Accounts(Joined(asked, [], t), frames, ends)
  {
    Empties(t.log);
  }

  lemma AccountsBehind(sent: seq<byte>, e: Entry, t: Step, frames: seq<Entry>, ends: bool)
    requires Accounts(t, frames, ends) && Answered(e) && ACK in sent
    ensures Accounts(Joined(sent, [e], t), [e] + frames, ends)
  {
    assert ([e] + frames)[0] == e;
  }

  lemma AccountsUnharmed(s: State, t: Step)
    requires Unharmed(s, t)
    ensures Accounts(t, t.log, false)
  {
  }

  /** A chunk that begins with a header. */
  lemma FrameSettles(s: State, destsz: int, size: nat, rest: seq<byte>, q: nat)
    requires Ready(s) && (size == 128 || size == 1024) && q > 0
    ensures var e, t := Found(s, size, rest), Settle(s, destsz, [Byte(HeaderOf(size))] + Noise(rest, q));
            && (e.verdict.Rejected? ==> Accounts(t, [e], false))
            && (e.verdict.Exhausted? ==> Accounts(t, [e], false))
            && (Answered(e) ==>
                  && !Short(s, size, rest)
                  && t == Joined(Solicitation(s) + [ACK], [e],
                                 Settle(Update(s, destsz, e), destsz, Noise(rest[BodySize(Mode(s), size)..], q))))
  {
    hide Settle, Noise, Heard, Judge, Update, WellFormed;
    var e, chunk := Found(s, size, rest), [Byte(HeaderOf(size))] + Noise(rest, q);
    if e.verdict.Rejected? {
      RefusedUnharmed(s, destsz, size, rest, q);
      AccountsUnharmed(s, Settle(s, destsz, chunk));
    } else {
      HeaderTurn(s, destsz, size, rest, q, []);
      Empties(chunk);
      Empties(Noise(rest, q));
      SettleTurn(s, destsz, chunk);
      if e.verdict.Exhausted? {
        ExhaustedTurn(s, destsz, size, rest, q, []);
        assert !Answered(e);
      } else {
        AcceptedTurn(s, destsz, size, rest, q, []);
        Empties(Noise(rest[BodySize(Mode(s), size)..], q));
      }
    }
  }

  /** Any chunk at all: its frames are the history, and the run ends normally exactly when it ends by an EOT. */
  lemma {:induction false} ChunkAccounts(s: State, destsz: int, m: seq<byte>, q: nat)
    requires Ready(s) && (m != [] ==> q > 0)
    ensures Accounts(Settle(s, destsz, Noise(m, q)), Frames(s, destsz, m, q), EndsBy(s, destsz, m, q))
    decreases |m|
  {
    hide Settle, Noise, Scan, Accounts, Judge, BodySize, Patience;
    var t, sight := Settle(s, destsz, Noise(m, q)), Sight(s, m, q);
    ScanTells(s, destsz, m, q);
    match sight
    case Frame(l, size, rest) =>
      var w := Weary(s, l);
      var e := Found(w, size, rest);
      AsksNoAck(s, l);
      FrameSettles(w, destsz, size, rest, q);
      if Answered(e) {
        var next := Update(w, destsz, e);
        ChunkAccounts(next, destsz, rest[BodySize(Mode(w), size)..], q);
        AccountsBehind(Solicitation(w) + [ACK], e, Settle(next, destsz, Noise(rest[BodySize(Mode(w), size)..], q)),
                       Frames(next, destsz, rest[BodySize(Mode(w), size)..], q),
                       EndsBy(next, destsz, rest[BodySize(Mode(w), size)..], q));
      }
      AccountsLater(Asks(s, l), Settle(w, destsz, FrameSeen(sight, q)),
                    Frames(s, destsz, m, q), EndsBy(s, destsz, m, q));
    case Quiet(l) =>
      AsksNoAck(s, l);
      AccountsUnframed(s, t, false);
    case _ =>
      AccountsUnframed(s, t, sight.Finish?);
  }

  lemma AccountsUnframed(s: State, t: Step, ends: bool)
    requires t.log == [] && (t.Halt? && t.ret >= 0 <==> ends)
    requires t.Halt? ==> t.ret == ERROR_CANCEL || t.ret == ERROR_SYNC || t.ret == t.next.len
    requires t.Continue? ==> !Acks(t)
    ensures Accounts(t, [], ends)
  {
  }

  /**
   * Any chunk at all, in whatever state an attempt begins: the run ends normally within it exactly when its bytes lead
   * to an EOT, at once or behind frames that are accepted.
   */
  lemma EndsEarlyIff(s: State, destsz: int, m: seq<byte>, q: nat)
    requires Ready(s) && (m != [] ==> q > 0)
    ensures var t := Settle(s, destsz, Noise(m, q));
            && (t.Halt? && t.ret >= 0 <==> EndsBy(s, destsz, m, q))
            && (EndsBy(s, destsz, m, q) ==> t.ret == t.next.len && t.log == Frames(s, destsz, m, q))
  {
    ChunkAccounts(s, destsz, m, q);
  }

  /** Noise that exposes nothing brings no frame that is accepted and no end. */
  lemma HarmlessBrings(s: State, destsz: int, m: seq<byte>, q: nat)
    requires s.retry < MAX_BYTE_RETRIES && (m != [] ==> q > 0) && !Exposed(s, m, q)
    ensures !Accepts(Frames(s, destsz, m, q)) && !EndsBy(s, destsz, m, q)
    ensures |Frames(s, destsz, m, q)| <= 1
    ensures Frames(s, destsz, m, q) != [] ==> Frames(s, destsz, m, q)[0].verdict.Rejected?
  {
  }

  // ----- A chunk as part of a longer input -----

  lemma NoiseTurn(s: State, destsz: int, m: seq<byte>, q: nat, more: seq<Item>)
    requires q > 0
    ensures var (first, left) := FirstIn(m, q);
            Turn(s, destsz, Noise(m, q) + more) == match first
                                                   case Nothing => Unheard(s, OnLine(left, more))
                                                   case Header(_, size) => Heard(s, destsz, size, OnLine(left, more))
                                                   case End =>
                                                     Halt(s.len, s, Solicitation(s) + [ACK], [], OnLine(left, more))
                                                   case Cancelled =>
                                                     Halt(ERROR_CANCEL, s, Solicitation(s) + [ACK], [],
                                                          OnLine(left, more))
  {
    FirstInNoise(m, q, more);
  }

  /** The next turn on the chunk, and on the chunk with more behind it. */
  lemma DecidesNow(s: State, destsz: int, chunk: seq<Item>, more: seq<Item>, t: Step, t': Step)
    requires chunk != [] && t == Turn(s, destsz, chunk) && t' == Turn(s, destsz, chunk + more)
    requires match t
             case Halt(ret, next, sent, log, _) =>
               t'.Halt? && t'.ret == ret && t'.next == next && t'.sent == sent && t'.log == log
             case Continue(next, sent, log, rest) =>
               t' == Continue(next, sent, log, rest + more) && Decides(next, destsz, rest, more)
    ensures Decides(s, destsz, chunk, more)
  {
    SettleTurn(s, destsz, chunk);
    SessionTurn(s, destsz, chunk + more);
    if t.Continue? {
      ComesJoined(t.sent, t.log, Settle(t.next, destsz, t.rest), Session(t.next, destsz, t.rest + more), destsz, more);
    }
  }

  lemma DecidesNothing(s: State, destsz: int, more: seq<Item>)
    ensures Decides(s, destsz, [], more)
  {
    Empties(more);
    PrefixedByNothing(Session(s, destsz, more));
  }

  lemma PrefixedByNothing(o: Outcome)
    ensures Prefixed([], [], o) == o
  {
    Empties(o.sent);
    Empties(o.log);
  }

  /** An attempt that finds nothing. */
  lemma FruitlessDecides(s: State, destsz: int, m: seq<byte>, q: nat, more: seq<Item>)
    requires s.retry < MAX_BYTE_RETRIES && q > 0 && FirstIn(m, q).0.Nothing?
    requires var left := FirstIn(m, q).1;
             Patience(s) > 1 ==> Decides(Weary(s, Patience(s) - 1), destsz, Noise(left.m, left.q), more)
    ensures Decides(s, destsz, Noise(m, q), more)
  {
    hide Decides, ReadFirst, Turn, Settle, Session, Noise, Weary;
    var left, chunk := FirstIn(m, q).1, Noise(m, q);
    NoiseTurn(s, destsz, m, q, more);
    NoiseTurn(s, destsz, m, q, []);
    Empties(chunk);
    Empties(Noise(left.m, left.q));
    UnheardNext(s, OnLine(left, more));
    UnheardNext(s, Noise(left.m, left.q));
    DecidesNow(s, destsz, chunk, more, Turn(s, destsz, chunk), Turn(s, destsz, chunk + more));
  }

  /** An attempt that finds a frame, which is refused. */
  lemma RefusedDecides(s: State, destsz: int, m: seq<byte>, q: nat, more: seq<Item>)
    requires s.retry < MAX_BYTE_RETRIES && q > 0 && FirstIn(m, q).0.Header?
    requires var size, rest := FirstIn(m, q).0.size, FirstIn(m, q).1.m;
             && Found(s, size, rest).verdict.Rejected?
             && (Short(s, size, rest) ==> q > 1)
             && Decides(Update(s, destsz, Found(s, size, rest)), destsz, Noise([], Hush(s, size, rest, q)), more)
    ensures Decides(s, destsz, Noise(m, q), more)
  {
    hide Decides, ReadFirst, Turn, Settle, Session, Noise, Weary, Found, Heard, Update, Short;
    var size, rest, chunk := FirstIn(m, q).0.size, FirstIn(m, q).1.m, Noise(m, q);
    NoiseTurn(s, destsz, m, q, more);
    NoiseTurn(s, destsz, m, q, []);
    Empties(chunk);
    RefusedTurn(s, destsz, size, rest, q, more);
    RefusedTurn(s, destsz, size, rest, q, []);
    Empties(Noise(rest, q));
    Empties(Noise([], Hush(s, size, rest, q)));
    DecidesNow(s, destsz, chunk, more, Turn(s, destsz, chunk), Turn(s, destsz, chunk + more));
  }

  /** An attempt that finds an end. */
  lemma EndDecides(s: State, destsz: int, m: seq<byte>, q: nat, more: seq<Item>)
    requires q > 0 && (FirstIn(m, q).0.End? || FirstIn(m, q).0.Cancelled?)
    ensures Decides(s, destsz, Noise(m, q), more)
  {
    hide Decides, ReadFirst, Turn, Settle, Session, Noise;
    var chunk := Noise(m, q);
    NoiseTurn(s, destsz, m, q, more);
    NoiseTurn(s, destsz, m, q, []);
    Empties(chunk);
    DecidesNow(s, destsz, chunk, more, Turn(s, destsz, chunk), Turn(s, destsz, chunk + more));
  }

  /** An attempt that finds a frame, which is accepted. */
  lemma AcceptedDecides(s: State, destsz: int, m: seq<byte>, q: nat, more: seq<Item>)
    requires s.retry < MAX_BYTE_RETRIES && q > 0 && FirstIn(m, q).0.Header?
    requires var size, rest := FirstIn(m, q).0.size, FirstIn(m, q).1.m;
             && Answered(Found(s, size, rest)) && !Short(s, size, rest)
             && Decides(Update(s, destsz, Found(s, size, rest)), destsz,
                        Noise(rest[BodySize(Mode(s), size)..], q), more)
    ensures Decides(s, destsz, Noise(m, q), more)
  {
    hide Decides, ReadFirst, Turn, Settle, Session, Noise, Weary, Found, Heard, Update;
    var size, rest, chunk := FirstIn(m, q).0.size, FirstIn(m, q).1.m, Noise(m, q);
    NoiseTurn(s, destsz, m, q, more);
    NoiseTurn(s, destsz, m, q, []);
    Empties(chunk);
    AcceptedTurn(s, destsz, size, rest, q, more);
    AcceptedTurn(s, destsz, size, rest, q, []);
    Empties(Noise(rest, q));
    Empties(Noise(rest[BodySize(Mode(s), size)..], q));
    DecidesNow(s, destsz, chunk, more, Turn(s, destsz, chunk), Turn(s, destsz, chunk + more));
  }

  /** An attempt that finds a frame which is one repeat too many. */
  lemma ExhaustedDecides(s: State, destsz: int, m: seq<byte>, q: nat, more: seq<Item>)
    requires s.retry < MAX_BYTE_RETRIES && q > 0 && FirstIn(m, q).0.Header?
    requires Found(s, FirstIn(m, q).0.size, FirstIn(m, q).1.m).verdict.Exhausted?
    ensures Decides(s, destsz, Noise(m, q), more)
  {
    hide Decides, ReadFirst, Turn, Settle, Session, Noise, Weary, Found, Heard, Update, Short;
    var size, rest, chunk := FirstIn(m, q).0.size, FirstIn(m, q).1.m, Noise(m, q);
    NoiseTurn(s, destsz, m, q, more);
    NoiseTurn(s, destsz, m, q, []);
    Empties(chunk);
    ExhaustedTurn(s, destsz, size, rest, q, more);
    ExhaustedTurn(s, destsz, size, rest, q, []);
    Empties(Noise(rest, q));
    DecidesNow(s, destsz, chunk, more, Turn(s, destsz, chunk), Turn(s, destsz, chunk + more));
  }

  lemma SilenceIsIdle(s: State, destsz: int, q: nat)
    requires s.retry < MAX_BYTE_RETRIES
    ensures CatchIn(s, destsz, [], q) == Idle
    ensures !Exposed(s, [], q) && Hushed(s, destsz, [], q)
    ensures Frames(s, destsz, [], q) == [] && !EndsBy(s, destsz, [], q)
  {
    ScanSilence(q, Patience(s));
  }

  lemma CatchLater(s: State, destsz: int, m: seq<byte>, q: nat)
    requires s.retry < MAX_BYTE_RETRIES && q > 0 && FirstIn(m, q).0.Nothing? && Patience(s) > 1
    ensures var next, left := Weary(s, Patience(s) - 1), FirstIn(m, q).1;
            CatchIn(next, destsz, left.m, left.q) == CatchIn(s, destsz, m, q)
  {
    var left := FirstIn(m, q).1;
    ScanStep(m, q, Patience(s));
    var sight := Sight(s, m, q);
    if sight.Frame? {
      WearyAgain(s, Patience(s) - 1, sight.left);
    }
  }

  /** After an attempt that finds nothing the rest is hushed as before. */
  lemma HushedLater(s: State, destsz: int, m: seq<byte>, q: nat)
    requires s.retry < MAX_BYTE_RETRIES && q > 0 && FirstIn(m, q).0.Nothing? && Patience(s) > 1
    requires Hushed(s, destsz, m, q)
    ensures var left := FirstIn(m, q).1; Hushed(Weary(s, Patience(s) - 1), destsz, left.m, left.q)
  {
    hide Scan, Weary, FirstIn;
    CatchLater(s, destsz, m, q);
    var left := FirstIn(m, q).1;
    if left.m == [] {
      SilenceIsIdle(Weary(s, Patience(s) - 1), destsz, left.q);
    }
  }

  lemma CatchNow(s: State, destsz: int, m: seq<byte>, q: nat)
    requires s.retry < MAX_BYTE_RETRIES && q > 0 && FirstIn(m, q).0.Header?
    ensures var size, rest := FirstIn(m, q).0.size, FirstIn(m, q).1.m;
            var e := Found(s, size, rest);
            CatchIn(s, destsz, m, q) ==
            if e.verdict.Rejected? then Refusal(e, Short(s, size, rest))
            else if e.verdict.Exhausted? then Exhaustion(e)
            else (NotShort(s, size, rest); Acceptance(e, Update(s, destsz, e), rest[BodySize(Mode(s), size)..]))
  {
    WearySelf(s);
    ScanStep(m, q, Patience(s));
  }

  /** A chunk decides its turns, whatever follows. */
  lemma {:induction false} NoiseDecides(s: State, destsz: int, m: seq<byte>, q: nat, more: seq<Item>)
    requires s.retry < MAX_BYTE_RETRIES && (m != [] ==> q > 0) && Hushed(s, destsz, m, q)
    ensures Decides(s, destsz, Noise(m, q), more)
    decreases |m| + q
  {
    hide Decides, Noise, Weary, Scan, Judge, CatchIn, Found;
    if m == [] && q == 0 {
      NothingToScan(s, destsz);
      DecidesNothing(s, destsz, more);
    } else {
      var (first, left) := FirstIn(m, q);
      if first.Nothing? {
        if Patience(s) > 1 {
          HushedLater(s, destsz, m, q);
          NoiseDecides(Weary(s, Patience(s) - 1), destsz, left.m, left.q, more);
        }
        FruitlessDecides(s, destsz, m, q, more);
      } else if first.Header? {
        var size, rest := first.size, left.m;
        var e := Found(s, size, rest);
        var next := Update(s, destsz, e);
        CatchNow(s, destsz, m, q);
        if e.verdict.Rejected? {
          var hush := Hush(s, size, rest, q);
          SilenceIsIdle(next, destsz, hush);
          NoiseDecides(next, destsz, [], hush, more);
          RefusedDecides(s, destsz, m, q, more);
        } else if e.verdict.Exhausted? {
          ExhaustedDecides(s, destsz, m, q, more);
        } else {
          NotShort(s, size, rest);
          NoiseDecides(next, destsz, rest[BodySize(Mode(s), size)..], q, more);
          AcceptedDecides(s, destsz, m, q, more);
        }
      } else {
        EndDecides(s, destsz, m, q, more);
      }
    }
  }
}
