/**
 * What the receiver makes of any bytes at all, followed by silence: the general fault of a line. Attempts to get a
 * header scan the bytes for what they reach first.
 */
module Faults {
  import opened Crc
  import opened Sequences
  import opened Wire
  import opened Receiver
  import opened Ledger

  // ----- All the turns a chunk of input gives rise to -----

  /** `t` with something sent and logged before it. */
  function Joined(sent: seq<byte>, log: seq<Entry>, t: Step): Step {
    t.(sent := sent + t.sent, log := log + t.log)
  }

  lemma AttemptConsumes(input: seq<Item>)
    requires input != []
    ensures |ReadFirst(input).1| < |input|
  {
  }

  lemma TurnConsumes(s: State, destsz: int, input: seq<Item>)
    requires input != [] && Turn(s, destsz, input).Continue?
    ensures |Turn(s, destsz, input).rest| < |input|
  {
    AttemptConsumes(input);
  }

  /** The turns until `chunk` is used up, or the run ends. */
  function Settle(s: State, destsz: int, chunk: seq<Item>): Step
    decreases |chunk|
  {
    if chunk == [] then Continue(s, [], [], [])
    else
      var t := Turn(s, destsz, chunk);
      if t.Halt? then t
      else
        TurnConsumes(s, destsz, chunk);
        Joined(t.sent, t.log, Settle(t.next, destsz, t.rest))
  }

  /** The chunk does to the run what its own turns do, whatever follows it on the line. */
  ghost predicate Decides(s: State, destsz: int, chunk: seq<Item>, more: seq<Item>) {
    Comes(Settle(s, destsz, chunk), Session(s, destsz, chunk + more), destsz, more)
  }

  /** `o` is the outcome of a run that begins with `t` and then goes on with `more`. */
  ghost predicate Comes(t: Step, o: Outcome, destsz: int, more: seq<Item>) {
    match t
    case Continue(next, sent, log, _) => o == Prefixed(sent, log, Session(next, destsz, more))
    case Halt(ret, next, sent, log, _) => o.ret == ret && o.final == next && o.sent == sent && o.log == log
  }

  lemma ComesJoined(sent: seq<byte>, log: seq<Entry>, t: Step, o: Outcome, destsz: int, more: seq<Item>)
    requires Comes(t, o, destsz, more)
    ensures Comes(Joined(sent, log, t), Prefixed(sent, log, o), destsz, more)
  {
    if t.Continue? {
      PrefixedTwice(sent, t.sent, log, t.log, Session(t.next, destsz, more));
    }
  }

  /** A chunk leads from a state that agrees with the history to one that does, unless it ends the run. */
  lemma {:induction false} SettleAgrees(s: State, log: seq<Entry>, destsz: int, chunk: seq<Item>)
    requires Agrees(s, log, destsz)
    ensures var t := Settle(s, destsz, chunk);
            && RightVerdicts(log + t.log)
            && t.next.len == |Delivered(log + t.log, destsz)|
            && (t.Continue? ==> Agrees(t.next, log + t.log, destsz))
    decreases |chunk|
  {
    if chunk == [] {
      Empties(log);
    } else {
      var t := Turn(s, destsz, chunk);
      TurnAgrees(s, log, destsz, chunk);
      SettleTurn(s, destsz, chunk);
      if t.Continue? {
        TurnConsumes(s, destsz, chunk);
        SettleAgrees(t.next, log + t.log, destsz, t.rest);
        Associates(log, t.log, Settle(t.next, destsz, t.rest).log);
      }
    }
  }

  // ----- One attempt on noise -----

  /** Bytes still to come, and the waits that time out after them. */
  datatype Left = Left(m: seq<byte>, q: nat)

  function OnLine(left: Left, more: seq<Item>): seq<Item> {
    Noise(left.m, left.q) + more
  }

  /** What an attempt finds in bytes followed by silence, and what is left of both. */
  function FirstIn(m: seq<byte>, q: nat): (r: (First, Left))
    requires q > 0
    ensures |r.1.m| <= |m| && r.1.q <= q && |r.1.m| + r.1.q < |m| + q
    ensures r.1.m != [] ==> r.1.q == q
  {
    if m == [] then (Nothing, Left([], q - 1))
    else if m[0] == SOH then (Header(SOH, 128), Left(m[1..], q))
    else if m[0] == STX then (Header(STX, 1024), Left(m[1..], q))
    else if m[0] == EOT then (End, Left([], q - 1))
    else if m[0] == CAN then
      if |m| == 1 then (Nothing, Left([], q - 1))
      else if m[1] == CAN then (Cancelled, Left([], q - 1))
      else (Nothing, Left(m[2..], q))
    else (Nothing, Left(m[1..], q))
  }

  lemma FirstInNoise(m: seq<byte>, q: nat, more: seq<Item>)
    requires q > 0
    ensures ReadFirst(Noise(m, q) + more) == (FirstIn(m, q).0, OnLine(FirstIn(m, q).1, more))
  {
    NoiseTail(m, q, more);
    if m != [] {
      NoiseTail(m[1..], q, more);
      if m[0] == EOT {
        FlushedNoise(m[1..], q, more);
      }
      if m[0] == CAN && |m| > 1 {
        assert m[1..][1..] == m[2..];
        FlushedNoise(m[2..], q, more);
      }
    }
  }

  /** The bytes of a frame of `n` bytes and what is left after them. */
  function FrameIn(m: seq<byte>, q: nat, n: nat): (r: (seq<byte>, Left))
    requires q > 0
    ensures |r.1.m| <= |m| && r.1.q <= q
  {
    if |m| < n then (m, Left([], q - 1)) else (m[..n], Left(m[n..], q))
  }

  lemma FrameInNoise(m: seq<byte>, q: nat, n: nat, more: seq<Item>)
    requires q > 0
    ensures Taken(Noise(m, q) + more, n) == FrameIn(m, q, n).0
    ensures Untaken(Noise(m, q) + more, n) == OnLine(FrameIn(m, q, n).1, more)
  {
    if |m| < n {
      TakenShort(m, q, more, n);
    } else {
      TakenLong(m, q, more, n);
    }
  }

  // ----- Attempts left -----

  /** The attempts left before the run gives up, the next one included. */
  function Patience(s: State): (n: nat)
    requires s.retry < MAX_BYTE_RETRIES
    ensures n > 0
  {
    (if s.trychar == SOLICIT_CRC then MAX_BYTE_RETRIES else 0) + MAX_BYTE_RETRIES - s.retry
  }

  /** The variables when `left` of the attempts are left, the others having brought nothing. */
  function Weary(s: State, left: nat): (s': State)
    requires s.retry < MAX_BYTE_RETRIES && 1 <= left <= Patience(s)
    ensures s'.retry < MAX_BYTE_RETRIES && Patience(s') == left
  {
    if left > MAX_BYTE_RETRIES then s.(retry := 2 * MAX_BYTE_RETRIES - left)
    else s.(trychar := if s.trychar == SOLICIT_CRC then NAK else s.trychar, retry := MAX_BYTE_RETRIES - left)
  }

  lemma WearyAgain(s: State, left: nat, l: nat)
    requires s.retry < MAX_BYTE_RETRIES && 1 <= l <= left <= Patience(s)
    ensures Weary(Weary(s, left), l) == Weary(s, l)
    ensures left == Patience(s) && (left > MAX_BYTE_RETRIES || s.trychar != SOLICIT_CRC) ==> Weary(s, left) == s
  {
  }

  /** The state is one in which an attempt begins. */
  predicate Ready(s: State) {
    s.retry < MAX_BYTE_RETRIES && s.len >= 0 && (s.trychar == SOLICIT_CRC || s.trychar == NAK || s.trychar == 0)
  }

  lemma WearySelf(s: State)
    requires s.retry < MAX_BYTE_RETRIES
    ensures Weary(s, Patience(s)) == s
  {
  }

  lemma UnheardNext(s: State, rest: seq<Item>)
    requires s.retry < MAX_BYTE_RETRIES
    ensures Unheard(s, rest) ==
            if Patience(s) == 1 then Halt(ERROR_SYNC, s, Solicitation(s) + ABORT, [], Flushed(rest))
            else Continue(Weary(s, Patience(s) - 1), Solicitation(s), [], rest)
  {
  }

  /** The solicitations sent until `left` attempts are left. */
  function Asks(s: State, left: nat): seq<byte>
    requires s.retry < MAX_BYTE_RETRIES && 1 <= left <= Patience(s)
    decreases Patience(s)
  {
    if left == Patience(s) then [] else Solicitation(s) + Asks(Weary(s, Patience(s) - 1), left)
  }

  // ----- Scanning noise for a header -----

  /** What the attempts reach first in noise, and how many of them are left then. */
  datatype Sighting =
    | Quiet(left: nat)
    | Frame(left: nat, size: nat, rest: seq<byte>)
    | Finish(left: nat)
    | Cancel(left: nat)
    | GivesUp

  function Scan(m: seq<byte>, q: nat, left: nat): (r: Sighting)
    requires m != [] ==> q > 0
    ensures r.Quiet? || r.Frame? || r.Finish? || r.Cancel? ==> 1 <= r.left <= left
    ensures r.Frame? ==> q > 0 && |r.rest| + left - r.left < |m| && (r.size == 128 || r.size == 1024)
    decreases |m| + q
  {
    if left == 0 then GivesUp
    else if m == [] then (if q == 0 then Quiet(left) else Scan([], q - 1, left - 1))
    else if m[0] == SOH then Frame(left, 128, m[1..])
    else if m[0] == STX then Frame(left, 1024, m[1..])
    else if m[0] == EOT then Finish(left)
    else if m[0] == CAN then
      if |m| == 1 then Scan([], q - 1, left - 1)
      else if m[1] == CAN then Cancel(left)
      else Scan(m[2..], q, left - 1)
    else Scan(m[1..], q, left - 1)
  }

  function Sight(s: State, m: seq<byte>, q: nat): Sighting
    requires s.retry < MAX_BYTE_RETRIES && (m != [] ==> q > 0)
  {
    Scan(m, q, Patience(s))
  }

  function HeaderOf(size: nat): byte {
    if size == 128 then SOH else STX
  }

  /** The header sighted and what comes after it. */
  function FrameSeen(sight: Sighting, q: nat): seq<Item>
    requires sight.Frame?
  {
    [Byte(HeaderOf(sight.size))] + Noise(sight.rest, q)
  }

  /** What a sighting means for the turns `t` that the noise gives rise to. */
  ghost predicate Tells(s: State, destsz: int, sight: Sighting, q: nat, t: Step)
    requires s.retry < MAX_BYTE_RETRIES
  {
    match sight
    case Quiet(l) => 1 <= l <= Patience(s) && t == Continue(Weary(s, l), Asks(s, l), [], [])
    case Frame(l, _, _) =>
      1 <= l <= Patience(s) && t == Joined(Asks(s, l), [], Settle(Weary(s, l), destsz, FrameSeen(sight, q)))
    case Finish(l) => 1 <= l <= Patience(s) && Ends(t, s.len, Weary(s, l), Asks(s, l), [ACK])
    case Cancel(l) => 1 <= l <= Patience(s) && Ends(t, ERROR_CANCEL, Weary(s, l), Asks(s, l), [ACK])
    case GivesUp => Ends(t, ERROR_SYNC, Weary(s, 1), Asks(s, 1), ABORT)
  }

  /** The run ends with `ret` in state `s`, having sent `asked`, one more solicitation, and `closing`. */
  ghost predicate Ends(t: Step, ret: int, s: State, asked: seq<byte>, closing: seq<byte>) {
    t.Halt? && t.ret == ret && t.next == s && t.log == [] && t.sent == asked + (Solicitation(s) + closing)
  }

  lemma TellsLater(s: State, destsz: int, sight: Sighting, q: nat, t: Step)
    requires s.retry < MAX_BYTE_RETRIES && Patience(s) > 1
    requires Tells(Weary(s, Patience(s) - 1), destsz, sight, q, t)
    ensures Tells(s, destsz, sight, q, Joined(Solicitation(s), [], t))
  {
    var next, ask := Weary(s, Patience(s) - 1), Solicitation(s);
    var l := if sight.GivesUp? then 1 else sight.left;
    WearyAgain(s, Patience(s) - 1, l);
    assert Asks(s, l) == ask + Asks(next, l);
    Empties(t.log);
    if sight.Frame? {
      JoinedTwice(ask, Asks(next, l), Settle(Weary(s, l), destsz, FrameSeen(sight, q)));
    } else if !sight.Quiet? {
      Associates(ask, Asks(next, l), Solicitation(Weary(s, l)) + (if sight.GivesUp? then ABORT else [ACK]));
    }
  }

  lemma JoinedTwice(a: seq<byte>, b: seq<byte>, t: Step)
    ensures Joined(a, [], Joined(b, [], t)) == Joined(a + b, [], t)
  {
    Associates(a, b, t.sent);
    Empties(t.log);
    Empties([] + t.log);
  }

  lemma TellsNow(s: State, destsz: int, sight: Sighting, q: nat, t: Step)
    requires s.retry < MAX_BYTE_RETRIES
    requires Patience(s) == if sight.GivesUp? then 1 else sight.left
    requires match sight
             case Quiet(_) => t == Continue(s, [], [], [])
             case Frame(_, _, _) => t == Settle(s, destsz, FrameSeen(sight, q))
             case Finish(_) => Ends(t, s.len, s, [], [ACK])
             case Cancel(_) => Ends(t, ERROR_CANCEL, s, [], [ACK])
             case GivesUp => Ends(t, ERROR_SYNC, s, [], ABORT)
    ensures Tells(s, destsz, sight, q, t)
  {
    WearySelf(s);
    Empties(t.sent);
    Empties(t.log);
  }

  lemma SettleTurn(s: State, destsz: int, chunk: seq<Item>)
    requires chunk != []
    ensures var t := Turn(s, destsz, chunk);
            Settle(s, destsz, chunk) == if t.Halt? then t else Joined(t.sent, t.log, Settle(t.next, destsz, t.rest))
  {
  }

  lemma {:induction false} ScanTells(s: State, destsz: int, m: seq<byte>, q: nat)
    requires s.retry < MAX_BYTE_RETRIES && (m != [] ==> q > 0)
    ensures Tells(s, destsz, Sight(s, m, q), q, Settle(s, destsz, Noise(m, q)))
    decreases |m| + q
  {
    hide Scan, Tells, Settle, Noise, ReadFirst, Weary, Patience, Heard;
    var chunk, sight := Noise(m, q), Sight(s, m, q);
    if m == [] && q == 0 {
      NothingToScan(s, destsz);
      TellsNow(s, destsz, sight, q, Settle(s, destsz, chunk));
    } else {
      var (first, left) := FirstIn(m, q);
      FirstInNoise(m, q, []);
      Empties(chunk);
      Empties(Noise(left.m, left.q));
      SettleTurn(s, destsz, chunk);
      ScanStep(m, q, Patience(s));
      if first.Nothing? {
        UnheardNext(s, Noise(left.m, left.q));
        if Patience(s) > 1 {
          var next := Weary(s, Patience(s) - 1);
          ScanTells(next, destsz, left.m, left.q);
          TellsWithout(next, destsz, sight, left.q, q, Settle(next, destsz, Noise(left.m, left.q)));
          TellsLater(s, destsz, sight, q, Settle(next, destsz, Noise(left.m, left.q)));
        } else {
          TellsNow(s, destsz, sight, q, Settle(s, destsz, chunk));
        }
      } else {
        if first.Header? {
          HeaderFirst(m, q);
        }
        TellsNow(s, destsz, sight, q, Settle(s, destsz, chunk));
      }
    }
  }

  lemma TellsWithout(s: State, destsz: int, sight: Sighting, q: nat, q': nat, t: Step)
    requires s.retry < MAX_BYTE_RETRIES && Tells(s, destsz, sight, q, t) && (q == q' || !sight.Frame?)
    ensures Tells(s, destsz, sight, q', t)
  {
  }

  lemma NothingToScan(s: State, destsz: int)
    requires s.retry < MAX_BYTE_RETRIES
    ensures Sight(s, [], 0) == Quiet(Patience(s)) && Noise([], 0) == []
    ensures Settle(s, destsz, Noise([], 0)) == Continue(s, [], [], [])
  {
  }

  lemma ScanStep(m: seq<byte>, q: nat, left: nat)
    requires q > 0 && left > 0
    ensures var (first, l) := FirstIn(m, q);
            Scan(m, q, left) == match first
                                case Nothing => Scan(l.m, l.q, left - 1)
                                case Header(_, size) => Frame(left, size, m[1..])
                                case End => Finish(left)
                                case Cancelled => Cancel(left)
    ensures left == 1 && FirstIn(m, q).0.Nothing? ==> Scan(m, q, left).GivesUp?
  {
  }

  lemma HeaderFirst(m: seq<byte>, q: nat)
    requires q > 0 && FirstIn(m, q).0.Header?
    ensures var size := FirstIn(m, q).0.size; Noise(m, q) == [Byte(HeaderOf(size))] + Noise(m[1..], q)
  {
    NoiseTail(m, q, []);
    Empties(Noise(m, q));
    Empties(Noise(m[1..], q));
  }

  // ----- A frame among the noise -----

  function Front(m: seq<byte>, n: nat): seq<byte> {
    if |m| < n then m else m[..n]
  }

  /** What the receiver makes of a frame whose header it finds in front of `rest`. */
  function Found(s: State, size: nat, rest: seq<byte>): Entry {
    Judged(s, size, Front(rest, BodySize(Mode(s), size)))
  }

  predicate Short(s: State, size: nat, rest: seq<byte>) {
    |rest| < BodySize(Mode(s), size)
  }

  /** The silence left after a refused frame: reading it may use up one wait, and throwing the rest away another. */
  function Hush(s: State, size: nat, rest: seq<byte>, q: nat): nat
    requires q > 0
  {
    if Short(s, size, rest) then (if q == 1 then 0 else q - 2) else q - 1
  }

  lemma RefusedTurn(s: State, destsz: int, size: nat, rest: seq<byte>, q: nat, more: seq<Item>)
    requires q > 0 && Found(s, size, rest).verdict.Rejected?
    requires Short(s, size, rest) && q == 1 ==> more == []
    ensures var e := Found(s, size, rest);
            Heard(s, destsz, size, Noise(rest, q) + more) ==
            Continue(Update(s, destsz, e), Solicitation(s) + [NAK], [e], Noise([], Hush(s, size, rest, q)) + more)
  {
    var n := BodySize(Mode(s), size);
    FrameInNoise(rest, q, n, more);
    if |rest| >= n {
      FlushedNoise(rest[n..], q, more);
    } else if q > 1 {
      FlushedNoise([], q - 1, more);
    } else {
      assert Noise([], 0) + [] == [];
    }
  }

  lemma HeaderTurn(s: State, destsz: int, size: nat, rest: seq<byte>, q: nat, more: seq<Item>)
    requires size == 128 || size == 1024
    ensures var input := [Byte(HeaderOf(size))] + Noise(rest, q) + more;
            Turn(s, destsz, input) == Heard(s, destsz, size, Noise(rest, q) + more)
  {
    var input := [Byte(HeaderOf(size))] + Noise(rest, q) + more;
    assert input[0] == Byte(HeaderOf(size)) && input[1..] == Noise(rest, q) + more;
  }

  /** A refused frame and the silence after it. */
  lemma RefusedTells(s: State, destsz: int, size: nat, rest: seq<byte>, q: nat)
    requires (size == 128 || size == 1024) && q > 0 && Found(s, size, rest).verdict.Rejected?
    ensures var e := Found(s, size, rest);
            Settle(s, destsz, [Byte(HeaderOf(size))] + Noise(rest, q)) ==
            Joined(Solicitation(s) + [NAK], [e],
                   Settle(Update(s, destsz, e), destsz, Noise([], Hush(s, size, rest, q))))
  {
    var chunk := [Byte(HeaderOf(size))] + Noise(rest, q);
    HeaderTurn(s, destsz, size, rest, q, []);
    RefusedTurn(s, destsz, size, rest, q, []);
    Empties(chunk);
    Empties(Noise(rest, q));
    Empties(Noise([], Hush(s, size, rest, q)));
    SettleTurn(s, destsz, chunk);
  }

  /** Whatever the frame is, it is the first entry of the history. */
  lemma FoundFirst(s: State, destsz: int, size: nat, rest: seq<byte>, q: nat)
    requires (size == 128 || size == 1024) && q > 0
    ensures var t := Settle(s, destsz, [Byte(HeaderOf(size))] + Noise(rest, q));
            t.log != [] && t.log[0] == Found(s, size, rest)
  {
    hide Noise, Settle;
    var chunk := [Byte(HeaderOf(size))] + Noise(rest, q);
    HeaderTurn(s, destsz, size, rest, q, []);
    FrameInNoise(rest, q, BodySize(Mode(s), size), []);
    Empties(chunk);
    Empties(Noise(rest, q));
    SettleTurn(s, destsz, chunk);
  }

  // ----- Which noise does harm -----

  /** The receiver acknowledged. */
  predicate Acks(t: Step) {
    ACK in t.sent
  }

  lemma {:induction false} AsksNoAck(s: State, left: nat)
    requires Ready(s) && 1 <= left <= Patience(s)
    ensures ACK !in Asks(s, left)
    ensures s.trychar == 0 ==> Asks(s, left) == []
    decreases Patience(s)
  {
    if left < Patience(s) {
      AsksNoAck(Weary(s, Patience(s) - 1), left);
    }
  }

  /**
   * The attempts reach an EOT, or a header with a frame behind it that passes for the block expected or the one
   * before. What they reach is decided by the bytes alone.
   */
  predicate Exposed(s: State, m: seq<byte>, q: nat)
    requires s.retry < MAX_BYTE_RETRIES && (m != [] ==> q > 0)
  {
    match Sight(s, m, q)
    case Finish(_) => true
    case Frame(l, size, rest) => !Found(Weary(s, l), size, rest).verdict.Rejected?
    case _ => false
  }

  /** Nothing is accepted or ended normally, and nothing is acknowledged but a double CAN. */
  ghost predicate Unharmed(s: State, t: Step) {
    && |t.log| <= 1
    && (forall k :: 0 <= k < |t.log| ==> t.log[k].verdict.Rejected?)
    && t.next.len == s.len
    && (Acks(t) ==> t.Halt? && t.ret == ERROR_CANCEL)
    && (t.Halt? ==> t.ret == ERROR_CANCEL || t.ret == ERROR_SYNC)
  }

  /** Silence brings nothing; it ends the run when it lasts for all the attempts left. */
  lemma SilenceUnharmed(s: State, destsz: int, q: nat)
    requires Ready(s)
    ensures var t := Settle(s, destsz, Noise([], q));
            && Unharmed(s, t) && t.log == [] && !Acks(t)
            && (t.Halt? <==> q >= Patience(s)) && (t.Halt? ==> t.ret == ERROR_SYNC)
  {
    hide Scan, Settle, Noise;
    ScanTells(s, destsz, [], q);
    ScanSilence(q, Patience(s));
    AsksNoAck(s, if q < Patience(s) then Patience(s) - q else 1);
  }

  lemma {:induction false} ScanSilence(q: nat, left: nat)
    ensures Scan([], q, left) == if q < left then Quiet(left - q) else GivesUp
  {
    if left > 0 && q > 0 {
      ScanSilence(q - 1, left - 1);
    }
  }

  lemma RefusedUnharmed(s: State, destsz: int, size: nat, rest: seq<byte>, q: nat)
    requires Ready(s) && (size == 128 || size == 1024) && q > 0 && Found(s, size, rest).verdict.Rejected?
    ensures Unharmed(s, Settle(s, destsz, [Byte(HeaderOf(size))] + Noise(rest, q)))
    ensures !Acks(Settle(s, destsz, [Byte(HeaderOf(size))] + Noise(rest, q)))
    ensures var t := Settle(s, destsz, [Byte(HeaderOf(size))] + Noise(rest, q));
            && t.log == [Found(s, size, rest)]
            && (t.Halt? <==> Hush(s, size, rest, q) >= MAX_BYTE_RETRIES) && (t.Halt? ==> t.ret == ERROR_SYNC)
  {
    hide Settle, Noise, Judge, BodySize;
    RefusedTells(s, destsz, size, rest, q);
    SilenceUnharmed(Update(s, destsz, Found(s, size, rest)), destsz, Hush(s, size, rest, q));
    Empties([Found(s, size, rest)]);
  }

  lemma UnharmedLater(s: State, asked: seq<byte>, t: Step)
    requires Unharmed(s, t) && !Acks(t) && ACK !in asked
    ensures Unharmed(s, Joined(asked, [], t))
  {
    Empties(t.log);
  }

  /** Noise that exposes nothing changes nothing but the attempts left, or ends the run with an error. */
  lemma HarmlessNoise(s: State, destsz: int, m: seq<byte>, q: nat)
    requires Ready(s) && (m != [] ==> q > 0) && !Exposed(s, m, q)
    ensures Unharmed(s, Settle(s, destsz, Noise(m, q)))
  {
    hide Scan, Settle, Noise, Judge;
    ScanTells(s, destsz, m, q);
    match Sight(s, m, q)
    case Quiet(l) => AsksNoAck(s, l);
    case Frame(l, size, rest) =>
      RefusedUnharmed(Weary(s, l), destsz, size, rest, q);
      AsksNoAck(s, l);
      UnharmedLater(s, Asks(s, l), Settle(Weary(s, l), destsz, FrameSeen(Sight(s, m, q), q)));
    case Cancel(_) =>
    case GivesUp => AsksNoAck(s, 1);
  }

  /** Any noise at all: nothing is accepted and the run does not end normally, if and only if nothing is exposed. */
  lemma HarmlessIff(s: State, destsz: int, m: seq<byte>, q: nat)
    requires Ready(s) && (m != [] ==> q > 0)
    ensures var t := Settle(s, destsz, Noise(m, q));
            (forall k :: 0 <= k < |t.log| ==> t.log[k].verdict.Rejected?) && (t.Halt? ==> t.ret < 0)
            <==> !Exposed(s, m, q)
  {
    if Exposed(s, m, q) {
      ScanTells(s, destsz, m, q);
      var sight, t := Sight(s, m, q), Settle(s, destsz, Noise(m, q));
      if sight.Frame? {
        FoundFirst(Weary(s, sight.left), destsz, sight.size, sight.rest, q);
        Empties(Settle(Weary(s, sight.left), destsz, FrameSeen(sight, q)).log);
        assert t.log != [] && !t.log[0].verdict.Rejected?;
      }
    } else {
      HarmlessNoise(s, destsz, m, q);
    }
  }

  /** What ends the run before any frame: EOT, a double CAN, or the last of the attempts. */
  lemma EndsUnframedIff(s: State, destsz: int, m: seq<byte>, q: nat)
    requires Ready(s) && (m != [] ==> q > 0)
    ensures var t, sight := Settle(s, destsz, Noise(m, q)), Sight(s, m, q);
            && (t.Halt? && t.log == [] && t.ret >= 0 <==> sight.Finish?)
            && (t.Halt? && t.log == [] && t.ret == ERROR_CANCEL <==> sight.Cancel?)
            && (t.Halt? && t.log == [] && t.ret == ERROR_SYNC <==> sight.GivesUp?)
            && (sight.Finish? ==> t.ret == s.len && Acks(t))
            && (sight.Quiet? ==> t.Continue?)
            && (sight.Frame? <==> t.log != [])
  {
    ScanTells(s, destsz, m, q);
    var sight := Sight(s, m, q);
    if sight.Frame? {
      FoundFirst(Weary(s, sight.left), destsz, sight.size, sight.rest, q);
    }
  }
}
