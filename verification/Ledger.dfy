/** The history of a run read as a protocol: which frames are new, how many repeats in a row, what was delivered. */
module Ledger {
  import opened Crc
  import opened Sequences
  import opened Wire
  import opened Receiver

  /** The number of blocks accepted. */
  function Count(log: seq<Entry>): nat {
    if log == [] then 0
    else Count(log[..|log| - 1]) + if log[|log| - 1].verdict.New? then 1 else 0
  }

  /** The number of acknowledged repeats since the last new block, or since the start. */
  function Streak(log: seq<Entry>): nat {
    if log == [] then 0
    else
      match log[|log| - 1].verdict
      case New => 0
      case Rejected => Streak(log[..|log| - 1])
      case _ => Streak(log[..|log| - 1]) + 1
  }

  /** The payloads of the accepted blocks, in order. */
  function Accepted(log: seq<Entry>): seq<seq<byte>> {
    if log == [] then []
    else Accepted(log[..|log| - 1]) + if log[|log| - 1].verdict.New? then [Payload(log[|log| - 1])] else []
  }

  function Concat(blocks: seq<seq<byte>>): seq<byte> {
    if blocks == [] then [] else Concat(blocks[..|blocks| - 1]) + blocks[|blocks| - 1]
  }

  /** As much of `data` as a destination of `destsz` bytes takes. */
  function Truncated(data: seq<byte>, destsz: int): (r: seq<byte>)
    ensures r <= data
  {
    if destsz <= 0 then [] else if destsz < |data| then data[..destsz] else data
  }

  /** The bytes handed to the callback. */
  function Delivered(log: seq<Entry>, destsz: int): seq<byte> {
    Truncated(Concat(Accepted(log)), destsz)
  }

  /** What the protocol says about a frame after history `log`, in terms of unbounded block counts. */
  function Ruling(log: seq<Entry>, isCrc: bool, size: nat, body: seq<byte>): Verdict {
    var n := Count(log);
    if !WellFormed(isCrc, size, body) then Rejected
    else if body[0] == (n + 1) % 256 then New
    else if body[0] == n % 256 && n % 256 != 255 then
      if Streak(log) == MAX_RETRANS - 1 then Exhausted else Duplicate
    else Rejected
  }

  /** Every entry got the verdict the entries before it call for. */
  ghost predicate RightVerdicts(log: seq<Entry>) {
    forall k :: 0 <= k < |log| ==> RightVerdict(log, k)
  }

  ghost predicate RightVerdict(log: seq<Entry>, k: nat)
    requires k < |log|
  {
    var e := log[k];
    e.verdict == Ruling(log[..k], e.isCrc, e.size, e.body)
  }

  /** The variables of the receiver are what the history says they are. */
  ghost predicate Agrees(s: State, log: seq<Entry>, destsz: int) {
    && RightVerdicts(log)
    && Uniform(log, s.useCrc)
    && s.packetno == (Count(log) + 1) % 256
    && s.retrans == MAX_RETRANS - Streak(log)
    && Streak(log) < MAX_RETRANS
    && s.len == |Delivered(log, destsz)|
    && s.retry < MAX_BYTE_RETRIES
    && (log == [] ==> !s.useCrc && (s.trychar == SOLICIT_CRC || s.trychar == NAK))
    && (log != [] ==> s.trychar == 0)
  }

  /** Every frame was read in the same mode, and none ended the run. */
  ghost predicate Uniform(log: seq<Entry>, isCrc: bool) {
    forall k :: 0 <= k < |log| ==> log[k].isCrc == isCrc && !log[k].verdict.Exhausted?
  }

  lemma Snoc(log: seq<Entry>, e: Entry)
    ensures Count(log + [e]) == Count(log) + if e.verdict.New? then 1 else 0
    ensures Accepted(log + [e]) == Accepted(log) + if e.verdict.New? then [Payload(e)] else []
    ensures Streak(log + [e]) == match e.verdict
                                 case New => 0
                                 case Rejected => Streak(log)
                                 case _ => Streak(log) + 1
  {
    assert (log + [e])[..|log|] == log;
  }

  lemma {:induction false} LogConcat(a: seq<Entry>, b: seq<Entry>)
    ensures Count(a + b) == Count(a) + Count(b)
    ensures Accepted(a + b) == Accepted(a) + Accepted(b)
  {
    if b == [] {
      Empties(a);
      Empties(Accepted(a));
    } else {
      var n := |b| - 1;
      LogConcat(a, b[..n]);
      assert (a + b)[..|a| + n] == a + b[..n];
      Associates(Accepted(a), Accepted(b[..n]), if b[n].verdict.New? then [Payload(b[n])] else []);
    }
  }

  lemma ConcatSnoc(blocks: seq<seq<byte>>, b: seq<byte>)
    ensures Concat(blocks + [b]) == Concat(blocks) + b
  {
    assert (blocks + [b])[..|blocks|] == blocks;
  }

  /** The slice the callback gets continues the truncated stream. */
  lemma SliceContinues(data: seq<byte>, payload: seq<byte>, destsz: int)
    ensures Truncated(data + payload, destsz)
         == Truncated(data, destsz) + Slice(destsz, |Truncated(data, destsz)|, payload)
  {
  }

  lemma RightVerdictsSnoc(log: seq<Entry>, e: Entry)
    requires RightVerdicts(log)
    requires e.verdict == Ruling(log, e.isCrc, e.size, e.body)
    ensures RightVerdicts(log + [e])
  {
    var all := log + [e];
    forall k | 0 <= k < |all| ensures RightVerdict(all, k) {
      if k < |log| {
        assert RightVerdict(log, k);
        assert all[..k] == log[..k];
      } else {
        assert all[..k] == log;
      }
    }
  }

  lemma StartAgrees(destsz: int)
    ensures Agrees(START, [], destsz)
  {
  }

  /** `packet_check` on an 8-bit number rules as the protocol does on the unbounded count. */
  lemma JudgeRules(s: State, log: seq<Entry>, destsz: int, size: nat, body: seq<byte>)
    requires Agrees(s, log, destsz)
    ensures Judge(s, size, body) == Ruling(log, Mode(s), size, body)
  {
  }

  /**
   * A repeat of the block accepted last is acknowledged, or counted against the budget, exactly when its number is not
   * 255: the number expected next is then 0, and 0 - 1 is not a byte.
   */
  lemma RepeatAnsweredIff(s: State, log: seq<Entry>, destsz: int, size: nat, body: seq<byte>)
    requires Agrees(s, log, destsz) && WellFormed(Mode(s), size, body) && body[0] == Count(log) % 256
    ensures Judge(s, size, body).Duplicate? || Judge(s, size, body).Exhausted? <==> body[0] != 255
    ensures body[0] == 255 ==> Judge(s, size, body).Rejected?
  {
    JudgeRules(s, log, destsz, size, body);
  }

  lemma UpdateDelivers(s: State, log: seq<Entry>, destsz: int, e: Entry)
    requires s.len == |Delivered(log, destsz)|
    ensures Update(s, destsz, e).len == |Delivered(log + [e], destsz)|
    ensures e.verdict.New? ==> Delivered(log + [e], destsz) == Delivered(log, destsz) + Slice(destsz, s.len, Payload(e))
    ensures !e.verdict.New? ==> Delivered(log + [e], destsz) == Delivered(log, destsz)
  {
    Snoc(log, e);
    if e.verdict.New? {
      ConcatSnoc(Accepted(log), Payload(e));
      SliceContinues(Concat(Accepted(log)), Payload(e), destsz);
    } else {
      assert Accepted(log + [e]) == Accepted(log);
    }
  }

  lemma UpdateCounts(s: State, log: seq<Entry>, destsz: int, e: Entry)
    requires s.packetno == (Count(log) + 1) % 256 && s.retrans == MAX_RETRANS - Streak(log)
    ensures var next := Update(s, destsz, e);
            && next.packetno == (Count(log + [e]) + 1) % 256
            && next.retrans == MAX_RETRANS - Streak(log + [e])
  {
    Snoc(log, e);
  }

  lemma UniformSnoc(log: seq<Entry>, e: Entry)
    requires Uniform(log, e.isCrc) && !e.verdict.Exhausted?
    ensures Uniform(log + [e], e.isCrc)
  {
  }

  /** A frame of any kind leaves the variables in agreement with the longer history. */
  lemma HeardAgrees(s: State, log: seq<Entry>, destsz: int, size: nat, body: seq<byte>)
    requires Agrees(s, log, destsz)
    ensures var e := Judged(s, size, body);
            && RightVerdicts(log + [e])
            && Update(s, destsz, e).len == |Delivered(log + [e], destsz)|
            && (!e.verdict.Exhausted? ==> Agrees(Update(s, destsz, e), log + [e], destsz))
  {
    var e := Judged(s, size, body);
    JudgeRules(s, log, destsz, size, body);
    RightVerdictsSnoc(log, e);
    UpdateDelivers(s, log, destsz, e);
    UpdateCounts(s, log, destsz, e);
    if !e.verdict.Exhausted? {
      Snoc(log, e);
      UniformSnoc(log, e);
    }
  }

  /** One turn from an agreeing state leads to an agreeing state, unless it ends the run. */
  lemma TurnAgrees(s: State, log: seq<Entry>, destsz: int, input: seq<Item>)
    requires Agrees(s, log, destsz)
    ensures var t := Turn(s, destsz, input);
            && RightVerdicts(log + t.log)
            && t.next.len == |Delivered(log + t.log, destsz)|
            && (t.Continue? ==> Agrees(t.next, log + t.log, destsz))
  {
    hide Judge, RightVerdicts, Uniform, Delivered, Update, Taken, Untaken, Flushed;
    var (first, rest) := ReadFirst(input);
    if first.Header? {
      HeardAgrees(s, log, destsz, first.size, Taken(rest, BodySize(Mode(s), first.size)));
    } else {
      assert log + [] == log;
    }
  }
}
