/** The receiver composed with a sender over a faulty line, in synchronous rounds. */
module StopAndWait {
  import opened Crc
  import opened Sequences
  import opened Wire
  import opened Receiver
  import opened Ledger
  import opened Runs
  import opened Sender
  import opened Faults
  import opened Damage
  import opened Strays

  /** The sender stands at block `i`; the receiver has variables `s`, history `log`, and has sent `sent`. */
  datatype World = World(i: nat, s: State, log: seq<Entry>, sent: seq<byte>, ended: Option<int>)

  /** In one round the line hands `chunk` to the receiver; the sender hears the ACK it causes, if any, or not. */
  datatype Round = Round(chunk: seq<Item>, heard: bool)

  function BlockNumber(i: nat): byte {
    (i + 1) % 256
  }

  /** What the sender puts on the line: its current block in the mode solicited, or EOT after the last block. */
  function Transmission(w: World, blocks: seq<seq<byte>>): seq<Item> {
    if w.i < |blocks| then FrameItems(Mode(w.s), BlockNumber(w.i), blocks[w.i]) else [Byte(EOT)]
  }

  /** The transmission arrives unharmed, the line being quiet after it for a while or not. */
  predicate Intact(w: World, blocks: seq<seq<byte>>, chunk: seq<Item>) {
    chunk == Transmission(w, blocks) || chunk == Transmission(w, blocks) + [Timeout]
  }

  /** `next` are the blocks of the source that come after the first `n`. */
  predicate Continues(blocks: seq<seq<byte>>, n: nat, next: seq<seq<byte>>) {
    n + |next| <= |blocks| && next == blocks[n..n + |next|]
  }

  /**
   * The bytes `m` followed by silence are no more than the protocol copes with: the frames accepted from among them
   * are blocks that the source has next; if the run goes on and a frame was acknowledged, it is the sender's block that
   * is there now; and an EOT is reached only when all blocks are there. See `WelcomeIff`.
   */
  ghost predicate Welcome(w: World, blocks: seq<seq<byte>>, destsz: int, m: seq<byte>, q: nat)
    requires w.s.retry < MAX_BYTE_RETRIES && q > 0
  {
    var n, frames := Count(w.log), Frames(w.s, destsz, m, q);
    && Continues(blocks, n, Accepted(frames))
    && (EndsBy(w.s, destsz, m, q) ==> n + Count(frames) == |blocks|)
    && (Settle(w.s, destsz, Noise(m, q)).Continue? && Accepts(frames) && w.i < |blocks| ==>
          n + Count(frames) == w.i + 1)
  }

  /**
   * What a faulty line may do: the receiver gets any bytes at all, with or without the transmission among them, and
   * then silence. What was lost, altered or added does not matter, as long as it is welcome.
   */
  ghost predicate Faulted(w: World, blocks: seq<seq<byte>>, destsz: int, chunk: seq<Item>) {
    exists m: seq<byte>, q: nat :: IsFault(w, blocks, destsz, chunk, m, q)
  }

  ghost predicate IsFault(w: World, blocks: seq<seq<byte>>, destsz: int, chunk: seq<Item>, m: seq<byte>, q: nat) {
    && w.s.retry < MAX_BYTE_RETRIES && q > 0 && chunk == Noise(m, q)
    && Welcome(w, blocks, destsz, m, q) && Hushed(w.s, destsz, m, q)
  }

  /** The chunk decides its turns, whatever follows it on the line. */
  ghost predicate Whole(s: State, destsz: int, chunk: seq<Item>) {
    forall more: seq<Item> :: Decides(s, destsz, chunk, more)
  }

  /** A round the line can bring about: the transmission arrives intact, or there is a fault. */
  ghost predicate Possible(w: World, blocks: seq<seq<byte>>, destsz: int, r: Round) {
    && w.ended.None?
    && ((Intact(w, blocks, r.chunk) && Whole(w.s, destsz, r.chunk)) || Faulted(w, blocks, destsz, r.chunk))
  }

  /** One round. The sender goes on to the next block exactly when it hears an ACK. */
  function After(w: World, blocks: seq<seq<byte>>, destsz: int, r: Round): World {
    var t := Settle(w.s, destsz, r.chunk);
    var i := if r.heard && Acks(t) && w.i < |blocks| then w.i + 1 else w.i;
    World(i, t.next, w.log + t.log, w.sent + t.sent, if t.Halt? then Some(t.ret) else None)
  }

  const START_WORLD: World := World(0, START, [], [], None)

  /** The world after `rounds`, from `w` on. */
  function Play(w: World, blocks: seq<seq<byte>>, destsz: int, rounds: seq<Round>): World {
    if rounds == [] then w
    else After(Play(w, blocks, destsz, rounds[..|rounds| - 1]), blocks, destsz, rounds[|rounds| - 1])
  }

  ghost predicate AllPossible(w: World, blocks: seq<seq<byte>>, destsz: int, rounds: seq<Round>) {
    rounds != [] ==>
      && AllPossible(w, blocks, destsz, rounds[..|rounds| - 1])
      && Possible(Play(w, blocks, destsz, rounds[..|rounds| - 1]), blocks, destsz, rounds[|rounds| - 1])
  }

  lemma PlayOne(w: World, blocks: seq<seq<byte>>, destsz: int, rounds: seq<Round>, r: Round)
    ensures Play(w, blocks, destsz, rounds + [r]) == After(Play(w, blocks, destsz, rounds), blocks, destsz, r)
    ensures (AllPossible(w, blocks, destsz, rounds) && Possible(Play(w, blocks, destsz, rounds), blocks, destsz, r))
              ==> AllPossible(w, blocks, destsz, rounds + [r])
  {
    assert (rounds + [r])[..|rounds|] == rounds;
  }

  ghost predicate Blocks(blocks: seq<seq<byte>>) {
    forall k :: 0 <= k < |blocks| ==> Block(blocks[k])
  }

  // ----- The invariant -----

  /** The sender is at the block the receiver expects, or one behind because an ACK was lost. */
  ghost predicate InSync(w: World, blocks: seq<seq<byte>>, destsz: int) {
    var n := Count(w.log);
    && n <= |blocks| && (w.ended.None? ==> n == w.i || n == w.i + 1)
    && Accepted(w.log) == blocks[..n]
    && w.s.len == |Delivered(w.log, destsz)|
    && (w.ended.None? ==> Agrees(w.s, w.log, destsz))
    && (w.ended.Some? && w.ended.value >= 0 ==> n == |blocks| && w.ended.value == w.s.len)
  }

  /** What the receiver makes of an intact block. */
  function Reception(w: World): Verdict {
    if Count(w.log) == w.i then New
    else if w.s.packetno == 0 then Rejected
    else if w.s.retrans == 1 then Exhausted
    else Duplicate
  }

  function CurrentBody(w: World, blocks: seq<seq<byte>>): seq<byte>
    requires w.i < |blocks|
  {
    Body(Mode(w.s), BlockNumber(w.i), blocks[w.i])
  }

  /** The judgement on an intact block depends on the counters only. */
  lemma IntactVerdict(w: World, blocks: seq<seq<byte>>, destsz: int)
    requires InSync(w, blocks, destsz) && w.ended.None? && w.i < |blocks|
    ensures Judge(w.s, |blocks[w.i]|, CurrentBody(w, blocks)) == Reception(w)
  {
    NumberDecides(w.s, BlockNumber(w.i), blocks[w.i]);
    NumberGap(w.i, Count(w.log));
  }

  lemma NumberGap(i: nat, n: nat)
    requires n == i || n == i + 1
    ensures BlockNumber(i) == BlockNumber(n) <==> n == i
    ensures n == i + 1 ==> (BlockNumber(i) == BlockNumber(n) - 1 <==> BlockNumber(n) != 0)
  {
  }

  lemma IntactFrame(w: World, blocks: seq<seq<byte>>, destsz: int, more: seq<Item>)
    requires Blocks(blocks) && InSync(w, blocks, destsz) && w.ended.None? && w.i < |blocks|
    ensures var t := Turn(w.s, destsz, Transmission(w, blocks) + more);
            var e := Entry(Mode(w.s), |blocks[w.i]|, CurrentBody(w, blocks), Reception(w));
            && t.log == [e] && Payload(e) == blocks[w.i]
            && t.next == Update(w.s, destsz, e)
            && t.sent == Solicitation(w.s) + Reply(Reception(w))
            && (t.Halt? <==> Reception(w).Exhausted?) && (t.Halt? ==> t.ret == ERROR_RETRANS_LIMIT)
            && t.rest == if Reception(w).Rejected? || Reception(w).Exhausted? then Flushed(more) else more
  {
    assert Block(blocks[w.i]);
    IntactVerdict(w, blocks, destsz);
    TurnReadsFrame(w.s, destsz, blocks[w.i], CurrentBody(w, blocks), more);
    BodyCarries(Mode(w.s), BlockNumber(w.i), blocks[w.i], Reception(w));
  }

  lemma IntactIs(w: World, blocks: seq<seq<byte>>, chunk: seq<Item>) returns (tail: seq<Item>)
    requires Intact(w, blocks, chunk)
    ensures chunk == Transmission(w, blocks) + tail && (tail == [] || tail == [Timeout])
  {
    tail := if chunk == Transmission(w, blocks) then [] else [Timeout];
  }

  lemma PauseSettles(s: State, destsz: int, tail: seq<Item>)
    requires s.trychar == 0 && s.retry == 0 && (tail == [] || tail == [Timeout])
    ensures Settle(s, destsz, tail) == Continue(s.(retry := |tail|), [], [], [])
  {
    if tail == [Timeout] {
      SettleTurn(s, destsz, tail);
      assert Settle(s.(retry := 1), destsz, []) == Continue(s.(retry := 1), [], [], []);
    }
  }

  /** All that an intact block does to the receiver. */
  lemma IntactSettles(w: World, blocks: seq<seq<byte>>, destsz: int, chunk: seq<Item>)
    requires Blocks(blocks) && InSync(w, blocks, destsz) && w.ended.None? && w.i < |blocks| && Intact(w, blocks, chunk)
    ensures var t := Settle(w.s, destsz, chunk);
            var e := Entry(Mode(w.s), |blocks[w.i]|, CurrentBody(w, blocks), Reception(w));
            && t.log == [e] && Payload(e) == blocks[w.i]
            && t.next == Update(w.s, destsz, e).(retry := t.next.retry)
            && (chunk == Transmission(w, blocks) ==> t.next.retry == 0)
            && t.sent == Solicitation(w.s) + Reply(Reception(w))
            && (t.Halt? <==> Reception(w).Exhausted?) && (t.Halt? ==> t.ret == ERROR_RETRANS_LIMIT)
  {
    var tail := IntactIs(w, blocks, chunk);
    IntactFrame(w, blocks, destsz, tail);
    SettleTurn(w.s, destsz, chunk);
    var t := Turn(w.s, destsz, chunk);
    if t.Continue? {
      FlushedTail(tail);
      PauseSettles(t.next, destsz, t.rest);
      Empties(t.sent);
      Empties(t.log);
    }
  }

  lemma FlushedTail(tail: seq<Item>)
    requires tail == [] || tail == [Timeout]
    ensures Flushed(tail) == []
  {
  }

  lemma CountPrefix(blocks: seq<seq<byte>>, n: nat)
    requires n < |blocks|
    ensures blocks[..n] + [blocks[n]] == blocks[..n + 1]
  {
  }

  lemma LogsAdd(a: seq<seq<byte>>, blocks: seq<seq<byte>>, n: nat, next: seq<seq<byte>>)
    requires n <= |blocks| && a == blocks[..n]
    ensures Continues(blocks, n, next) <==> n + |next| <= |blocks| && a + next == blocks[..n + |next|]
  {
    if n + |next| <= |blocks| {
      Slices(blocks, 0, n, n + |next|);
      if a + next == blocks[..n + |next|] {
        TakesBack(a, next);
        TakesBack(blocks[..n], blocks[n..n + |next|]);
      }
    }
  }

  /** What a round of any bytes does to the history, and where it leaves the sender. */
  lemma NoiseCounts(w: World, blocks: seq<seq<byte>>, destsz: int, m: seq<byte>, q: nat, heard: bool)
    requires InSync(w, blocks, destsz) && w.ended.None? && q > 0
    ensures var w', frames := After(w, blocks, destsz, Round(Noise(m, q), heard)), Frames(w.s, destsz, m, q);
            && w'.log == w.log + frames
            && Count(w'.log) == Count(w.log) + Count(frames)
            && Accepted(w'.log) == Accepted(w.log) + Accepted(frames)
            && |Accepted(frames)| == Count(frames)
            && (Accepts(frames) || Count(frames) == 0)
            && w'.s.len == |Delivered(w'.log, destsz)|
            && (w'.ended.None? ==>
                  && Agrees(w'.s, w'.log, destsz)
                  && w'.i == w.i + if heard && Accepts(frames) && w.i < |blocks| then 1 else 0)
            && (w'.ended.Some? && w'.ended.value >= 0 <==> EndsBy(w.s, destsz, m, q))
            && (EndsBy(w.s, destsz, m, q) ==> w'.ended.value == w'.s.len)
  {
    hide Frames, EndsBy, Settle, Delivered, RightVerdicts, Uniform;
    var frames := Frames(w.s, destsz, m, q);
    ChunkAccounts(w.s, destsz, m, q);
    SettleAgrees(w.s, w.log, destsz, Noise(m, q));
    LogConcat(w.log, frames);
    AcceptedCounts(frames);
    NewIsAnswered(frames);
  }

  lemma {:induction false} NewIsAnswered(log: seq<Entry>)
    ensures Accepts(log) || Count(log) == 0
  {
    if log != [] {
      var n := |log| - 1;
      NewIsAnswered(log[..n]);
      if Accepts(log[..n]) {
        var k :| 0 <= k < n && Answered(log[..n][k]);
        assert Answered(log[k]);
      } else if log[n].verdict.New? {
        assert Answered(log[n]);
      }
    }
  }

  /**
   * Exactly the welcome bytes keep sender and receiver in step, whether the sender hears an ACK that they cause or not.
   * All that the faults of a line leave out is therefore what the code is not safe from.
   */
  lemma WelcomeIff(w: World, blocks: seq<seq<byte>>, destsz: int, m: seq<byte>, q: nat)
    requires InSync(w, blocks, destsz) && w.ended.None? && q > 0
    ensures Welcome(w, blocks, destsz, m, q) <==>
            && InSync(After(w, blocks, destsz, Round(Noise(m, q), true)), blocks, destsz)
            && InSync(After(w, blocks, destsz, Round(Noise(m, q), false)), blocks, destsz)
  {
    hide Frames, EndsBy, Settle, Delivered, RightVerdicts, Uniform, Accepts, Continues;
    var n, frames := Count(w.log), Frames(w.s, destsz, m, q);
    NoiseCounts(w, blocks, destsz, m, q, true);
    NoiseCounts(w, blocks, destsz, m, q, false);
    AcceptedCounts(w.log);
    LogsAdd(Accepted(w.log), blocks, n, Accepted(frames));
  }

  lemma FaultKeepsSync(w: World, blocks: seq<seq<byte>>, destsz: int, r: Round)
    requires InSync(w, blocks, destsz) && w.ended.None? && Faulted(w, blocks, destsz, r.chunk)
    ensures InSync(After(w, blocks, destsz, r), blocks, destsz)
  {
    var m, q :| IsFault(w, blocks, destsz, r.chunk, m, q);
    WelcomeIff(w, blocks, destsz, m, q);
    assert r == Round(Noise(m, q), r.heard);
  }

  /** What an intact round does to the counters. */
  lemma IntactCounts(w: World, blocks: seq<seq<byte>>, destsz: int, r: Round)
    requires Blocks(blocks) && InSync(w, blocks, destsz) && w.ended.None? && w.i < |blocks|
    requires Intact(w, blocks, r.chunk)
    ensures var w' := After(w, blocks, destsz, r);
            && Count(w'.log) == Count(w.log) + (if Reception(w).New? then 1 else 0)
            && Accepted(w'.log) == Accepted(w.log) + (if Reception(w).New? then [blocks[w.i]] else [])
            && w'.i == w.i + (if r.heard && (Reception(w).New? || Reception(w).Duplicate?) then 1 else 0)
            && w'.ended == (if Reception(w).Exhausted? then Some(ERROR_RETRANS_LIMIT) else None)
  {
    var t := Settle(w.s, destsz, r.chunk);
    IntactSettles(w, blocks, destsz, r.chunk);
    Snoc(w.log, t.log[0]);
    LastSent(Solicitation(w.s), Reception(w));
  }

  lemma LastSent(a: seq<byte>, v: Verdict)
    requires ACK !in a
    ensures ACK in a + Reply(v) <==> v.New? || v.Duplicate?
  {
  }

  lemma IntactKeepsSync(w: World, blocks: seq<seq<byte>>, destsz: int, r: Round)
    requires Blocks(blocks) && InSync(w, blocks, destsz) && w.ended.None? && w.i < |blocks|
    requires Intact(w, blocks, r.chunk)
    ensures InSync(After(w, blocks, destsz, r), blocks, destsz)
  {
    IntactCounts(w, blocks, destsz, r);
    SettleAgrees(w.s, w.log, destsz, r.chunk);
    if Count(w.log) == w.i {
      CountPrefix(blocks, w.i);
    }
  }

  lemma EndKeepsSync(w: World, blocks: seq<seq<byte>>, destsz: int, r: Round)
    requires InSync(w, blocks, destsz) && w.ended.None? && w.i >= |blocks|
    requires Intact(w, blocks, r.chunk)
    ensures InSync(After(w, blocks, destsz, r), blocks, destsz)
    ensures After(w, blocks, destsz, r).ended == Some(w.s.len)
    ensures After(w, blocks, destsz, r).log == w.log
    ensures After(w, blocks, destsz, r).sent == w.sent + (Solicitation(w.s) + [ACK])
  {
    Empties(w.log);
    SettleTurn(w.s, destsz, r.chunk);
    assert r.chunk[0] == Byte(EOT);
  }

  lemma RoundKeepsSync(w: World, blocks: seq<seq<byte>>, destsz: int, r: Round)
    requires Blocks(blocks) && InSync(w, blocks, destsz) && Possible(w, blocks, destsz, r)
    ensures InSync(After(w, blocks, destsz, r), blocks, destsz)
  {
    if Faulted(w, blocks, destsz, r.chunk) {
      FaultKeepsSync(w, blocks, destsz, r);
    } else if w.i < |blocks| {
      IntactKeepsSync(w, blocks, destsz, r);
    } else {
      EndKeepsSync(w, blocks, destsz, r);
    }
  }

  /** The invariant holds in every reachable world. */
  lemma {:induction false} AlwaysInSync(w: World, blocks: seq<seq<byte>>, destsz: int, rounds: seq<Round>)
    requires Blocks(blocks) && InSync(w, blocks, destsz) && AllPossible(w, blocks, destsz, rounds)
    ensures InSync(Play(w, blocks, destsz, rounds), blocks, destsz)
  {
    if rounds != [] {
      var n := |rounds| - 1;
      AlwaysInSync(w, blocks, destsz, rounds[..n]);
      RoundKeepsSync(Play(w, blocks, destsz, rounds[..n]), blocks, destsz, rounds[n]);
    }
  }

  lemma StartInSync(blocks: seq<seq<byte>>, destsz: int)
    ensures InSync(START_WORLD, blocks, destsz)
  {
    StartAgrees(destsz);
  }

  // ----- Safety -----

  lemma {:induction false} ConcatPrefix(blocks: seq<seq<byte>>, n: nat)
    requires n <= |blocks|
    ensures Concat(blocks[..n]) <= Concat(blocks)
  {
    if n == |blocks| {
      assert blocks[..n] == blocks;
    } else {
      var k := |blocks| - 1;
      ConcatPrefix(blocks[..k], n);
      assert blocks[..k][..n] == blocks[..n];
    }
  }

  lemma TruncatedPrefix(a: seq<byte>, b: seq<byte>, destsz: int)
    requires a <= b
    ensures Truncated(a, destsz) <= Truncated(b, destsz)
  {
  }

  /**
   * Safety: over a line that loses, alters and adds bytes as long as nothing is exposed, and that loses answers, the
   * bytes handed on are always a prefix of the source cut to the destination,
   * with no gap, repeat or change of order although numbers are only modulo 256; and if the transfer ends
   * normally they are all of it, and their count is what it returns.
   */
  lemma Safety(blocks: seq<seq<byte>>, destsz: int, rounds: seq<Round>)
    requires Blocks(blocks) && AllPossible(START_WORLD, blocks, destsz, rounds)
    ensures var w := Play(START_WORLD, blocks, destsz, rounds);
            && Delivered(w.log, destsz) <= Truncated(Concat(blocks), destsz)
            && (w.ended.Some? && w.ended.value >= 0 ==>
                  && Delivered(w.log, destsz) == Truncated(Concat(blocks), destsz)
                  && w.ended.value == |Truncated(Concat(blocks), destsz)|)
  {
    var w := Play(START_WORLD, blocks, destsz, rounds);
    StartInSync(blocks, destsz);
    AlwaysInSync(START_WORLD, blocks, destsz, rounds);
    ConcatPrefix(blocks, Count(w.log));
    TruncatedPrefix(Concat(blocks[..Count(w.log)]), Concat(blocks), destsz);
    assert blocks[..|blocks|] == blocks;
  }

  // ----- The rounds are one run of the real receiver -----

  function Stream(rounds: seq<Round>): seq<Item> {
    if rounds == [] then [] else Stream(rounds[..|rounds| - 1]) + rounds[|rounds| - 1].chunk
  }

  /** While the rounds go on, `Session` on everything the line has brought is where the rounds are. */
  lemma {:induction false} RoundsAreSession(blocks: seq<seq<byte>>, destsz: int, rounds: seq<Round>, more: seq<Item>)
    requires AllPossible(START_WORLD, blocks, destsz, rounds)
    requires Play(START_WORLD, blocks, destsz, rounds).ended.None?
    ensures var w := Play(START_WORLD, blocks, destsz, rounds);
            Session(START, destsz, Stream(rounds) + more) == Prefixed(w.sent, w.log, Session(w.s, destsz, more))
  {
    if rounds == [] {
      assert [] + more == more;
      PrefixedByNothing(Session(START, destsz, more));
    } else {
      var n := |rounds| - 1;
      var w, r := Play(START_WORLD, blocks, destsz, rounds[..n]), rounds[n];
      RoundsAreSession(blocks, destsz, rounds[..n], r.chunk + more);
      StreamEnd(rounds, more);
      RoundDecides(w, blocks, destsz, r, more);
      var t := Settle(w.s, destsz, r.chunk);
      PrefixedTwice(w.sent, t.sent, w.log, t.log, Session(t.next, destsz, more));
    }
  }

  /** Every possible round decides its turns. */
  lemma RoundDecides(w: World, blocks: seq<seq<byte>>, destsz: int, r: Round, more: seq<Item>)
    requires Possible(w, blocks, destsz, r)
    ensures Decides(w.s, destsz, r.chunk, more)
  {
    if Faulted(w, blocks, destsz, r.chunk) {
      var m, q :| IsFault(w, blocks, destsz, r.chunk, m, q);
      NoiseDecides(w.s, destsz, m, q, more);
    }
  }

  lemma StreamEnd(rounds: seq<Round>, more: seq<Item>)
    requires rounds != []
    ensures var n := |rounds| - 1; Stream(rounds) + more == Stream(rounds[..n]) + (rounds[n].chunk + more)
  {
    Associates(Stream(rounds[..|rounds| - 1]), rounds[|rounds| - 1].chunk, more);
  }

  /** When the rounds have ended, so has the run, with the same result, history and replies. */
  lemma EndedIsSession(blocks: seq<seq<byte>>, destsz: int, rounds: seq<Round>, more: seq<Item>)
    requires AllPossible(START_WORLD, blocks, destsz, rounds)
    requires Play(START_WORLD, blocks, destsz, rounds).ended.Some?
    ensures var w := Play(START_WORLD, blocks, destsz, rounds);
            var o := Session(START, destsz, Stream(rounds) + more);
            o.ret == w.ended.value && o.log == w.log && o.sent == w.sent && o.final == w.s
  {
    var n := |rounds| - 1;
    var w, r := Play(START_WORLD, blocks, destsz, rounds[..n]), rounds[n];
    RoundsAreSession(blocks, destsz, rounds[..n], r.chunk + more);
    StreamEnd(rounds, more);
    RoundDecides(w, blocks, destsz, r, more);
  }

  /**
   * Safety of the real receiver: on the input stream of any possible rounds that end the transfer, whatever follows,
   * the run delivers a prefix of the source, and on a normal end all of it that fits.
   */
  lemma RunIsSafe(blocks: seq<seq<byte>>, destsz: int, rounds: seq<Round>, more: seq<Item>)
    requires Blocks(blocks) && AllPossible(START_WORLD, blocks, destsz, rounds)
    requires Play(START_WORLD, blocks, destsz, rounds).ended.Some?
    ensures var o := Session(START, destsz, Stream(rounds) + more);
            && Delivered(o.log, destsz) <= Truncated(Concat(blocks), destsz)
            && (o.ret >= 0 ==> Delivered(o.log, destsz) == Truncated(Concat(blocks), destsz)
                               && o.ret == |Truncated(Concat(blocks), destsz)|)
  {
    Safety(blocks, destsz, rounds);
    EndedIsSession(blocks, destsz, rounds, more);
  }

  // ----- Progress -----

  /** The receiver has the sender's block already, and expects number 0, which has no predecessor. */
  ghost predicate Stuck(w: World) {
    Count(w.log) == w.i + 1 && w.s.packetno == 0
  }

  /** The receiver has acknowledged the sender's block 24 times over. */
  ghost predicate OverBudget(w: World) {
    Count(w.log) == w.i + 1 && w.s.packetno != 0 && Streak(w.log) == MAX_RETRANS - 1
  }

  /**
   * Progress: a round without loss moves the sender one block on, except that it ends the transfer when the budget
   * of repeats is used up, and does nothing when the pair is stuck.
   */
  lemma RoundProgress(w: World, blocks: seq<seq<byte>>, destsz: int, r: Round)
    requires Blocks(blocks) && InSync(w, blocks, destsz) && w.ended.None? && w.i < |blocks|
    requires Intact(w, blocks, r.chunk) && r.heard
    ensures var w' := After(w, blocks, destsz, r);
            && (w'.i == w.i + 1 && w'.ended.None? <==> !Stuck(w) && !OverBudget(w))
            && (OverBudget(w) ==> w'.i == w.i && w'.ended == Some(ERROR_RETRANS_LIMIT))
            && (Stuck(w) ==> w'.i == w.i && w'.ended.None? && Stuck(w'))
  {
    IntactCounts(w, blocks, destsz, r);
    RoundKeepsCounters(w, blocks, destsz, r);
  }

  /** The transmission gets through, by itself or among other bytes: a frame is acknowledged. */
  ghost predicate Arrives(w: World, blocks: seq<seq<byte>>, destsz: int, chunk: seq<Item>) {
    Intact(w, blocks, chunk) || exists m: seq<byte>, q: nat :: Brings(w.s, destsz, chunk, m, q)
  }

  ghost predicate Brings(s: State, destsz: int, chunk: seq<Item>, m: seq<byte>, q: nat) {
    s.retry < MAX_BYTE_RETRIES && q > 0 && chunk == Noise(m, q) && Accepts(Frames(s, destsz, m, q))
  }

  /** The rounds in which the transmission gets through and the answer is heard, as long as blocks remain. */
  ghost function Successes(blocks: seq<seq<byte>>, destsz: int, rounds: seq<Round>): nat {
    if rounds == [] then 0
    else
      var n := |rounds| - 1;
      var w := Play(START_WORLD, blocks, destsz, rounds[..n]);
      Successes(blocks, destsz, rounds[..n])
        + if Arrives(w, blocks, destsz, rounds[n].chunk) && rounds[n].heard && w.i < |blocks| then 1 else 0
  }

  /** After a fault the sender moves on exactly when a frame was acknowledged. */
  lemma FaultCounts(w: World, blocks: seq<seq<byte>>, destsz: int, r: Round)
    requires InSync(w, blocks, destsz) && w.ended.None? && Faulted(w, blocks, destsz, r.chunk)
    requires !Intact(w, blocks, r.chunk) && After(w, blocks, destsz, r).ended.None?
    ensures After(w, blocks, destsz, r).i
         == w.i + if Arrives(w, blocks, destsz, r.chunk) && r.heard && w.i < |blocks| then 1 else 0
  {
    hide Frames, EndsBy, Settle, Accepts;
    var m, q :| IsFault(w, blocks, destsz, r.chunk, m, q);
    assert r == Round(Noise(m, q), r.heard);
    NoiseCounts(w, blocks, destsz, m, q, r.heard);
    if Arrives(w, blocks, destsz, r.chunk) {
      var m', q' :| Brings(w.s, destsz, r.chunk, m', q');
      NoiseCounts(w, blocks, destsz, m', q', r.heard);
    } else {
      assert !Brings(w.s, destsz, r.chunk, m, q);
    }
  }

  /** One round of a transfer that afterwards still runs and is not stuck. */
  lemma RoundCounts(w: World, blocks: seq<seq<byte>>, destsz: int, r: Round)
    requires Blocks(blocks) && InSync(w, blocks, destsz) && Possible(w, blocks, destsz, r)
    ensures var w' := After(w, blocks, destsz, r);
            w'.ended.None? && !Stuck(w') ==>
              && !Stuck(w)
              && w'.i == w.i + if Arrives(w, blocks, destsz, r.chunk) && r.heard && w.i < |blocks| then 1 else 0
  {
    var w' := After(w, blocks, destsz, r);
    if w'.ended.None? && !Stuck(w') {
      if Stuck(w) {
        StuckRound(w, blocks, destsz, r);
      }
      if !Intact(w, blocks, r.chunk) {
        FaultCounts(w, blocks, destsz, r);
      } else if w.i >= |blocks| {
        EndKeepsSync(w, blocks, destsz, r);
      } else if r.heard {
        RoundProgress(w, blocks, destsz, r);
      } else {
        IntactCounts(w, blocks, destsz, r);
      }
    }
  }

  /** Progress over whole runs: as long as a transfer runs and is not stuck, every success moves the sender on. */
  lemma {:induction false} ProgressIsSuccesses(blocks: seq<seq<byte>>, destsz: int, rounds: seq<Round>)
    requires Blocks(blocks) && AllPossible(START_WORLD, blocks, destsz, rounds)
    ensures var w := Play(START_WORLD, blocks, destsz, rounds);
            w.ended.None? && !Stuck(w) ==> w.i == Successes(blocks, destsz, rounds)
  {
    if rounds != [] {
      var n := |rounds| - 1;
      StartInSync(blocks, destsz);
      AlwaysInSync(START_WORLD, blocks, destsz, rounds[..n]);
      RoundCounts(Play(START_WORLD, blocks, destsz, rounds[..n]), blocks, destsz, rounds[n]);
      ProgressIsSuccesses(blocks, destsz, rounds[..n]);
    }
  }

  /** After enough successes the next transmission to arrive ends a transfer that is not stuck, with all delivered. */
  lemma SuccessesComplete(blocks: seq<seq<byte>>, destsz: int, rounds: seq<Round>, last: Round)
    requires Blocks(blocks) && AllPossible(START_WORLD, blocks, destsz, rounds + [last])
    requires var w := Play(START_WORLD, blocks, destsz, rounds);
             w.ended.None? && !Stuck(w) && Intact(w, blocks, last.chunk)
    requires Successes(blocks, destsz, rounds) >= |blocks|
    ensures var w := Play(START_WORLD, blocks, destsz, rounds + [last]);
            && w.ended == Some(|Truncated(Concat(blocks), destsz)|)
            && Delivered(w.log, destsz) == Truncated(Concat(blocks), destsz)
  {
    TakesBack(rounds, [last]);
    ProgressIsSuccesses(blocks, destsz, rounds);
    StartInSync(blocks, destsz);
    AlwaysInSync(START_WORLD, blocks, destsz, rounds);
    EndKeepsSync(Play(START_WORLD, blocks, destsz, rounds), blocks, destsz, last);
    Safety(blocks, destsz, rounds + [last]);
  }

  lemma RoundKeepsCounters(w: World, blocks: seq<seq<byte>>, destsz: int, r: Round)
    requires Blocks(blocks) && InSync(w, blocks, destsz) && w.ended.None? && w.i < |blocks|
    requires Intact(w, blocks, r.chunk)
    ensures var w' := After(w, blocks, destsz, r);
            w'.ended.None? ==> w'.s.packetno == (Count(w'.log) + 1) % 256
  {
    IntactKeepsSync(w, blocks, destsz, r);
    if After(w, blocks, destsz, r).ended.None? {
      InSyncCounts(After(w, blocks, destsz, r), blocks, destsz);
    }
  }

  lemma InSyncCounts(w: World, blocks: seq<seq<byte>>, destsz: int)
    requires InSync(w, blocks, destsz) && w.ended.None?
    ensures w.s.packetno == (Count(w.log) + 1) % 256
  {
  }

  lemma StuckRound(w: World, blocks: seq<seq<byte>>, destsz: int, r: Round)
    requires Blocks(blocks) && InSync(w, blocks, destsz) && Stuck(w) && Possible(w, blocks, destsz, r)
    ensures var w' := After(w, blocks, destsz, r);
            && (w'.ended.None? ==> w'.i == w.i && Count(w'.log) == Count(w.log) && Stuck(w'))
            && (w'.ended.Some? && w'.ended.value >= 0 ==> !Intact(w, blocks, r.chunk) && Count(w'.log) == |blocks|)
  {
    hide After, Faulted, Transmission, Intact, Whole, Delivered, RightVerdicts, Uniform;
    if Intact(w, blocks, r.chunk) {
      IntactCounts(w, blocks, destsz, r);
      RoundKeepsCounters(w, blocks, destsz, r);
    } else {
      FaultKeepsSync(w, blocks, destsz, r);
      if After(w, blocks, destsz, r).ended.None? {
        StuckFault(w, blocks, destsz, r);
      }
    }
  }

  lemma StuckFault(w: World, blocks: seq<seq<byte>>, destsz: int, r: Round)
    requires InSync(w, blocks, destsz) && Stuck(w) && w.ended.None? && Faulted(w, blocks, destsz, r.chunk)
    requires After(w, blocks, destsz, r).ended.None?
    ensures var w' := After(w, blocks, destsz, r); w'.i == w.i && Count(w'.log) == Count(w.log) && Stuck(w')
  {
    hide Frames, EndsBy, Accepts, Delivered, RightVerdicts, Uniform;
    var m, q :| IsFault(w, blocks, destsz, r.chunk, m, q);
    assert r == Round(Noise(m, q), r.heard);
    NoiseCounts(w, blocks, destsz, m, q, r.heard);
    if Accepts(Frames(w.s, destsz, m, q)) {
      NoughtIsNew(w.s, destsz, m, q);
      assert false;
    }
  }

  /**
   * Once stuck, the sender never moves again and nothing is accepted, whatever rounds follow. The transfer can only
   * fail, unless a fault, and not the sender, supplies an EOT when every block is there.
   */
  lemma {:induction false} StuckForever(w: World, blocks: seq<seq<byte>>, destsz: int, rounds: seq<Round>)
    requires Blocks(blocks) && InSync(w, blocks, destsz) && w.ended.None? && Stuck(w)
    requires AllPossible(w, blocks, destsz, rounds)
    ensures var w' := Play(w, blocks, destsz, rounds);
            && (w'.ended.None? ==> w'.i == w.i && Count(w'.log) == Count(w.log) && Stuck(w'))
            && (w'.ended.Some? && w'.ended.value >= 0 ==>
                  && Count(w'.log) == |blocks|
                  && rounds != []
                  && !Intact(Play(w, blocks, destsz, rounds[..|rounds| - 1]), blocks, rounds[|rounds| - 1].chunk))
  {
    if rounds != [] {
      var n := |rounds| - 1;
      StuckForever(w, blocks, destsz, rounds[..n]);
      AlwaysInSync(w, blocks, destsz, rounds[..n]);
      StuckRound(Play(w, blocks, destsz, rounds[..n]), blocks, destsz, rounds[n]);
    }
  }

  // ----- Possible rounds -----

  lemma WelcomeIsPossible(w: World, blocks: seq<seq<byte>>, destsz: int, m: seq<byte>, q: nat, heard: bool)
    requires w.ended.None? && w.s.retry < MAX_BYTE_RETRIES && q > 0
    requires Welcome(w, blocks, destsz, m, q) && Hushed(w.s, destsz, m, q)
    ensures Possible(w, blocks, destsz, Round(Noise(m, q), heard))
  {
    assert IsFault(w, blocks, destsz, Noise(m, q), m, q);
  }

  lemma OneEntry(e: Entry)
    ensures Count([e]) == (if e.verdict.New? then 1 else 0)
    ensures Accepted([e]) == (if e.verdict.New? then [Payload(e)] else [])
    ensures Accepts([e]) <==> Answered(e)
  {
    Snoc([], e);
    assert [] + [e] == [e] && [e][0] == e;
  }

  /** Any bytes that expose nothing, with the silence they call for. */
  lemma FaultIsPossible(w: World, blocks: seq<seq<byte>>, destsz: int, m: seq<byte>, q: nat, heard: bool)
    requires w.ended.None? && w.s.retry < MAX_BYTE_RETRIES && Count(w.log) <= |blocks|
    requires q > 0 && !Exposed(w.s, m, q) && Hushed(w.s, destsz, m, q)
    ensures Possible(w, blocks, destsz, Round(Noise(m, q), heard))
  {
    hide Frames, EndsBy, Hushed, Exposed, Settle, Accepts, Sight;
    var frames := Frames(w.s, destsz, m, q);
    HarmlessBrings(w.s, destsz, m, q);
    if frames != [] {
      OneEntry(frames[0]);
      assert frames == [frames[0]];
    }
    WelcomeIsPossible(w, blocks, destsz, m, q, heard);
  }

  /**
   * The sender's block with stray bytes before and after it is a round, and does what the block alone does. Of the
   * stray bytes before it there are fewer than the attempts left, and they do not use up those in CRC mode.
   */
  lemma StraysAreWelcome(w: World, blocks: seq<seq<byte>>, destsz: int, a: seq<byte>, b: seq<byte>, q: nat, heard: bool)
    requires Blocks(blocks) && InSync(w, blocks, destsz) && w.ended.None? && w.i < |blocks| && q > 0
    requires Reception(w).New? || Reception(w).Duplicate?
    requires AllStray(a) && AllStray(b) && |a| < Patience(w.s) && Mode(Weary(w.s, Patience(w.s) - |a|)) == Mode(w.s)
    ensures var m := a + (FrameBytes(Mode(w.s), BlockNumber(w.i), blocks[w.i]) + b);
            var w' := After(w, blocks, destsz, Round(Noise(m, q), heard));
            && Possible(w, blocks, destsz, Round(Noise(m, q), heard))
            && Accepted(w'.log) == Accepted(w.log) + (if Reception(w).New? then [blocks[w.i]] else [])
            && (w'.ended.None? ==> w'.i == w.i + if heard then 1 else 0)
  {
    hide Frames, EndsBy, Hushed, Settle, Patience, Weary, AllStray, After, Welcome, Accepts, Accepted, Count;
    var m := a + (FrameBytes(Mode(w.s), BlockNumber(w.i), blocks[w.i]) + b);
    var e := Entry(Mode(w.s), |blocks[w.i]|, CurrentBody(w, blocks), Reception(w));
    StraysFrames(w, blocks, destsz, a, b, q);
    OneEntry(e);
    NoiseCounts(w, blocks, destsz, m, q, heard);
    OneBlockIsWelcome(w, blocks, destsz, m, q, e);
    WelcomeIsPossible(w, blocks, destsz, m, q, heard);
  }

  lemma StraysFrames(w: World, blocks: seq<seq<byte>>, destsz: int, a: seq<byte>, b: seq<byte>, q: nat)
    requires Blocks(blocks) && InSync(w, blocks, destsz) && w.ended.None? && w.i < |blocks| && q > 0
    requires Reception(w).New? || Reception(w).Duplicate?
    requires AllStray(a) && AllStray(b) && |a| < Patience(w.s) && Mode(Weary(w.s, Patience(w.s) - |a|)) == Mode(w.s)
    ensures var m := a + (FrameBytes(Mode(w.s), BlockNumber(w.i), blocks[w.i]) + b);
            var e := Entry(Mode(w.s), |blocks[w.i]|, CurrentBody(w, blocks), Reception(w));
            && Frames(w.s, destsz, m, q) == [e] && Payload(e) == blocks[w.i]
            && !EndsBy(w.s, destsz, m, q) && Hushed(w.s, destsz, m, q)
  {
    hide Frames, EndsBy, Hushed, Patience, Weary, Judge, Body, AllStray, RightVerdicts, Uniform, Delivered;
    assert Block(blocks[w.i]);
    IntactVerdict(w, blocks, destsz);
    BodyCarries(Mode(w.s), BlockNumber(w.i), blocks[w.i], Reception(w));
    FrameAmongStrays(w.s, destsz, a, BlockNumber(w.i), blocks[w.i], b, q);
  }

  lemma OneBlockIsWelcome(w: World, blocks: seq<seq<byte>>, destsz: int, m: seq<byte>, q: nat, e: Entry)
    requires InSync(w, blocks, destsz) && w.ended.None? && w.i < |blocks| && q > 0
    requires e.verdict == Reception(w) && (e.verdict.New? || e.verdict.Duplicate?) && Payload(e) == blocks[w.i]
    requires Frames(w.s, destsz, m, q) == [e] && !EndsBy(w.s, destsz, m, q)
    ensures Welcome(w, blocks, destsz, m, q)
  {
    hide Frames, EndsBy, Settle, Accepts, Count, Accepted, Delivered, RightVerdicts, Uniform, Continues;
    OneEntry(e);
    OneBlockContinues(blocks, Count(w.log), Accepted([e]));
  }

  lemma OneBlockContinues(blocks: seq<seq<byte>>, n: nat, next: seq<seq<byte>>)
    requires n <= |blocks|
    ensures next == [] ==> Continues(blocks, n, next)
    ensures n < |blocks| && next == [blocks[n]] ==> Continues(blocks, n, next)
  {
  }

  /** Nothing arrives for the duration of one attempt. */
  lemma LostIsPossible(w: World, blocks: seq<seq<byte>>, destsz: int, heard: bool)
    requires w.ended.None? && w.s.retry < MAX_BYTE_RETRIES && Count(w.log) <= |blocks|
    ensures Possible(w, blocks, destsz, Round([Timeout], heard))
  {
    SilenceIsIdle(w.s, destsz, 1);
    FaultIsPossible(w, blocks, destsz, [], 1, heard);
    assert Noise([], 1) == [Timeout];
  }

  /**
   * An intact transmission is a round at any point of a transfer, followed by a pause or not. Only where the receiver
   * refuses it must the pause be there: it throws away what comes in until then.
   */
  lemma IntactIsPossible(w: World, blocks: seq<seq<byte>>, destsz: int, r: Round)
    requires Blocks(blocks) && InSync(w, blocks, destsz) && w.ended.None? && Intact(w, blocks, r.chunk)
    requires w.i < |blocks| && Reception(w).Rejected? ==> r.chunk != Transmission(w, blocks)
    ensures Possible(w, blocks, destsz, r)
  {
    var tail := IntactIs(w, blocks, r.chunk);
    forall more: seq<Item> ensures Decides(w.s, destsz, r.chunk, more) {
      if w.i < |blocks| {
        IntactDecides(w, blocks, destsz, tail, more);
      } else {
        FinalDecides(w.s, destsz, tail, more);
      }
    }
  }

  lemma IntactDecides(w: World, blocks: seq<seq<byte>>, destsz: int, tail: seq<Item>, more: seq<Item>)
    requires Blocks(blocks) && InSync(w, blocks, destsz) && w.ended.None? && w.i < |blocks|
    requires tail == [] || tail == [Timeout]
    requires Reception(w).Rejected? ==> tail != []
    ensures Decides(w.s, destsz, Transmission(w, blocks) + tail, more)
  {
    var frame := Transmission(w, blocks);
    var chunk := frame + tail;
    Associates(frame, tail, more);
    IntactFrame(w, blocks, destsz, tail);
    IntactFrame(w, blocks, destsz, tail + more);
    var t := Turn(w.s, destsz, chunk);
    if t.Continue? {
      if t.rest == [] {
        DecidesNothing(t.next, destsz, more);
        FlushedPause(tail, more);
      } else {
        SilenceIsIdle(t.next, destsz, 1);
        NoiseDecides(t.next, destsz, [], 1, more);
        assert Noise([], 1) == [Timeout];
      }
      Empties(more);
    }
    DecidesNow(w.s, destsz, chunk, more, t, Turn(w.s, destsz, chunk + more));
  }

  lemma FlushedPause(tail: seq<Item>, more: seq<Item>)
    ensures tail == [Timeout] ==> Flushed(tail + more) == more && Flushed(tail) == []
  {
    if tail == [Timeout] {
      assert (tail + more)[1..] == more;
    }
  }

  /** EOT decides the turn it ends. */
  lemma FinalDecides(s: State, destsz: int, tail: seq<Item>, more: seq<Item>)
    ensures Decides(s, destsz, [Byte(EOT)] + tail, more)
  {
    var chunk := [Byte(EOT)] + tail;
    assert (chunk + more)[0] == Byte(EOT);
    DecidesNow(s, destsz, chunk, more, Turn(s, destsz, chunk), Turn(s, destsz, chunk + more));
  }

  // ----- Faults that do harm -----

  /**
   * Whatever bytes arrive in a round, the transfer ends normally within it exactly when they lead to an EOT, at once or
   * behind frames that are accepted. What has been delivered by then counts as the whole.
   */
  lemma FaultEndsEarlyIff(w: World, blocks: seq<seq<byte>>, destsz: int, m: seq<byte>, q: nat, heard: bool)
    requires InSync(w, blocks, destsz) && w.ended.None? && q > 0
    ensures var w' := After(w, blocks, destsz, Round(Noise(m, q), heard));
            && (w'.ended.Some? && w'.ended.value >= 0 <==> EndsBy(w.s, destsz, m, q))
            && (EndsBy(w.s, destsz, m, q) ==>
                  && w'.ended == Some(|Delivered(w'.log, destsz)|)
                  && w'.log == w.log + Frames(w.s, destsz, m, q)
                  && (Count(w'.log) < |blocks| ==> !Welcome(w, blocks, destsz, m, q)))
  {
    hide Frames, EndsBy, Settle;
    NoiseCounts(w, blocks, destsz, m, q, heard);
  }
}
