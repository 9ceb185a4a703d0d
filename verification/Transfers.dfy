/** Particular transfers: complete ones over a clean line, and the one that gets stuck. */
module Transfers {
  import opened Crc
  import opened Sequences
  import opened Wire
  import opened Receiver
  import opened Ledger
  import opened Runs
  import opened Sender
  import opened Damage
  import opened Faults
  import opened Strays
  import opened StopAndWait

  function Acknowledgements(n: nat): (r: seq<byte>)
    ensures |r| == n
  {
    seq(n, _ => ACK)
  }

  /** The frames of `blocks` one after the other, numbered from 1 on modulo 256. */
  function FrameStream(isCrc: bool, blocks: seq<seq<byte>>): seq<Item> {
    if blocks == [] then []
    else
      var n := |blocks| - 1;
      FrameStream(isCrc, blocks[..n]) + FrameItems(isCrc, BlockNumber(n), blocks[n])
  }

  /** The receiver's variables after `k` silent attempts. */
  function Waiting(k: nat): State {
    START.(trychar := if k < 16 then SOLICIT_CRC else NAK, retry := k % 16)
  }

  lemma SilentRound(blocks: seq<seq<byte>>, destsz: int, k: nat)
    requires k < 31
    ensures After(World(0, Waiting(k), [], Solicitations(k), None), blocks, destsz, Round([Timeout], false))
         == World(0, Waiting(k + 1), [], Solicitations(k + 1), None)
  {
    assert Solicitations(k + 1) == Solicitations(k) + [Waiting(k).trychar];
    assert Turn(Waiting(k), destsz, [Timeout]) == Continue(Waiting(k + 1), [Waiting(k).trychar], [], []);
  }

  lemma {:induction false} SilentRounds(blocks: seq<seq<byte>>, destsz: int, k: nat) returns (rounds: seq<Round>)
    requires k < 32
    ensures AllPossible(START_WORLD, blocks, destsz, rounds)
    ensures Play(START_WORLD, blocks, destsz, rounds) == World(0, Waiting(k), [], Solicitations(k), None)
    ensures Stream(rounds) == Silence(k)
  {
    hide After, Possible;
    if k == 0 {
      rounds := [];
    } else {
      var before := SilentRounds(blocks, destsz, k - 1);
      var r := Round([Timeout], false);
      LostIsPossible(Play(START_WORLD, blocks, destsz, before), blocks, destsz, false);
      SilentRound(blocks, destsz, k - 1);
      PlayOne(START_WORLD, blocks, destsz, before, r);
      StreamOne(before, r);
      rounds := before + [r];
      assert Silence(k) == Silence(k - 1) + [Timeout];
    }
  }

  lemma StreamOne(rounds: seq<Round>, r: Round)
    ensures Stream(rounds + [r]) == Stream(rounds) + r.chunk
  {
    assert (rounds + [r])[..|rounds|] == rounds;
  }

  /** `n` blocks have gone through without a repeat, after `k` silent attempts. */
  ghost predicate Flowing(w: World, blocks: seq<seq<byte>>, destsz: int, k: nat, n: nat) {
    && w.ended.None? && w.i == n <= |blocks| && Count(w.log) == n
    && InSync(w, blocks, destsz)
    && (n == 0 ==> w.s == Waiting(k) && w.sent == Solicitations(k))
    && (n > 0 ==> w.s.trychar == 0 && w.s.retry == 0 && w.s.useCrc == (k < 16))
    && (n > 0 ==> w.sent == Solicitations(k + 1) + Acknowledgements(n))
  }

  lemma FlowingSent(k: nat, n: nat, s: State)
    requires if n == 0 then s == Waiting(k) && k < 32 else s.trychar == 0
    ensures var sent := if n == 0 then Solicitations(k) else Solicitations(k + 1) + Acknowledgements(n);
            sent + (Solicitation(s) + [ACK]) == Solicitations(k + 1) + Acknowledgements(n + 1)
  {
    if n == 0 {
      assert Solicitations(k + 1) == Solicitations(k) + [s.trychar];
      assert Acknowledgements(1) == [ACK];
    } else {
      assert Acknowledgements(n + 1) == Acknowledgements(n) + [ACK];
    }
  }

  /** One more block goes through; whether the ACK is heard decides only where the sender stands. */
  lemma FlowingRound(w: World, blocks: seq<seq<byte>>, destsz: int, k: nat, n: nat, heard: bool)
    requires Blocks(blocks) && k < 32 && n < |blocks| && Flowing(w, blocks, destsz, k, n)
    ensures var r := Round(Transmission(w, blocks), heard);
            var w' := After(w, blocks, destsz, r);
            && Transmission(w, blocks) == FrameItems(k < 16, BlockNumber(n), blocks[n])
            && Possible(w, blocks, destsz, r)
            && Count(w'.log) == n + 1 && w'.ended.None? && InSync(w', blocks, destsz)
            && (heard ==> Flowing(w', blocks, destsz, k, n + 1))
            && (!heard ==> w'.i == n)
  {
    hide Settle, Possible, Delivered, RightVerdicts, Uniform, Payload;
    var r := Round(Transmission(w, blocks), heard);
    IntactIsPossible(w, blocks, destsz, r);
    IntactCounts(w, blocks, destsz, r);
    IntactKeepsSync(w, blocks, destsz, r);
    IntactSettles(w, blocks, destsz, r.chunk);
    FlowingSent(k, n, w.s);
  }

  lemma FrameStreamNext(isCrc: bool, blocks: seq<seq<byte>>, n: nat)
    requires n < |blocks|
    ensures FrameStream(isCrc, blocks[..n + 1])
         == FrameStream(isCrc, blocks[..n]) + FrameItems(isCrc, BlockNumber(n), blocks[n])
  {
    assert blocks[..n + 1][..n] == blocks[..n];
  }

  lemma SilenceFlows(blocks: seq<seq<byte>>, destsz: int, k: nat)
    requires k < 32
    ensures Flowing(World(0, Waiting(k), [], Solicitations(k), None), blocks, destsz, k, 0)
    ensures Silence(k) == Silence(k) + FrameStream(k < 16, blocks[..0])
  {
    StartAgrees(destsz);
  }

  lemma {:induction false} FlowingRounds(blocks: seq<seq<byte>>, destsz: int, k: nat, n: nat)
    returns (rounds: seq<Round>)
    requires Blocks(blocks) && k < 32 && n <= |blocks|
    ensures AllPossible(START_WORLD, blocks, destsz, rounds)
    ensures Flowing(Play(START_WORLD, blocks, destsz, rounds), blocks, destsz, k, n)
    ensures Stream(rounds) == Silence(k) + FrameStream(k < 16, blocks[..n])
  {
    if n == 0 {
      rounds := SilentRounds(blocks, destsz, k);
      SilenceFlows(blocks, destsz, k);
    } else {
      var before := FlowingRounds(blocks, destsz, k, n - 1);
      var w := Play(START_WORLD, blocks, destsz, before);
      var r := Round(Transmission(w, blocks), true);
      FlowingRound(w, blocks, destsz, k, n - 1, true);
      PlayOne(START_WORLD, blocks, destsz, before, r);
      StreamOne(before, r);
      FrameStreamNext(k < 16, blocks, n - 1);
      rounds := before + [r];
      Associates(Silence(k), FrameStream(k < 16, blocks[..n - 1]), r.chunk);
    }
  }

  /** EOT after the last block, as a round. */
  lemma LastRound(w: World, blocks: seq<seq<byte>>, destsz: int, k: nat)
    requires k < 32 && Flowing(w, blocks, destsz, k, |blocks|)
    ensures var w' := After(w, blocks, destsz, Round([Byte(EOT)], true));
            && w'.ended == Some(w.s.len) && w.s.len >= 0
            && w'.sent == Solicitations(k + 1) + Acknowledgements(|blocks|) + [ACK]
  {
    EndKeepsSync(w, blocks, destsz, Round([Byte(EOT)], true));
    FlowingSent(k, |blocks|, w.s);
    assert Acknowledgements(|blocks| + 1) == Acknowledgements(|blocks|) + [ACK];
  }

  lemma CompleteRounds(blocks: seq<seq<byte>>, destsz: int, k: nat) returns (rounds: seq<Round>)
    requires Blocks(blocks) && k < 32
    ensures AllPossible(START_WORLD, blocks, destsz, rounds)
    ensures var w := Play(START_WORLD, blocks, destsz, rounds);
            && w.ended.Some? && w.ended.value >= 0
            && w.sent == Solicitations(k + 1) + Acknowledgements(|blocks|) + [ACK]
    ensures Stream(rounds) == Silence(k) + FrameStream(k < 16, blocks) + [Byte(EOT)]
  {
    var before := FlowingRounds(blocks, destsz, k, |blocks|);
    assert blocks[..|blocks|] == blocks;
    var w, r := Play(START_WORLD, blocks, destsz, before), Round([Byte(EOT)], true);
    IntactIsPossible(w, blocks, destsz, r);
    LastRound(w, blocks, destsz, k);
    PlayOne(START_WORLD, blocks, destsz, before, r);
    StreamOne(before, r);
    rounds := before + [r];
  }

  /**
   * A complete transfer: after `k` silent attempts, all blocks and EOT over a clean line. Fewer than 16 silent
   * attempts select the CRC, up to 31 the checksum. Any number of blocks of either size goes through.
   */
  lemma CompleteTransfer(blocks: seq<seq<byte>>, destsz: int, k: nat, more: seq<Item>)
    requires Blocks(blocks) && k < 32
    ensures var o := Session(START, destsz, Silence(k) + FrameStream(k < 16, blocks) + [Byte(EOT)] + more);
            && Delivered(o.log, destsz) == Truncated(Concat(blocks), destsz)
            && o.ret == |Truncated(Concat(blocks), destsz)|
            && o.sent == Solicitations(k + 1) + Acknowledgements(|blocks|) + [ACK]
  {
    var rounds := CompleteRounds(blocks, destsz, k);
    Safety(blocks, destsz, rounds);
    EndedIsSession(blocks, destsz, rounds, more);
  }

  // ----- Ending too early -----

  /**
   * Three blocks and a fourth whose header byte is lost, or arrives as 0: the run ends normally with three blocks
   * delivered, whatever follows.
   */
  lemma FourthHeaderLostRun(blocks: seq<seq<byte>>, destsz: int, h: Option<byte>, more: seq<Item>)
    requires Blocks(blocks) && |blocks| >= 4 && (h == None || h == Some(0))
    ensures var rest := Items(Beheaded(h, true, 4, blocks[3])) + more;
            var o := Session(START, destsz, FrameStream(true, blocks[..3]) + rest);
            && o.ret == |Truncated(Concat(blocks[..3]), destsz)|
            && Delivered(o.log, destsz) == Truncated(Concat(blocks[..3]), destsz)
            && (destsz > |Concat(blocks[..3])| ==> Delivered(o.log, destsz) != Truncated(Concat(blocks), destsz))
  {
    hide Session, Beheaded, Play, Truncated, Stream, AllPossible, FrameStream;
    var rounds := FlowingRounds(blocks, destsz, 0, 3);
    var w := Play(START_WORLD, blocks, destsz, rounds);
    var rest := Items(Beheaded(h, true, 4, blocks[3])) + more;
    RoundsAreSession(blocks, destsz, rounds, rest);
    FourthHeaderLost(w.s, w.log, destsz, blocks[3], h, more);
    SilenceNone(FrameStream(true, blocks[..3]));
    Empties(w.log);
    if destsz > |Concat(blocks[..3])| {
      FourthIsMissing(blocks, destsz);
    }
  }

  lemma SilenceNone(input: seq<Item>)
    ensures Silence(0) + input == input
  {
  }

  lemma FourthIsMissing(blocks: seq<seq<byte>>, destsz: int)
    requires Blocks(blocks) && |blocks| >= 4 && destsz > |Concat(blocks[..3])|
    ensures Truncated(Concat(blocks[..3]), destsz) != Truncated(Concat(blocks), destsz)
  {
    ConcatPrefix(blocks, 4);
    TakesOneMore(blocks, 3);
    ConcatSnoc(blocks[..3], blocks[3]);
  }

  // ----- Getting stuck -----

  lemma StuckNeedsMany(w: World, blocks: seq<seq<byte>>, destsz: int)
    requires InSync(w, blocks, destsz) && w.ended.None? && Stuck(w)
    ensures |blocks| >= 255
  {
  }

  lemma StuckAt255(w: World, blocks: seq<seq<byte>>, destsz: int)
    requires InSync(w, blocks, destsz) && w.ended.None? && Count(w.log) == 255 && w.i == 254
    ensures Stuck(w)
  {
  }

  /** From a clean start, block 255 goes through and its ACK is lost. */
  lemma CanGetStuck(blocks: seq<seq<byte>>, destsz: int) returns (rounds: seq<Round>)
    requires Blocks(blocks) && |blocks| >= 255
    ensures AllPossible(START_WORLD, blocks, destsz, rounds)
    ensures EndsStuck(blocks, destsz, rounds)
  {
    var before := FlowingRounds(blocks, destsz, 0, 254);
    var w := Play(START_WORLD, blocks, destsz, before);
    var r := Round(Transmission(w, blocks), false);
    FlowingRound(w, blocks, destsz, 0, 254, false);
    StuckAt255(After(w, blocks, destsz, r), blocks, destsz);
    PlayOne(START_WORLD, blocks, destsz, before, r);
    rounds := before + [r];
  }

  ghost predicate EndsStuck(blocks: seq<seq<byte>>, destsz: int, rounds: seq<Round>) {
    var w := Play(START_WORLD, blocks, destsz, rounds);
    w.ended.None? && Stuck(w)
  }

  /** A transfer can get stuck for good exactly when it has 255 blocks or more; see `StuckForever`. */
  lemma StuckReachableIff(blocks: seq<seq<byte>>, destsz: int)
    requires Blocks(blocks)
    ensures |blocks| >= 255 <==>
            exists rounds :: AllPossible(START_WORLD, blocks, destsz, rounds) && EndsStuck(blocks, destsz, rounds)
  {
    if |blocks| >= 255 {
      var rounds := CanGetStuck(blocks, destsz);
    }
    forall rounds | AllPossible(START_WORLD, blocks, destsz, rounds) && EndsStuck(blocks, destsz, rounds)
      ensures |blocks| >= 255
    {
      StartInSync(blocks, destsz);
      AlwaysInSync(START_WORLD, blocks, destsz, rounds);
      StuckNeedsMany(Play(START_WORLD, blocks, destsz, rounds), blocks, destsz);
    }
  }
}
