/** Whole runs of the receiver, on every input. */
module Runs {
  import opened Crc
  import opened Sequences
  import opened Wire
  import opened Receiver
  import opened Ledger

  // ----- Verdicts, counts and delivered data -----

  /** What is true of the complete history `log` of a run that ended with `ret` in state `final`. */
  ghost predicate Concluded(ret: int, final: State, log: seq<Entry>, destsz: int) {
    && RightVerdicts(log)
    && (forall k :: 0 <= k < |log| ==> log[k].isCrc == final.useCrc)
    && (forall k :: 0 <= k < |log| ==> Streak(log[..k]) < MAX_RETRANS)
    && (ret == ERROR_RETRANS_LIMIT <==> Streak(log) == MAX_RETRANS)
    && (ret >= 0 || ret == ERROR_CANCEL || ret == ERROR_SYNC || ret == ERROR_RETRANS_LIMIT)
    && final.len == |Delivered(log, destsz)|
    && (ret >= 0 ==> ret == final.len)
  }

  lemma {:induction false} StreaksBelow(log: seq<Entry>)
    requires RightVerdicts(log)
    requires forall k :: 0 <= k < |log| ==> !log[k].verdict.Exhausted?
    ensures Streak(log) < MAX_RETRANS
    ensures forall k :: 0 <= k <= |log| ==> Streak(log[..k]) < MAX_RETRANS
  {
    if log == [] {
      assert log[..0] == [];
    } else {
      var n := |log| - 1;
      var init := log[..n];
      forall k | 0 <= k < n ensures RightVerdict(init, k) {
        assert RightVerdict(log, k);
        assert init[..k] == log[..k];
      }
      StreaksBelow(init);
      assert RightVerdict(log, n);
      forall k | 0 <= k <= |log| ensures Streak(log[..k]) < MAX_RETRANS {
        if k <= n {
          assert log[..k] == init[..k];
        } else {
          assert log[..k] == log;
        }
      }
    }
  }

  /** A run that ends because its last frame was one repeat too many. */
  lemma ExhaustedConcludes(s: State, log: seq<Entry>, destsz: int, size: nat, body: seq<byte>)
    requires Agrees(s, log, destsz) && Judge(s, size, body).Exhausted?
    ensures var e := Judged(s, size, body);
            Concluded(ERROR_RETRANS_LIMIT, Update(s, destsz, e), log + [e], destsz)
  {
    var e := Judged(s, size, body);
    HeardAgrees(s, log, destsz, size, body);
    StreaksBelow(log);
    Snoc(log, e);
    JudgeRules(s, log, destsz, size, body);
    forall k | 0 <= k < |log + [e]| ensures Streak((log + [e])[..k]) < MAX_RETRANS {
      assert (log + [e])[..k] == log[..k];
    }
  }

  /** A run that ends for any other reason. */
  lemma OtherwiseConcludes(s: State, log: seq<Entry>, destsz: int, ret: int)
    requires Agrees(s, log, destsz) && (ret == s.len || ret == ERROR_CANCEL || ret == ERROR_SYNC)
    ensures Concluded(ret, s, log, destsz)
  {
    StreaksBelow(log);
  }

  /** The last turn of a run. */
  lemma HaltConcludes(s: State, log: seq<Entry>, destsz: int, input: seq<Item>)
    requires Agrees(s, log, destsz) && Turn(s, destsz, input).Halt?
    ensures var t := Turn(s, destsz, input); Concluded(t.ret, t.next, log + t.log, destsz)
  {
    var (first, rest) := ReadFirst(input);
    if first.Header? {
      ExhaustedConcludes(s, log, destsz, first.size, Taken(rest, BodySize(Mode(s), first.size)));
    } else {
      assert log + [] == log;
      OtherwiseConcludes(s, log, destsz, Turn(s, destsz, input).ret);
    }
  }

  lemma ConcludedPrefixed(log: seq<Entry>, sent: seq<byte>, more: seq<Entry>, o: Outcome, destsz: int)
    requires Concluded(o.ret, o.final, (log + more) + o.log, destsz)
    ensures var p := Prefixed(sent, more, o); Concluded(p.ret, p.final, log + p.log, destsz)
  {
    assert (log + more) + o.log == log + (more + o.log);
  }

  lemma SessionTurn(s: State, destsz: int, input: seq<Item>)
    ensures var t := Turn(s, destsz, input);
            Session(s, destsz, input) == if t.Halt? then Outcome(t.ret, t.next, t.sent, t.log, t.rest)
                                         else Prefixed(t.sent, t.log, Session(t.next, destsz, t.rest))
  {
  }

  /** Every run, on every input, from any state that agrees with the history so far. */
  lemma {:induction false} SessionConcludes(s: State, log: seq<Entry>, destsz: int, input: seq<Item>)
    requires Agrees(s, log, destsz)
    ensures var o := Session(s, destsz, input); Concluded(o.ret, o.final, log + o.log, destsz)
    decreases Budget(s, input)
  {
    var t := Turn(s, destsz, input);
    if t.Halt? {
      HaltConcludes(s, log, destsz, input);
    } else {
      TurnShrinks(s, destsz, input);
      TurnAgrees(s, log, destsz, input);
      SessionConcludes(t.next, log + t.log, destsz, t.rest);
      ConcludedPrefixed(log, t.sent, t.log, Session(t.next, destsz, t.rest), destsz);
    }
  }

  /** Every run of `xmodemReceive`: see `Concluded`. */
  lemma RunConcludes(destsz: int, input: seq<Item>)
    ensures var o := Session(START, destsz, input);
            && Concluded(o.ret, o.final, o.log, destsz)
            && o.final.len == Min(if destsz > 0 then destsz else 0, |Concat(Accepted(o.log))|)
  {
    StartAgrees(destsz);
    SessionConcludes(START, [], destsz, input);
    var o := Session(START, destsz, input);
    assert [] + o.log == o.log;
  }

  function Min(a: int, b: int): int {
    if a < b then a else b
  }

  /** The number of the `n`-th accepted block, counted from 0, is n + 1 modulo 256. */
  lemma {:induction false} AcceptedInOrder(log: seq<Entry>, k: nat)
    requires RightVerdicts(log) && k < |log| && log[k].verdict.New?
    ensures WellFormed(log[k].isCrc, log[k].size, log[k].body)
    ensures log[k].body[0] == (Count(log[..k]) + 1) % 256
    ensures |Accepted(log)| == Count(log) && Count(log[..k]) < Count(log)
    ensures Accepted(log)[Count(log[..k])] == log[k].body[2..2 + log[k].size]
  {
    hide Streak;
    var n := |log| - 1;
    var init := log[..n];
    assert RightVerdict(log, k);
    AcceptedCounts(log);
    AcceptedCounts(init);
    if k < n {
      forall j | 0 <= j < n ensures RightVerdict(init, j) {
        assert RightVerdict(log, j);
        assert init[..j] == log[..j];
      }
      AcceptedInOrder(init, k);
      assert init[..k] == log[..k];
    }
  }

  lemma {:induction false} AcceptedCounts(log: seq<Entry>)
    ensures |Accepted(log)| == Count(log)
  {
    if log != [] {
      AcceptedCounts(log[..|log| - 1]);
    }
  }

  // ----- What goes out on the line -----

  /** The answers to the headers of a history, in order. */
  function Replies(log: seq<Entry>): seq<byte> {
    if log == [] then [] else Reply(log[0].verdict) + Replies(log[1..])
  }

  /** What a run sends last. A run over its budget has already sent its three CANs. */
  function Closing(ret: int): seq<byte> {
    if ret == ERROR_RETRANS_LIMIT then [] else if ret == ERROR_SYNC then ABORT else [ACK]
  }

  /** The first `k` solicitations: sixteen times 'C', then sixteen times NAK. */
  function Solicitations(k: nat): (r: seq<byte>)
    ensures |r| == k
  {
    seq(k, i => if i < MAX_BYTE_RETRIES then SOLICIT_CRC else NAK)
  }

  lemma {:induction false} RepliesConcat(a: seq<Entry>, b: seq<Entry>)
    ensures Replies(a + b) == Replies(a) + Replies(b)
  {
    if a == [] {
      assert a + b == b;
    } else {
      RepliesConcat(a[1..], b);
      assert (a + b)[1..] == a[1..] + b;
      Associates(Reply(a[0].verdict), Replies(a[1..]), Replies(b));
    }
  }

  lemma RepliesOne(e: Entry)
    ensures Replies([e]) == Reply(e.verdict)
  {
    assert [e][1..] == [];
  }

  lemma RepliesPrefixed(asked: seq<byte>, sent: seq<byte>, log: seq<Entry>, o: Outcome)
    requires sent == asked + Replies(log) && o.sent == Replies(o.log) + Closing(o.ret)
    ensures var p := Prefixed(sent, log, o); p.sent == asked + Replies(p.log) + Closing(p.ret)
    ensures asked == [] ==> var p := Prefixed(sent, log, o); p.sent == Replies(p.log) + Closing(p.ret)
  {
    RepliesConcat(log, o.log);
    Associates(asked + Replies(log), Replies(o.log), Closing(o.ret));
    Associates(asked, Replies(log), Replies(o.log));
    Empties(Replies(log + o.log));
  }

  /** A state after the first header: nothing is solicited any more. */
  ghost predicate Listening(s: State) {
    s.trychar == 0 && s.retry < MAX_BYTE_RETRIES && s.len >= 0
  }

  /** A header gets one answer; nothing more is sent when it ends the run. */
  lemma HeardReplies(s: State, destsz: int, size: nat, rest: seq<Item>)
    requires s.len >= 0
    ensures var t := Heard(s, destsz, size, rest);
            && t.log != [] && Listening(t.next) && t.next.useCrc == Mode(s)
            && t.sent == Solicitation(s) + Replies(t.log)
            && t.sent == Solicitation(s) + Replies(t.log) + (if t.Halt? then Closing(t.ret) else [])
  {
    var e := Judged(s, size, Taken(rest, BodySize(Mode(s), size)));
    RepliesOne(e);
    Empties(Solicitation(s) + Reply(e.verdict));
  }

  /** One turn after the first header. */
  lemma TurnReplies(s: State, destsz: int, input: seq<Item>)
    requires Listening(s)
    ensures var t := Turn(s, destsz, input);
            && t.next.useCrc == s.useCrc
            && t.sent == Replies(t.log) + (if t.Halt? then Closing(t.ret) else [])
            && (t.Continue? ==> Listening(t.next))
  {
    var (first, rest) := ReadFirst(input);
    if first.Header? {
      HeardReplies(s, destsz, first.size, rest);
    }
    Empties(ABORT);
    Empties([ACK]);
  }

  /** After the first header every header gets exactly one answer and nothing else is sent until the end. */
  lemma {:induction false} SessionReplies(s: State, destsz: int, input: seq<Item>)
    requires Listening(s)
    ensures var o := Session(s, destsz, input);
            && o.sent == Replies(o.log) + Closing(o.ret)
            && o.final.useCrc == s.useCrc
    decreases Budget(s, input)
  {
    var t := Turn(s, destsz, input);
    TurnReplies(s, destsz, input);
    if t.Continue? {
      TurnShrinks(s, destsz, input);
      SessionReplies(t.next, destsz, t.rest);
      RepliesPrefixed([], t.sent, t.log, Session(t.next, destsz, t.rest));
    }
  }

  /** The number of solicitations sent before this one. */
  function Asked(s: State): nat {
    (if s.trychar == SOLICIT_CRC then 0 else MAX_BYTE_RETRIES) + s.retry
  }

  ghost predicate Opening(s: State) {
    (s.trychar == SOLICIT_CRC || s.trychar == NAK) && s.retry < MAX_BYTE_RETRIES && !s.useCrc && s.len >= 0
  }

  /** One turn before the first header: it solicits once, and a header fixes the mode. */
  lemma TurnOpening(s: State, destsz: int, input: seq<Item>)
    requires Opening(s)
    ensures var t := Turn(s, destsz, input);
            && t.sent == [s.trychar] + Replies(t.log) + (if t.Halt? then Closing(t.ret) else [])
            && (t.log != [] ==> t.next.useCrc == (Asked(s) < MAX_BYTE_RETRIES))
            && (t.Continue? && t.log == [] ==> Opening(t.next) && Asked(t.next) == Asked(s) + 1)
            && (t.Continue? && t.log != [] ==> Listening(t.next))
            && (t.Halt? && t.log == [] && t.ret == ERROR_SYNC ==> Asked(s) + 1 == 2 * MAX_BYTE_RETRIES)
  {
    var (first, rest) := ReadFirst(input);
    if first.Header? {
      HeardReplies(s, destsz, first.size, rest);
    }
    Empties([s.trychar]);
    Empties([s.trychar] + []);
  }

  /** `o` is how a run can end that has sent `a` solicitations already. */
  ghost predicate Opened(a: nat, k: nat, o: Outcome) {
    && a < k <= 2 * MAX_BYTE_RETRIES
    && o.sent == Solicitations(k)[a..] + Replies(o.log) + Closing(o.ret)
    && (o.log != [] ==> o.final.useCrc == (k <= MAX_BYTE_RETRIES))
    && (o.log == [] && o.ret == ERROR_SYNC ==> k == 2 * MAX_BYTE_RETRIES)
  }

  function SolicitationAt(a: nat): byte {
    if a < MAX_BYTE_RETRIES then SOLICIT_CRC else NAK
  }

  lemma OpenedHalt(a: nat, o: Outcome)
    requires a < 2 * MAX_BYTE_RETRIES
    requires o.sent == [SolicitationAt(a)] + Replies(o.log) + Closing(o.ret)
    requires o.log != [] ==> o.final.useCrc == (a < MAX_BYTE_RETRIES)
    requires o.log == [] && o.ret == ERROR_SYNC ==> a + 1 == 2 * MAX_BYTE_RETRIES
    ensures Opened(a, a + 1, o)
  {
    assert Solicitations(a + 1)[a..] == [SolicitationAt(a)];
  }

  lemma SolicitsOnly(sent: seq<byte>, a: nat, trychar: byte)
    requires trychar == SolicitationAt(a) && sent == [trychar] + Replies([]) + []
    ensures sent == [SolicitationAt(a)]
  {
  }

  lemma OpenedLater(a: nat, k: nat, o: Outcome)
    requires Opened(a + 1, k, o)
    ensures Opened(a, k, Prefixed([SolicitationAt(a)], [], o))
  {
    assert Solicitations(k)[a..] == [SolicitationAt(a)] + Solicitations(k)[a + 1..];
    assert [] + o.log == o.log;
  }

  lemma OpenedNow(a: nat, sent: seq<byte>, log: seq<Entry>, o: Outcome)
    requires a < 2 * MAX_BYTE_RETRIES && log != []
    requires sent == [SolicitationAt(a)] + Replies(log)
    requires o.sent == Replies(o.log) + Closing(o.ret)
    requires o.final.useCrc == (a < MAX_BYTE_RETRIES)
    ensures Opened(a, a + 1, Prefixed(sent, log, o))
  {
    assert Solicitations(a + 1)[a..] == [SolicitationAt(a)];
    RepliesPrefixed([SolicitationAt(a)], sent, log, o);
  }

  /** Before the first header: solicitations only, and the one outstanding decides the mode for good. */
  lemma {:induction false} SessionOpening(s: State, destsz: int, input: seq<Item>) returns (k: nat)
    requires Opening(s)
    ensures Opened(Asked(s), k, Session(s, destsz, input))
    decreases Budget(s, input)
  {
    hide Session, Turn, Budget, Replies, Opened;
    var t, a := Turn(s, destsz, input), Asked(s);
    SessionTurn(s, destsz, input);
    TurnOpening(s, destsz, input);
    TurnShrinks(s, destsz, input);
    k := a + 1;
    assert s.trychar == SolicitationAt(a);
    if t.Halt? {
      OpenedHalt(a, Session(s, destsz, input));
    } else if t.log == [] {
      k := SessionOpening(t.next, destsz, t.rest);
      SolicitsOnly(t.sent, a, s.trychar);
      OpenedLater(a, k, Session(t.next, destsz, t.rest));
    } else {
      SessionReplies(t.next, destsz, t.rest);
      OpenedNow(a, t.sent, t.log, Session(t.next, destsz, t.rest));
    }
  }

  /** Everything a run of `xmodemReceive` ever sends. */
  lemma RunReplies(destsz: int, input: seq<Item>) returns (k: nat)
    ensures var o := Session(START, destsz, input);
            && 1 <= k <= 32
            && o.sent == Solicitations(k) + Replies(o.log) + Closing(o.ret)
            && (forall i :: 0 <= i < |o.log| ==> o.log[i].isCrc == (k <= 16))
            && (o.log == [] && o.ret == ERROR_SYNC ==> k == 32)
  {
    k := SessionOpening(START, destsz, input);
    RunConcludes(destsz, input);
    assert Solicitations(k)[0..] == Solicitations(k);
  }

  // ----- Runs that hear nothing -----

  /** The next `n` attempts to get a header bring nothing. */
  predicate Fruitless(input: seq<Item>, n: nat) {
    n == 0 || (ReadFirst(input).0.Nothing? && Fruitless(ReadFirst(input).1, n - 1))
  }

  /** Before the first header, the run ends for want of any exactly when none of the attempts left brings anything. */
  lemma {:induction false} UnheardIff(s: State, destsz: int, input: seq<Item>)
    requires Opening(s)
    ensures var o := Session(s, destsz, input);
            o.log == [] && o.ret == ERROR_SYNC <==> Fruitless(input, 2 * MAX_BYTE_RETRIES - Asked(s))
    decreases Budget(s, input)
  {
    var t := Turn(s, destsz, input);
    SessionTurn(s, destsz, input);
    TurnOpening(s, destsz, input);
    TurnShrinks(s, destsz, input);
    if ReadFirst(input).0.Nothing? && t.Continue? {
      UnheardIff(t.next, destsz, t.rest);
      Empties(Session(t.next, destsz, t.rest).log);
    }
  }

  /**
   * A run that hears nothing: it ends with -2 and without a header exactly when 32 attempts bring nothing, and then
   * it has sent sixteen times 'C', sixteen times NAK and three CANs.
   */
  lemma SilentRunIff(destsz: int, input: seq<Item>)
    ensures var o := Session(START, destsz, input);
            && (o.log == [] && o.ret == ERROR_SYNC <==> Fruitless(input, 32))
            && (Fruitless(input, 32) ==> o.sent == Solicitations(32) + ABORT)
  {
    UnheardIff(START, destsz, input);
    var k := RunReplies(destsz, input);
    Empties(Solicitations(32));
  }

  /** Neither a header, nor an end, nor a cancel. */
  predicate Meaningless(i: Item) {
    i.Timeout? || (i.b != SOH && i.b != STX && i.b != EOT && i.b != CAN)
  }

  /** Time-outs and bytes without a meaning are fruitless for as long as one likes. */
  lemma {:induction false} MeaninglessIsFruitless(input: seq<Item>, n: nat)
    requires forall k :: 0 <= k < |input| ==> Meaningless(input[k])
    ensures Fruitless(input, n)
    decreases n
  {
    if n > 0 {
      MeaninglessIsFruitless(Rest(input), n - 1);
    }
  }

  /** A run is no longer than its input: it answers at most one header per item read. */
  lemma {:induction false} SessionIsShort(s: State, destsz: int, input: seq<Item>)
    ensures |Session(s, destsz, input).log| <= |input|
    decreases Budget(s, input)
  {
    var t := Turn(s, destsz, input);
    if t.Continue? {
      TurnShrinks(s, destsz, input);
      SessionIsShort(t.next, destsz, t.rest);
    }
  }
}
