/**
 * The receive code on top of the UART: `xmodemReceive` as a program that makes calls to the reader and goes by what
 * they return. A list of calls that it makes from beginning to end is one run of `Session`.
 */
module Device {
  import opened Sequences
  import opened Wire
  import opened Receiver
  import opened Runs
  import Uart

  /** The next call is to `uart_read`. */
  predicate Reads(calls: seq<Call>) {
    calls != [] && calls[0].ReadCall?
  }

  /** The calls after those of `flushinput`. */
  function AfterFlush(calls: seq<Call>): (r: Option<seq<Call>>)
    ensures r.Some? ==> |r.value| < |calls|
  {
    if !Reads(calls) then None
    else if calls[0].result.None? then Some(calls[1..])
    else AfterFlush(calls[1..])
  }

  /** `get_first_byte`: what it finds and the calls after its own. */
  function FirstOfCalls(calls: seq<Call>): (r: Option<(First, seq<Call>)>)
    ensures r.Some? ==> |r.value.1| < |calls|
  {
    if !Reads(calls) then None
    else
      match calls[0].result
      case None => Some((Nothing, calls[1..]))
      case Some(c) =>
        if c == SOH then Some((Header(c, 128), calls[1..]))
        else if c == STX then Some((Header(c, 1024), calls[1..]))
        else if c == EOT then Ended(End, AfterFlush(calls[1..]))
        else if c == CAN then
          if !Reads(calls[1..]) then None
          else if calls[1].result == Some(CAN) then Ended(Cancelled, AfterFlush(calls[2..]))
          else Some((Nothing, calls[2..]))
        else Some((Nothing, calls[1..]))
  }

  function Ended(f: First, rest: Option<seq<Call>>): Option<(First, seq<Call>)> {
    match rest case None => None case Some(calls) => Some((f, calls))
  }

  /** One turn of `xmodemReceive`, and the calls after its own. Its input is not on a line, so `rest` is empty. */
  function TurnOfCalls(s: State, destsz: int, calls: seq<Call>): (r: Option<(Step, seq<Call>)>)
    ensures r.Some? ==> |r.value.1| < |calls|
  {
    match FirstOfCalls(calls)
    case None => None
    case Some((Nothing, rest)) => Flushing(Unheard(s, []), Unheard(s, []).Halt?, rest)
    case Some((End, rest)) => Some((Halt(s.len, s, Solicitation(s) + [ACK], [], []), rest))
    case Some((Cancelled, rest)) => Some((Halt(ERROR_CANCEL, s, Solicitation(s) + [ACK], [], []), rest))
    case Some((Header(_, size), rest)) =>
      if rest == [] || !IsFrameCall(rest[0], BodySize(Mode(s), size)) then None
      else
        var e := Judged(s, size, rest[0].bytes);
        Flushing(Framed(s, destsz, e), e.verdict.Rejected? || e.verdict.Exhausted?, rest[1..])
  }

  /** The call of `uart_read_buf` that asks for the `n` bytes of a frame. */
  predicate IsFrameCall(c: Call, n: nat) {
    c.BufCall? && c.max == n && c.wait && |c.bytes| <= n
  }

  function Framed(s: State, destsz: int, e: Entry): Step {
    var next, sent := Update(s, destsz, e), Solicitation(s) + Reply(e.verdict);
    if e.verdict.Exhausted? then Halt(ERROR_RETRANS_LIMIT, next, sent, [e], []) else Continue(next, sent, [e], [])
  }

  /** A turn that may end by throwing input away. */
  function Flushing(t: Step, flushes: bool, calls: seq<Call>): Option<(Step, seq<Call>)> {
    if !flushes then Some((t, calls))
    else match AfterFlush(calls) case None => None case Some(rest) => Some((t, rest))
  }

  /** A whole run of `xmodemReceive` that makes exactly these calls, if it does. */
  function SessionOfCalls(s: State, destsz: int, calls: seq<Call>): Option<Outcome>
    decreases |calls|
  {
    match TurnOfCalls(s, destsz, calls)
    case None => None
    case Some((t, rest)) =>
      if t.Halt? then (if rest == [] then Some(Outcome(t.ret, t.next, t.sent, t.log, [])) else None)
      else
        match SessionOfCalls(t.next, destsz, rest)
        case None => None
        case Some(o) => Some(Prefixed(t.sent, t.log, o))
  }

  // ----- The calls that a run makes -----

  function FirstCalls(input: seq<Item>): seq<Call> {
    var rest := Rest(input);
    [ReadCall(Next(input))] +
      match Next(input)
      case None => []
      case Some(c) =>
        if c == EOT then FlushCalls(rest)
        else if c == CAN then
          [ReadCall(Next(rest))] + if Next(rest) == Some(CAN) then FlushCalls(Rest(rest)) else []
        else []
  }

  function FrameCall(n: nat, input: seq<Item>): Call {
    BufCall(n, true, Taken(input, n), |Taken(input, n)| < n)
  }

  function HeardCalls(s: State, size: nat, input: seq<Item>): seq<Call> {
    var n := BodySize(Mode(s), size);
    var v := Judge(s, size, Taken(input, n));
    [FrameCall(n, input)] + if v.Rejected? || v.Exhausted? then FlushCalls(Untaken(input, n)) else []
  }

  /** The calls after those of the attempt itself. */
  function LaterCalls(s: State, input: seq<Item>): seq<Call> {
    var (first, rest) := ReadFirst(input);
    if first.Header? then HeardCalls(s, first.size, rest)
    else if first.Nothing? && Unheard(s, rest).Halt? then FlushCalls(rest)
    else []
  }

  function TurnCalls(s: State, input: seq<Item>): seq<Call> {
    FirstCalls(input) + LaterCalls(s, input)
  }

  /** All calls of a run. */
  function RunCalls(s: State, destsz: int, input: seq<Item>): seq<Call>
    decreases Budget(s, input)
  {
    var t := Turn(s, destsz, input);
    if t.Halt? then TurnCalls(s, input)
    else
      TurnShrinks(s, destsz, input);
      TurnCalls(s, input) + RunCalls(t.next, destsz, t.rest)
  }

  lemma {:induction false} FlushReplayed(input: seq<Item>, more: seq<Call>)
    ensures AfterFlush(FlushCalls(input) + more) == Some(more)
    decreases |input|
  {
    var calls := FlushCalls(input) + more;
    if Next(input).None? {
      assert calls[1..] == more;
    } else {
      assert calls[1..] == FlushCalls(input[1..]) + more;
      FlushReplayed(input[1..], more);
    }
  }

  lemma FirstReplayed(input: seq<Item>, more: seq<Call>)
    ensures FirstOfCalls(FirstCalls(input) + more) == Some((ReadFirst(input).0, more))
  {
    var calls, rest := FirstCalls(input) + more, Rest(input);
    assert calls[0] == ReadCall(Next(input));
    if Next(input) == Some(EOT) {
      assert calls[1..] == FlushCalls(rest) + more;
      FlushReplayed(rest, more);
    } else if Next(input) == Some(CAN) {
      assert calls[1] == ReadCall(Next(rest)) && calls[1..][0] == calls[1];
      if Next(rest) == Some(CAN) {
        assert calls[2..] == FlushCalls(Rest(rest)) + more;
        FlushReplayed(Rest(rest), more);
      } else {
        assert calls[2..] == more;
      }
    } else {
      assert calls[1..] == more;
    }
  }

  lemma HeardReplayed(s: State, size: nat, input: seq<Item>, more: seq<Call>)
    ensures var calls, n := HeardCalls(s, size, input) + more, BodySize(Mode(s), size);
            var v := Judge(s, size, Taken(input, n));
            && calls != [] && calls[0] == FrameCall(n, input)
            && (if v.Rejected? || v.Exhausted? then AfterFlush(calls[1..]) == Some(more) else calls[1..] == more)
  {
    hide Judge;
    var calls, n := HeardCalls(s, size, input) + more, BodySize(Mode(s), size);
    var v := Judge(s, size, Taken(input, n));
    if v.Rejected? || v.Exhausted? {
      assert calls[1..] == FlushCalls(Untaken(input, n)) + more;
      FlushReplayed(Untaken(input, n), more);
    } else {
      assert calls[1..] == more;
    }
  }

  lemma TurnReplayed(s: State, destsz: int, input: seq<Item>, more: seq<Call>)
    ensures TurnOfCalls(s, destsz, TurnCalls(s, input) + more) == Some((Turn(s, destsz, input).(rest := []), more))
  {
    hide Judge, Update, FirstCalls, HeardCalls, AfterFlush;
    var (first, rest) := ReadFirst(input);
    var later := LaterCalls(s, input);
    Associates(FirstCalls(input), later, more);
    FirstReplayed(input, later + more);
    if first.Header? {
      HeardReplayed(s, first.size, rest, more);
    } else if first.Nothing? && Unheard(s, rest).Halt? {
      FlushReplayed(rest, more);
    } else {
      Empties(more);
    }
  }

  /** The calls that a run makes are a run of the program on calls, with the same outcome. */
  lemma {:induction false} RunReplayed(s: State, destsz: int, input: seq<Item>)
    ensures SessionOfCalls(s, destsz, RunCalls(s, destsz, input)) == Some(Session(s, destsz, input).(rest := []))
    decreases Budget(s, input)
  {
    hide TurnOfCalls, TurnCalls, Turn, Budget;
    var t := Turn(s, destsz, input);
    SessionTurn(s, destsz, input);
    if t.Halt? {
      TurnReplayed(s, destsz, input, []);
      Empties(TurnCalls(s, input));
    } else {
      TurnShrinks(s, destsz, input);
      RunReplayed(t.next, destsz, t.rest);
      TurnReplayed(s, destsz, input, RunCalls(t.next, destsz, t.rest));
    }
  }

  // ----- The same on the line that the calls make up -----

  function Supply(calls: seq<Call>, more: seq<Item>): seq<Item> {
    Uart.LineOf(calls) + more
  }

  lemma LineNext(calls: seq<Call>, more: seq<Item>)
    requires calls != []
    ensures Supply(calls, more) == Uart.ItemsOf(calls[0]) + Supply(calls[1..], more)
  {
    Associates(Uart.ItemsOf(calls[0]), Uart.LineOf(calls[1..]), more);
  }

  lemma ReadNext(calls: seq<Call>, more: seq<Item>)
    requires Reads(calls)
    ensures Supply(calls, more) != [] && Next(Supply(calls, more)) == calls[0].result
    ensures Supply(calls, more)[1..] == Rest(Supply(calls, more)) == Supply(calls[1..], more)
    ensures calls[0].result.Some? ==> Supply(calls, more)[0] == Byte(calls[0].result.value)
  {
    LineNext(calls, more);
    var i: Item := match calls[0].result case None => Timeout case Some(b) => Byte(b);
    TakesBack([i], Supply(calls[1..], more));
  }

  lemma {:induction false} FlushOnLine(calls: seq<Call>, more: seq<Item>)
    requires AfterFlush(calls).Some?
    ensures Flushed(Supply(calls, more)) == Supply(AfterFlush(calls).value, more)
  {
    ReadNext(calls, more);
    if calls[0].result.Some? {
      FlushOnLine(calls[1..], more);
    }
  }

  lemma FirstOnLine(calls: seq<Call>, more: seq<Item>)
    requires FirstOfCalls(calls).Some?
    ensures var (f, rest) := FirstOfCalls(calls).value;
            ReadFirst(Supply(calls, more)) == (f, Supply(rest, more))
  {
    ReadNext(calls, more);
    if calls[0].result == Some(EOT) {
      FlushOnLine(calls[1..], more);
    } else if calls[0].result == Some(CAN) {
      ReadNext(calls[1..], more);
      assert calls[1..][1..] == calls[2..];
      if calls[1].result == Some(CAN) {
        FlushOnLine(calls[2..], more);
      }
    }
  }

  lemma FrameOnLine(calls: seq<Call>, n: nat, more: seq<Item>)
    requires calls != [] && IsFrameCall(calls[0], n)
    ensures Taken(Supply(calls, more), n) == calls[0].bytes
    ensures Untaken(Supply(calls, more), n) == Supply(calls[1..], more)
  {
    var bytes, rest := calls[0].bytes, Supply(calls[1..], more);
    LineNext(calls, more);
    if |bytes| < n {
      assert Uart.ItemsOf(calls[0]) == Noise(bytes, 1);
      TakenShort(bytes, 1, rest, n);
      NoiseTail([], 0, rest);
    } else {
      Empties(Items(bytes));
      TakenMessage(bytes, rest);
    }
  }

  /** A turn on the line does what the turn on the calls does, and stops where it stops. */
  lemma TurnOnLine(s: State, destsz: int, calls: seq<Call>, more: seq<Item>)
    requires TurnOfCalls(s, destsz, calls).Some?
    ensures var (t, rest) := TurnOfCalls(s, destsz, calls).value;
            var input := Supply(rest, more);
            Turn(s, destsz, Supply(calls, more)) == match t
                                                  case Continue(next, sent, log, _) => Continue(next, sent, log, input)
                                                  case Halt(ret, next, sent, log, _) =>
                                                    Halt(ret, next, sent, log, input)
  {
    var (f, rest) := FirstOfCalls(calls).value;
    FirstOnLine(calls, more);
    match f
    case Nothing =>
      if Unheard(s, []).Halt? {
        FlushOnLine(rest, more);
      }
    case Header(_, size) =>
      FrameOnLine(rest, BodySize(Mode(s), size), more);
      var e := Judged(s, size, rest[0].bytes);
      if e.verdict.Rejected? || e.verdict.Exhausted? {
        FlushOnLine(rest[1..], more);
      }
    case _ =>
  }

  /** The calls a run makes are a run on the line they make up, which reads exactly that line. */
  lemma {:induction false} CallsAreSession(s: State, destsz: int, calls: seq<Call>, more: seq<Item>)
    requires SessionOfCalls(s, destsz, calls).Some?
    ensures Session(s, destsz, Supply(calls, more)) == SessionOfCalls(s, destsz, calls).value.(rest := more)
    decreases |calls|
  {
    var (t, rest) := TurnOfCalls(s, destsz, calls).value;
    TurnOnLine(s, destsz, calls, more);
    SessionTurn(s, destsz, Supply(calls, more));
    if t.Continue? {
      CallsAreSession(t.next, destsz, rest, more);
    } else {
      Empties(more);
    }
  }

  /**
   * From the interrupt handler to the result of a transfer: after any interleaving, if the last of the calls are those
   * of a run on `input`, then they are those of the same run on the line they make up, and what this run is given are
   * the kept arrivals in order, from where the calls before it stopped.
   */
  lemma TransferOnSerial(u: Uart.State, earlier: seq<Call>, destsz: int, input: seq<Item>, more: seq<Item>)
    requires Uart.Reachable(u) && u.calls == earlier + RunCalls(START, destsz, input)
    ensures var calls, o := RunCalls(START, destsz, input), Session(START, destsz, input);
            && Session(START, destsz, Supply(calls, more)) == o.(rest := more)
            && SessionOfCalls(START, destsz, calls) == Some(o.(rest := []))
            && Uart.Delivered(earlier) + Uart.BytesOf(Uart.LineOf(calls)) <= Uart.Kept(u.log)
  {
    var calls := RunCalls(START, destsz, input);
    RunReplayed(START, destsz, input);
    CallsAreSession(START, destsz, calls, more);
    Uart.ReachableInv(u);
    Uart.BytesOfLine(calls);
    DeliveredConcat(earlier, calls);
  }

  lemma {:induction false} DeliveredConcat(a: seq<Call>, b: seq<Call>)
    ensures Uart.Delivered(a + b) == Uart.Delivered(a) + Uart.Delivered(b)
  {
    hide Uart.Returned;
    if b == [] {
      Empties(a);
      Empties(Uart.Delivered(a));
    } else {
      var n := |b| - 1;
      DeliveredConcat(a, b[..n]);
      assert (a + b)[..|a| + n] == a + b[..n];
      Associates(Uart.Delivered(a), Uart.Delivered(b[..n]), Uart.Returned(b[n]));
    }
  }
}
