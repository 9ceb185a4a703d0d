/** What the receiver says on the wire, in bytes and figures: turns, repeats, silences and whole transfers. */
module Protocol {
  import opened Crc
  import opened Sequences
  import opened Wire
  import opened Receiver
  import opened Ledger
  import opened Runs
  import opened Sender
  import opened StopAndWait
  import opened Transfers

  // ----- One frame -----

  /** A header byte and the size of the payload it announces. */
  predicate Announces(header: byte, size: nat) {
    (header == 0x01 && size == 128) || (header == 0x02 && size == 1024)
  }

  /** A frame as it is sent: header, number, complement, payload, and the CRC high byte first or the sum modulo 256. */
  function Frame(isCrc: bool, num: byte, payload: seq<byte>): seq<byte> {
    [if |payload| == 128 then 0x01 else 0x02, num, 255 - num] + payload
    + if isCrc then Trailer(true, payload) else [Sum(payload) % 256]
  }

  lemma ItemsSplit(a: seq<byte>, b: seq<byte>)
    ensures Items(a + b) == Items(a) + Items(b)
  {
  }

  lemma FrameBytes(isCrc: bool, num: byte, payload: seq<byte>)
    requires Block(payload)
    ensures FrameItems(isCrc, num, payload) == Items(Frame(isCrc, num, payload))
    ensures |Frame(isCrc, num, payload)| == |payload| + if isCrc then 5 else 4
    ensures Announces(Frame(isCrc, num, payload)[0], |payload|)
  {
    var h := HeaderByte(payload);
    assert Frame(isCrc, num, payload) == [h] + Body(isCrc, num, payload);
    ItemsSplit([h], Body(isCrc, num, payload));
    assert Items([h]) == [Byte(h)];
  }

  /** What the code sends before an attempt. */
  function Asks(s: State): seq<byte> {
    if s.trychar == 0 then [] else [s.trychar]
  }

  /** How many bytes of a payload are delivered. */
  function Fitting(destsz: int, len: int, size: nat): nat {
    if destsz <= len then 0 else if destsz - len < size then destsz - len else size
  }

  /** A complete frame on the line: any number, complement, payload and trailer. */
  function OnLine(header: byte, num: byte, inv: byte, rest: seq<byte>, more: seq<Item>): seq<Item> {
    Items([header, num, inv] + rest) + more
  }

  lemma OnLineBody(header: byte, num: byte, inv: byte, rest: seq<byte>, more: seq<Item>)
    ensures OnLine(header, num, inv, rest, more) == [Byte(header)] + Items([num, inv] + rest) + more
  {
    assert [header, num, inv] + rest == [header] + ([num, inv] + rest);
    ItemsSplit([header], [num, inv] + rest);
    assert Items([header]) == [Byte(header)];
  }

  /** The judgement of a complete frame. */
  lemma FrameJudged(s: State, num: byte, inv: byte, payload: seq<byte>, trailer: seq<byte>)
    requires |trailer| == if s.useCrc || s.trychar == 0x43 then 2 else 1
    ensures var isCrc := s.useCrc || s.trychar == 0x43;
            var body := [num, inv] + (payload + trailer);
            var good := num + inv == 255 && trailer == Trailer(isCrc, payload);
            && |body| == BodySize(isCrc, |payload|) && Mode(s) == isCrc
            && body[2..2 + |payload|] == payload
            && Judge(s, |payload|, body) ==
               if good && num == s.packetno then New
               else if good && num == s.packetno - 1 then (if s.retrans <= 1 then Exhausted else Duplicate)
               else Rejected
  {
    var isCrc := s.useCrc || s.trychar == 0x43;
    BodyWellFormed(isCrc, num, inv, payload + trailer);
    TrailerIsUnique(isCrc, payload, trailer);
    assert ([num, inv] + (payload + trailer))[2..2 + |payload|] == payload;
  }

  /**
   * A turn on any complete frame. A good one with the number expected is answered 06 and delivered as far as it fits;
   * a good repeat is answered 06 while the budget lasts, and the one that uses it up with 18 18 18 and -3; anything
   * else is answered 15 after the line has fallen silent.
   */
  lemma TurnOnFrame(s: State, destsz: int, header: byte, num: byte, inv: byte, payload: seq<byte>,
                    trailer: seq<byte>, more: seq<Item>)
    requires Announces(header, |payload|)
    requires |trailer| == if s.useCrc || s.trychar == 0x43 then 2 else 1
    ensures var t := Turn(s, destsz, OnLine(header, num, inv, payload + trailer, more));
            var isCrc := s.useCrc || s.trychar == 0x43;
            var good := num + inv == 255 && trailer == Trailer(isCrc, payload);
            var heard := s.(useCrc := isCrc, trychar := 0, retry := 0);
            && |t.log| == 1 && Payload(t.log[0]) == payload && (t.log[0].verdict.New? <==> good && num == s.packetno)
            && if good && num == s.packetno then
                 t == Continue(State(0, isCrc, (num + 1) % 256, 25, s.len + Fitting(destsz, s.len, |payload|), 0),
                               Asks(s) + [0x06], t.log, more)
               else if good && num == s.packetno - 1 && s.retrans > 1 then
                 t == Continue(heard.(retrans := s.retrans - 1), Asks(s) + [0x06], t.log, more)
               else if good && num == s.packetno - 1 then
                 t == Halt(-3, heard.(retrans := s.retrans - 1), Asks(s) + [0x18, 0x18, 0x18], t.log, Flushed(more))
               else t == Continue(heard, Asks(s) + [0x15], t.log, Flushed(more))
  {
    hide Judge, Turn, Items, Trailer, Flushed;
    var body := [num, inv] + (payload + trailer);
    FrameJudged(s, num, inv, payload, trailer);
    OnLineBody(header, num, inv, payload + trailer, more);
    TurnReadsFrame(s, destsz, payload, body, more);
  }

  lemma ShortJudged(s: State, destsz: int, size: nat, body: seq<byte>)
    requires |body| < BodySize(Mode(s), size)
    ensures var e := Judged(s, size, body);
            && e.verdict.Rejected?
            && Update(s, destsz, e) == s.(useCrc := Mode(s), trychar := 0, retry := 0)
  {
  }

  /** A frame cut short after its header by silence is answered 15 in the same way, whatever it holds. */
  lemma TurnOnShortFrame(s: State, destsz: int, header: byte, size: nat, body: seq<byte>, more: seq<Item>)
    requires Announces(header, size) && |body| < size + if s.useCrc || s.trychar == 0x43 then 4 else 3
    ensures var t := Turn(s, destsz, Noise([header] + body, 1) + more);
            && |t.log| == 1 && !t.log[0].verdict.New?
            && t == Continue(s.(useCrc := s.useCrc || s.trychar == 0x43, trychar := 0, retry := 0),
                             Asks(s) + [0x15], t.log, Flushed(more))
  {
    hide Noise, Taken, Untaken, Flushed, Update;
    NoiseTail([header] + body, 1, more);
    assert ([header] + body)[1..] == body;
    TakenShort(body, 1, more, BodySize(Mode(s), size));
    NoiseTail([], 0, more);
    ShortJudged(s, destsz, size, body);
  }

  // ----- Everything else -----

  /** An attempt that brings nothing: sixteen in a row change 43 to 15, or end the run with 18 18 18 and -2. */
  function Missed(s: State, rest: seq<Item>): Step {
    if s.retry < 15 then Continue(s.(retry := s.retry + 1), Asks(s), [], rest)
    else if s.trychar == 0x43 then Continue(s.(trychar := 0x15, retry := 0), Asks(s), [], rest)
    else Halt(-2, s, Asks(s) + [0x18, 0x18, 0x18], [], Flushed(rest))
  }

  /**
   * A turn on anything but a frame: 04 ends the run and 18 18 cancels it, both answered 06; 18 takes another byte or
   * a time-out with it; all other bytes, a time-out and the end of the input bring nothing.
   */
  lemma TurnOnOther(s: State, destsz: int, first: Item, rest: seq<Item>)
    requires first != Byte(0x01) && first != Byte(0x02)
    ensures var t := Turn(s, destsz, [first] + rest);
            if first == Byte(0x04) then t == Halt(s.len, s, Asks(s) + [0x06], [], Flushed(rest))
            else if first == Byte(0x18) then
              if rest != [] && rest[0] == Byte(0x18) then t == Halt(-1, s, Asks(s) + [0x06], [], Flushed(rest[1..]))
              else t == Missed(s, if rest == [] then [] else rest[1..])
            else t == Missed(s, rest)
    ensures Turn(s, destsz, []) == Missed(s, [])
  {
    assert ([first] + rest)[1..] == rest;
  }

  /** What a run begins with: it asks with 43 for block 1, with 25 for the repeats. */
  lemma StartsWith()
    ensures START == State(0x43, false, 1, 25, 0, 0) && Asks(START) == [0x43]
  {
  }

  // ----- Repeats -----

  /** `n` times the byte 06. */
  function Acks(n: nat): (r: seq<byte>)
    ensures |r| == n
  {
    seq(n, _ => 0x06)
  }

  /** The same frame `n` times. */
  function Repeats(frame: seq<byte>, n: nat): seq<byte> {
    if n == 0 then [] else frame + Repeats(frame, n - 1)
  }

  /** A good frame as `TurnOnFrame` has it. */
  lemma FrameOnLine(isCrc: bool, num: byte, payload: seq<byte>, rest: seq<byte>, more: seq<Item>)
    requires Block(payload)
    ensures var f := Frame(isCrc, num, payload);
            Items(f + rest) + more
            == OnLine(f[0], num, 255 - num, payload + Trailer(isCrc, payload), Items(rest) + more)
  {
    var f := Frame(isCrc, num, payload);
    assert f == [f[0], num, 255 - num] + (payload + Trailer(isCrc, payload));
    ItemsSplit(f, rest);
    Associates(Items(f), Items(rest), more);
  }

  /** From any state after a block has been accepted: repeats of it use up the budget one by one. */
  lemma {:induction false} BudgetOfRepeats(s: State, destsz: int, payload: seq<byte>, n: nat, more: seq<Item>)
    requires Block(payload) && s.trychar == 0 && s.packetno > 0 && 0 < s.retrans && n <= s.retrans
    ensures var f := Frame(s.useCrc, s.packetno - 1, payload);
            var o := Session(s, destsz, Items(Repeats(f, n)) + more);
            && (n < s.retrans ==>
                  var next := s.(retrans := s.retrans - n, retry := if n == 0 then s.retry else 0);
                  var after := Session(next, destsz, more);
                  && o.ret == after.ret && o.sent == Acks(n) + after.sent && o.rest == after.rest
                  && Accepted(o.log) == Accepted(after.log))
            && (n == s.retrans ==> o.ret == -3 && o.sent == Acks(n - 1) + [0x18, 0x18, 0x18] && Accepted(o.log) == [])
    decreases n
  {
    hide Turn, Trailer, Frame, Accepted, Flushed, Items, Session, OnLine;
    var f := Frame(s.useCrc, s.packetno - 1, payload);
    if n == 0 {
      NothingOnLine(more);
      Empties(Session(s, destsz, more).sent);
    } else {
      var input, rest := Items(Repeats(f, n)) + more, Items(Repeats(f, n - 1)) + more;
      FrameOnLine(s.useCrc, s.packetno - 1, payload, Repeats(f, n - 1), more);
      FrameBytes(s.useCrc, s.packetno - 1, payload);
      TurnOnFrame(s, destsz, f[0], s.packetno - 1, 256 - s.packetno, payload, Trailer(s.useCrc, payload), rest);
      SessionTurn(s, destsz, input);
      var t := Turn(s, destsz, input);
      OneNotAccepted(t.log);
      if s.retrans > 1 {
        BudgetOfRepeats(t.next, destsz, payload, n - 1, more);
        LogConcat(t.log, Session(t.next, destsz, t.rest).log);
      }
    }
  }

  lemma NothingOnLine(more: seq<Item>)
    ensures Items([]) + more == more
  {
  }

  lemma OneNotAccepted(log: seq<Entry>)
    requires |log| == 1 && !log[0].verdict.New?
    ensures Accepted(log) == []
  {
    assert log[..0] == [];
  }

  /**
   * After an accepted block exactly 24 repeats of it are answered 06, and the 25th ends the run with 18 18 18 and -3.
   * The number 255 is excepted, after which 0 is expected, which has no predecessor.
   */
  lemma RepeatsAfterBlock(s: State, destsz: int, payload: seq<byte>, n: nat, more: seq<Item>)
    requires Block(payload) && s.packetno < 255 && n <= 25
    ensures var isCrc := s.useCrc || s.trychar == 0x43;
            var f := Frame(isCrc, s.packetno, payload);
            var o := Session(s, destsz, Items(f + Repeats(f, n)) + more);
            var after := State(0, isCrc, s.packetno + 1, 25 - n, s.len + Fitting(destsz, s.len, |payload|), 0);
            && (n <= 24 ==>
                  var later := Session(after, destsz, more);
                  && o.ret == later.ret && o.sent == Asks(s) + [0x06] + (Acks(n) + later.sent) && o.rest == later.rest
                  && Accepted(o.log) == [payload] + Accepted(later.log))
            && (n == 25 ==>
                  && o.ret == -3 && o.sent == Asks(s) + [0x06] + (Acks(24) + [0x18, 0x18, 0x18])
                  && Accepted(o.log) == [payload])
  {
    hide Turn, Session, Trailer, Frame, Accepted, Flushed;
    var isCrc := s.useCrc || s.trychar == 0x43;
    var f := Frame(isCrc, s.packetno, payload);
    var input, rest := Items(f + Repeats(f, n)) + more, Items(Repeats(f, n)) + more;
    FrameOnLine(isCrc, s.packetno, payload, Repeats(f, n), more);
    FrameBytes(isCrc, s.packetno, payload);
    TurnOnFrame(s, destsz, f[0], s.packetno, 255 - s.packetno, payload, Trailer(isCrc, payload), rest);
    SessionTurn(s, destsz, input);
    var t := Turn(s, destsz, input);
    OneAccepted(t.log);
    BudgetOfRepeats(t.next, destsz, payload, n, more);
    LogConcat(t.log, Session(t.next, destsz, t.rest).log);
    Empties([payload]);
  }

  lemma OneAccepted(log: seq<Entry>)
    requires |log| == 1 && log[0].verdict.New?
    ensures Accepted(log) == [Payload(log[0])]
  {
    assert log[..0] == [];
  }

  lemma EndOfRun(s: State, destsz: int, more: seq<Item>)
    ensures var o := Session(s, destsz, [Byte(0x04)] + more);
            o.ret == s.len && o.sent == Asks(s) + [0x06] && Accepted(o.log) == []
  {
    TurnOnOther(s, destsz, Byte(0x04), more);
  }

  /** The same from the start: block 1, its repeats, and the end of the transfer if it comes to that. */
  lemma RepeatsOfFirst(destsz: int, payload: seq<byte>, n: nat, more: seq<Item>)
    requires Block(payload) && n <= 25
    ensures var f := Frame(true, 1, payload);
            var o := Session(START, destsz, Items(f + Repeats(f, n)) + ([Byte(0x04)] + more));
            && Accepted(o.log) == [payload]
            && if n <= 24 then o.ret == Fitting(destsz, 0, |payload|) && o.sent == [0x43] + Acks(n + 2)
               else o.ret == -3 && o.sent == [0x43] + Acks(25) + [0x18, 0x18, 0x18]
  {
    hide Session, Frame, Accepted, Repeats;
    StartsWith();
    RepeatsAfterBlock(START, destsz, payload, n, [Byte(0x04)] + more);
    if n <= 24 {
      var after := State(0, true, 2, 25 - n, Fitting(destsz, 0, |payload|), 0);
      EndOfRun(after, destsz, more);
      Empties([payload]);
      AcksJoin(n, 1);
      AcksJoin(1, n + 1);
      Empties<byte>([0x06]);
      Associates([0x43], [0x06], Acks(n) + [0x06]);
    } else {
      AcksJoin(1, 24);
      AssociatesFour([0x43], [0x06], Acks(24), [0x18, 0x18, 0x18]);
      Associates([0x43], [0x06], Acks(24));
    }
  }

  lemma AcksJoin(a: nat, b: nat)
    ensures Acks(a) + Acks(b) == Acks(a + b)
    ensures Acks(1) == [0x06]
  {
  }

  // ----- Silence -----

  /**
   * After the first header a run ends for want of another one exactly when the attempts left of sixteen bring none, and
   * it then sends 18 18 18 only.
   */
  lemma {:induction false} QuietIff(s: State, destsz: int, input: seq<Item>)
    requires s.trychar == 0 && s.retry < 16 && s.len >= 0
    ensures var o := Session(s, destsz, input);
            && (o.log == [] && o.ret == -2 <==> Fruitless(input, 16 - s.retry))
            && (Fruitless(input, 16 - s.retry) ==> o.sent == [0x18, 0x18, 0x18] && o.final.len == s.len)
    decreases Budget(s, input)
  {
    var t := Turn(s, destsz, input);
    SessionTurn(s, destsz, input);
    TurnShrinks(s, destsz, input);
    TurnReplies(s, destsz, input);
    if ReadFirst(input).0.Nothing? && t.Continue? {
      QuietIff(t.next, destsz, t.rest);
      Empties(Session(t.next, destsz, t.rest).log);
      Empties(Session(t.next, destsz, t.rest).sent);
    }
  }

  /** A run that hears nothing asks sixteen times with 43 and sixteen times with 15, and ends with 18 18 18 and -2. */
  lemma NothingHeard(destsz: int, input: seq<Item>)
    ensures var o := Session(START, destsz, input);
            && (o.log == [] && o.ret == -2 <==> Fruitless(input, 32))
            && (Fruitless(input, 32) ==>
                  o.sent == seq(16, _ => 0x43) + seq(16, _ => 0x15) + [0x18, 0x18, 0x18])
  {
    SilentRunIff(destsz, input);
    assert Solicitations(32) == seq(16, _ => 0x43) + seq(16, _ => 0x15);
  }

  // ----- Whole transfers -----

  /** The frames of `blocks`, numbered from 1 on modulo 256, in bytes. */
  function Frames(isCrc: bool, blocks: seq<seq<byte>>): seq<byte> {
    if blocks == [] then []
    else
      var n := |blocks| - 1;
      Frames(isCrc, blocks[..n]) + Frame(isCrc, (n + 1) % 256, blocks[n])
  }

  lemma {:induction false} FramesOnLine(isCrc: bool, blocks: seq<seq<byte>>)
    requires Blocks(blocks)
    ensures FrameStream(isCrc, blocks) == Items(Frames(isCrc, blocks))
  {
    if blocks != [] {
      var n := |blocks| - 1;
      FramesOnLine(isCrc, blocks[..n]);
      FrameBytes(isCrc, (n + 1) % 256, blocks[n]);
      ItemsSplit(Frames(isCrc, blocks[..n]), Frame(isCrc, (n + 1) % 256, blocks[n]));
    }
  }

  /**
   * A complete transfer in bytes: after `k` silent attempts the frames of all blocks and 04. The receiver asks `k` + 1
   * times, answers 06 to every frame and to 04, and delivers the blocks in order as far as they fit.
   */
  lemma TransferBytes(blocks: seq<seq<byte>>, destsz: int, k: nat, more: seq<Item>)
    requires Blocks(blocks) && k < 32
    ensures var o := Session(START, destsz, Silence(k) + Items(Frames(k < 16, blocks)) + [Byte(0x04)] + more);
            && Delivered(o.log, destsz) == Truncated(Concat(blocks), destsz)
            && o.ret == |Truncated(Concat(blocks), destsz)|
            && o.sent == seq(k + 1, i => if i < 16 then 0x43 else 0x15) + Acks(|blocks| + 1)
  {
    CompleteTransfer(blocks, destsz, k, more);
    FramesOnLine(k < 16, blocks);
    assert Solicitations(k + 1) == seq(k + 1, i => if i < 16 then 0x43 else 0x15);
    assert Acknowledgements(|blocks|) + [ACK] == Acks(|blocks| + 1);
    Associates(Solicitations(k + 1), Acknowledgements(|blocks|), [ACK]);
  }
}
