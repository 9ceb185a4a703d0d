/** `xmodemReceive` and what it calls, as the code does it: step by step over the line, the buffer, flash and hash. */
module Xmodem {
  import opened Crc
  import opened Sequences
  import opened Wire
  import opened Receiver
  import opened Ledger
  import opened Device

  const XMODEM_PACKET_END: int := -4

  /** `flash` with `data` written at `at`. */
  function Patched(flash: seq<byte>, at: nat, data: seq<byte>): (r: seq<byte>)
    requires at + |data| <= |flash|
    ensures |r| == |flash|
  {
    flash[..at] + data + flash[at + |data|..]
  }

  lemma PatchedTwice(flash: seq<byte>, at: nat, a: seq<byte>, b: seq<byte>)
    requires at + |a| + |b| <= |flash|
    ensures Patched(Patched(flash, at, a), at + |a|, b) == Patched(flash, at, a + b)
  {
  }

  /** What a write leaves: the data in its place, and everything before and behind it as it was. */
  lemma PatchedParts(flash: seq<byte>, at: nat, data: seq<byte>)
    requires at + |data| <= |flash|
    ensures var r := Patched(flash, at, data);
            && |r| == |flash|
            && r[at..at + |data|] == data
            && r[..at] == flash[..at]
            && r[at + |data|..] == flash[at + |data|..]
  {
  }

  /** The target of an upload: `xmodemReceiveCBArg` and the flash behind `HotaWrite`. */
  class Updater {
    const start: int
    const flash: array<byte>
    var hashed: seq<byte>  // what the running SHA-256 has been fed

    constructor (start: int, flash: array<byte>)
      ensures this.start == start && this.flash == flash && hashed == []
    {
      this.start, this.flash, this.hashed := start, flash, [];
    }

    function Base(): nat {
      if start > 0 then start else 0
    }

    /** `xmodemReceiveCB`. */
    method Receive(buf: array<byte>, off: nat, addr: nat, len: nat)
      requires buf != flash
      requires off + len <= buf.Length
      requires Base() + addr + len <= flash.Length
      modifies this`hashed, flash
      ensures hashed == old(hashed) + buf[off..off + len]
      ensures flash[..] == Patched(old(flash[..]), Base() + addr, buf[off..off + len])
      ensures var offset := (if start > 0 then start else 0) + addr;
              && (forall k :: offset <= k < offset + len ==> flash[k] == buf[off + k - offset])
              && (forall k :: 0 <= k < flash.Length && !(offset <= k < offset + len) ==> flash[k] == old(flash[k]))
    {
      if len > 0 {
        hashed := hashed + buf[off..off + len];
        var offset := (if start > 0 then start else 0) + addr;
        forall i | 0 <= i < len {
          flash[offset + i] := buf[off + i];
        }
      }
    }
  }

  /** `get_first_byte`: the payload size of the header found, 0 for none, or the code that ends the run. */
  method GetFirstByte(line: Line) returns (bufsz: int, c: int)
    modifies line
    ensures var (first, rest) := ReadFirst(old(line.input));
            && line.input == rest
            && line.calls == old(line.calls) + FirstCalls(old(line.input))
            && line.sent == (if first.End? || first.Cancelled? then old(line.sent) + [ACK] else old(line.sent))
            && bufsz == (match first
                         case Nothing => 0
                         case Header(_, size) => size
                         case End => XMODEM_PACKET_END
                         case Cancelled => ERROR_CANCEL)
            && (first.Header? ==> c == first.c)
  {
    hide FlushCalls, Flushed;
    c := line.InByte();
    if c >= 0 {
      if c == SOH {
        return 128, c;
      } else if c == STX {
        return 1024, c;
      } else if c == EOT {
        line.FlushInput();
        line.OutByte(ACK);
        return XMODEM_PACKET_END, c;
      } else if c == CAN {
        c := line.InByte();
        if c == CAN {
          line.FlushInput();
          line.OutByte(ACK);
          return ERROR_CANCEL, c;
        }
      }
    }
    bufsz := 0;
  }

  /** What an entry adds to the delivered bytes. */
  function Portion(e: Entry, destsz: int, len: int): seq<byte> {
    if e.verdict.New? then Slice(destsz, len, Payload(e)) else []
  }

  /** Flash and hash have both been given `data`, at position `len` of the upload, and are otherwise as before. */
  ghost predicate Appended(sink: Updater, hashed: seq<byte>, flash: seq<byte>, len: nat, data: seq<byte>)
    reads sink, sink.flash
  {
    && sink.Base() + len + |data| <= |flash|
    && sink.hashed == hashed + data
    && sink.flash[..] == Patched(flash, sink.Base() + len, data)
  }

  lemma NothingAppended(sink: Updater, len: nat)
    requires sink.Base() + len <= sink.flash.Length
    ensures Appended(sink, sink.hashed, sink.flash[..], len, [])
  {
    PatchedNothing(sink.flash[..], sink.Base() + len);
  }

  /** The part of `packet_check` that hands a new block on, as far as it fits. */
  method Deliver(xbuff: array<byte>, destsz: int, sink: Updater, bufsz: nat, len: nat) returns (len': nat)
    requires xbuff != sink.flash && 3 + bufsz <= xbuff.Length
    requires sink.Base() + len + |Slice(destsz, len, xbuff[3..3 + bufsz])| <= sink.flash.Length
    modifies sink`hashed, sink.flash
    ensures var slice := Slice(destsz, len, old(xbuff[3..3 + bufsz]));
            len' == len + |slice| && Appended(sink, old(sink.hashed), old(sink.flash[..]), len, slice)
  {
    len' := len;
    var count := destsz - len;
    if count > bufsz {
      count := bufsz;
    }
    NothingAppended(sink, len);
    if count > 0 {
      assert Slice(destsz, len, xbuff[3..3 + bufsz]) == xbuff[3..3 + count];
      sink.Receive(xbuff, 3, len, count);
      len' := len + count;
    }
  }

  /** The end of `packet_check`: an accepted frame uses up one of the repeats and is acknowledged, or ends the run. */
  method Answer(line: Line, retrans: int) returns (res: int, retrans': int)
    modifies line
    ensures retrans' == retrans - 1
    ensures if retrans' <= 0
            then res == ERROR_RETRANS_LIMIT
                 && line.input == Flushed(old(line.input)) && line.sent == old(line.sent) + ABORT
            else res == 0 && line.input == old(line.input) && line.sent == old(line.sent) + [ACK]
    ensures line.calls == old(line.calls) + if retrans' <= 0 then FlushCalls(old(line.input)) else []
  {
    retrans' := retrans - 1;
    if retrans' <= 0 {
      AbortSent(line.sent);
      line.FlushInput();
      line.OutByte(CAN);
      line.OutByte(CAN);
      line.OutByte(CAN);
      return ERROR_RETRANS_LIMIT, retrans';
    }
    line.OutByte(ACK);
    res := 0;
  }

  /** The payload of a frame starts at the fourth byte of the buffer. */
  lemma PayloadInBuffer(xbuff: array<byte>, n: nat, size: nat)
    requires 1 + n <= xbuff.Length && 2 + size <= n
    ensures xbuff[1..1 + n][2..2 + size] == xbuff[3..3 + size]
  {
    var body, payload := xbuff[1..1 + n][2..2 + size], xbuff[3..3 + size];
    forall k | 0 <= k < size ensures body[k] == payload[k] {
    }
  }

  /** The condition of `packet_check`. */
  method Passes(xbuff: array<byte>, bufsz: nat, useSrc: bool, packetno: byte, ghost s: State) returns (ok: bool)
    requires 1 + BodySize(useSrc, bufsz) <= xbuff.Length
    requires useSrc == Mode(s) && s.packetno == packetno
    ensures var body := xbuff[1..1 + BodySize(useSrc, bufsz)];
            && (ok <==> !Judge(s, bufsz, body).Rejected?)
            && (ok ==> (Judge(s, bufsz, body).New? <==> xbuff[1] == packetno))
  {
    ghost var body := xbuff[1..1 + BodySize(useSrc, bufsz)];
    assert body[2..] == xbuff[3..3 + bufsz + TrailerSize(useSrc)];
    ok := xbuff[1] == 255 - xbuff[2] && (xbuff[1] == packetno || xbuff[1] as int == packetno as int - 1);
    if ok {
      ok := Check(useSrc, xbuff, 3, bufsz);
    }
  }

  /** `packet_check` on a completely read frame; the variables it changes through pointers are returned. */
  method PacketCheck(xbuff: array<byte>, destsz: int, sink: Updater, bufsz: nat, useSrc: bool, line: Line,
                     packetno: byte, retrans: int, len: nat, ghost s: State)
    returns (res: int, packetno': byte, retrans': int, len': nat, ghost e: Entry)
    requires xbuff != sink.flash
    requires 1 + BodySize(useSrc, bufsz) <= xbuff.Length
    requires useSrc == Mode(s) && s.packetno == packetno && s.retrans == retrans > 0 && s.len == len
    requires var e := Judged(s, bufsz, xbuff[1..1 + BodySize(useSrc, bufsz)]);
             sink.Base() + len + |Portion(e, destsz, len)| <= sink.flash.Length
    modifies line, sink`hashed, sink.flash
    ensures e == Judged(s, bufsz, old(xbuff[1..1 + BodySize(useSrc, bufsz)]))
    ensures Update(s, destsz, e) == State(0, useSrc, packetno', retrans', len', 0)
    ensures len' == len + |Portion(e, destsz, len)|
    ensures res == (match e.verdict
                    case New => 0
                    case Duplicate => 0
                    case Exhausted => ERROR_RETRANS_LIMIT
                    case Rejected => 1)
    ensures line.sent == if e.verdict.Rejected? then old(line.sent) else old(line.sent) + Reply(e.verdict)
    ensures line.input == (if e.verdict.Exhausted? then Flushed(old(line.input)) else old(line.input))
    ensures line.calls == old(line.calls) + if e.verdict.Exhausted? then FlushCalls(old(line.input)) else []
    ensures Appended(sink, old(sink.hashed), old(sink.flash[..]), len, Portion(e, destsz, len))
  {
    hide Patched, WellFormed;
    packetno', retrans', len' := packetno, retrans, len;
    ghost var body := xbuff[1..1 + BodySize(useSrc, bufsz)];
    e := Judged(s, bufsz, body);
    PayloadInBuffer(xbuff, BodySize(useSrc, bufsz), bufsz);
    NothingAppended(sink, len);
    var ok := Passes(xbuff, bufsz, useSrc, packetno, s);
    if ok {
      if xbuff[1] == packetno {
        len' := Deliver(xbuff, destsz, sink, bufsz, len);
        packetno' := (packetno + 1) % 256;
        retrans' := MAX_RETRANS + 1;
      }
      res, retrans' := Answer(line, retrans');
      return res, packetno', retrans', len', e;
    } else {
      return 1, packetno', retrans', len', e;
    }
  }

  lemma AbortSent(sent: seq<byte>)
    ensures sent + [CAN] + [CAN] + [CAN] == sent + ABORT
  {
  }

  lemma PatchedNothing(flash: seq<byte>, at: nat)
    requires at <= |flash|
    ensures Patched(flash, at, []) == flash
  {
  }

  // ----- The main loop -----

  /** A run with outcome `o` has sent `sent`, logged `log`, and goes on from `s` with `input`. */
  ghost predicate Tracks(o: Outcome, sent: seq<byte>, log: seq<Entry>, s: State, destsz: int, input: seq<Item>) {
    o == Prefixed(sent, log, Session(s, destsz, input))
  }

  lemma TracksTurn(o: Outcome, sent: seq<byte>, log: seq<Entry>, s: State, destsz: int, input: seq<Item>)
    requires Tracks(o, sent, log, s, destsz, input)
    ensures var t := Turn(s, destsz, input);
            if t.Halt? then o == Outcome(t.ret, t.next, sent + t.sent, log + t.log, t.rest)
            else Tracks(o, sent + t.sent, log + t.log, t.next, destsz, t.rest)
  {
    var t := Turn(s, destsz, input);
    if t.Continue? {
      PrefixedTwice(sent, t.sent, log, t.log, Session(t.next, destsz, t.rest));
    }
  }

  /** The receiver stands at `s` with `input` to come, `sent` and `log` behind it, on its way to outcome `o`. */
  ghost predicate Stands(o: Outcome, sent: seq<byte>, log: seq<Entry>, s: State, destsz: int, input: seq<Item>) {
    Tracks(o, sent, log, s, destsz, input) && Agrees(s, log, destsz)
  }

  lemma StandsStart(destsz: int, input: seq<Item>)
    ensures Stands(Session(START, destsz, input), [], [], START, destsz, input)
  {
    StartAgrees(destsz);
  }

  /** An attempt that brings nothing and is not the last one. */
  lemma AfterAttempt(o: Outcome, sent: seq<byte>, log: seq<Entry>, s: State, destsz: int, input: seq<Item>)
    requires Stands(o, sent, log, s, destsz, input)
    requires ReadFirst(input).0.Nothing? && s.retry + 1 < MAX_BYTE_RETRIES
    ensures var next, rest := s.(retry := s.retry + 1), ReadFirst(input).1;
            Stands(o, sent + Solicitation(s), log, next, destsz, rest) && Budget(next, rest) < Budget(s, input)
  {
    assert Turn(s, destsz, input) == Continue(s.(retry := s.retry + 1), Solicitation(s), [], ReadFirst(input).1);
    TracksTurn(o, sent, log, s, destsz, input);
    TurnAgrees(s, log, destsz, input);
    TurnShrinks(s, destsz, input);
    assert log + [] == log;
  }

  /** All the calls of the run are those `made` and the ones that it makes from `s` on. */
  ghost predicate Makes(all: seq<Call>, made: seq<Call>, s: State, destsz: int, input: seq<Item>) {
    all == made + RunCalls(s, destsz, input)
  }

  lemma MakesTurn(all: seq<Call>, made: seq<Call>, s: State, destsz: int, input: seq<Item>)
    requires Makes(all, made, s, destsz, input)
    ensures var t := Turn(s, destsz, input);
            if t.Halt? then all == made + FirstCalls(input) + LaterCalls(s, input)
            else Makes(all, made + FirstCalls(input) + LaterCalls(s, input), t.next, destsz, t.rest)
  {
    hide Turn, FirstCalls, LaterCalls;
    var t := Turn(s, destsz, input);
    Associates(made, FirstCalls(input), LaterCalls(s, input));
    if t.Continue? {
      Associates(made, TurnCalls(s, input), RunCalls(t.next, destsz, t.rest));
    }
  }

  lemma MakesEnd(all: seq<Call>, made: seq<Call>, s: State, destsz: int, input: seq<Item>)
    requires Makes(all, made, s, destsz, input) && (ReadFirst(input).0.End? || ReadFirst(input).0.Cancelled?)
    ensures all == made + FirstCalls(input)
  {
    hide Makes, FirstCalls;
    MakesTurn(all, made, s, destsz, input);
    Empties(made + FirstCalls(input));
  }

  lemma MakesSilence(all: seq<Call>, made: seq<Call>, s: State, destsz: int, input: seq<Item>)
    requires Makes(all, made, s, destsz, input) && ReadFirst(input).0.Nothing? && s.retry == MAX_BYTE_RETRIES - 1
    ensures var rest := ReadFirst(input).1;
            if s.trychar == SOLICIT_CRC
            then Makes(all, made + FirstCalls(input), s.(trychar := NAK, retry := 0), destsz, rest)
            else all == made + FirstCalls(input) + FlushCalls(rest)
  {
    hide Makes, FirstCalls;
    MakesTurn(all, made, s, destsz, input);
    Empties(made + FirstCalls(input));
  }

  lemma MakesFrame(all: seq<Call>, made: seq<Call>, s: State, destsz: int, input: seq<Item>, e: Entry)
    requires Makes(all, made, s, destsz, input) && ReadFirst(input).0.Header?
    requires var (first, rest) := ReadFirst(input);
             e == Judged(s, first.size, Taken(rest, BodySize(Mode(s), first.size)))
    ensures var rest := Untaken(ReadFirst(input).1, BodySize(Mode(s), ReadFirst(input).0.size));
            var made' := made + FirstCalls(input) + HeardCalls(s, ReadFirst(input).0.size, ReadFirst(input).1);
            if e.verdict.Exhausted? then all == made'
            else Makes(all, made', Update(s, destsz, e), destsz, if e.verdict.Rejected? then Flushed(rest) else rest)
  {
    hide Makes, FirstCalls, HeardCalls, Turn;
    MakesTurn(all, made, s, destsz, input);
    TurnHeard(s, destsz, input, e);
  }

  lemma MakesStart(all: seq<Call>, destsz: int, input: seq<Item>)
    requires all == RunCalls(START, destsz, input)
    ensures Makes(all, [], START, destsz, input)
  {
    Empties(all);
  }

  lemma MakesAttempt(all: seq<Call>, made: seq<Call>, s: State, destsz: int, input: seq<Item>)
    requires Makes(all, made, s, destsz, input) && ReadFirst(input).0.Nothing? && s.retry + 1 < MAX_BYTE_RETRIES
    ensures Makes(all, made + FirstCalls(input), s.(retry := s.retry + 1), destsz, ReadFirst(input).1)
  {
    hide Makes, FirstCalls;
    MakesTurn(all, made, s, destsz, input);
    Empties(made + FirstCalls(input));
  }

  /**
   * The inner loop of `xmodemReceive`: up to sixteen attempts to get a header. `cur`, `at` and `sent'` are the
   * variables, the input and the replies so far at the beginning of the last attempt made.
   */
  method AwaitHeader(line: Line, trychar: byte, ghost s: State, ghost destsz: int, ghost o: Outcome,
                     ghost before: seq<byte>, ghost sent: seq<byte>, ghost log: seq<Entry>,
                     ghost all: seq<Call>, ghost base: seq<Call>, ghost made: seq<Call>)
    returns (bufsz: int, c: int, ghost cur: State, ghost at: seq<Item>, ghost sent': seq<byte>, ghost made': seq<Call>)
    requires s.trychar == trychar && s.retry == 0
    requires Stands(o, sent, log, s, destsz, line.input) && line.sent == before + sent
    requires Makes(all, made, s, destsz, line.input) && line.calls == base + made
    modifies line
    ensures cur == s.(retry := cur.retry)
    ensures Stands(o, sent', log, cur, destsz, at) && Budget(cur, at) <= Budget(s, old(line.input))
    ensures Makes(all, made', cur, destsz, at) && line.calls == base + made' + FirstCalls(at)
    ensures line.input == ReadFirst(at).1
    ensures var sent := before + sent' + Solicitation(cur);
            line.sent == if bufsz < 0 then sent + [ACK] else sent
    ensures match ReadFirst(at).0
            case Nothing => bufsz == 0 && cur.retry == MAX_BYTE_RETRIES - 1
            case Header(c', size) => bufsz == size && c == c'
            case End => bufsz == XMODEM_PACKET_END
            case Cancelled => bufsz == ERROR_CANCEL
  {
    hide Makes, RunCalls, FirstCalls, ReadFirst, Budget, Session, Turn, RightVerdicts, Uniform, Delivered, Judge;
    bufsz, c := 0, 0;
    cur, at, sent', made' := s, line.input, sent, made;
    var retry := 0;
    while retry < MAX_BYTE_RETRIES
      invariant retry <= MAX_BYTE_RETRIES && bufsz == 0
      invariant cur == s.(retry := cur.retry)
      invariant Stands(o, sent', log, cur, destsz, at) && Budget(cur, at) <= Budget(s, old(line.input))
      invariant Makes(all, made', cur, destsz, at)
      invariant retry < MAX_BYTE_RETRIES ==> line.calls == base + made'
      invariant retry == MAX_BYTE_RETRIES ==> line.calls == base + made' + FirstCalls(at)
      invariant retry < MAX_BYTE_RETRIES ==> cur.retry == retry && at == line.input && line.sent == before + sent'
      invariant retry == MAX_BYTE_RETRIES ==>
                  && cur.retry == retry - 1 && ReadFirst(at) == (Nothing, line.input)
                  && line.sent == before + sent' + Solicitation(cur)
    {
      if trychar != 0 {
        line.OutByte(trychar);
      }
      bufsz, c := GetFirstByte(line);
      if bufsz != 0 {
        return;
      }
      retry := retry + 1;
      if retry < MAX_BYTE_RETRIES {
        AfterAttempt(o, sent', log, cur, destsz, at);
        MakesAttempt(all, made', cur, destsz, at);
        Associates(base, made', FirstCalls(at));
        made' := made' + FirstCalls(at);
        Associates(before, sent', Solicitation(cur));
        sent', at := sent' + Solicitation(cur), line.input;
        cur := cur.(retry := retry);
      }
    }
  }

  /**
   * Where flash and hash stand after `log`, given what they were before: both hold exactly the bytes delivered so far,
   * the flash from `start` on, and what is before and behind them in the flash is as it was.
   */
  ghost predicate InStep(sink: Updater, flash: seq<byte>, hashed: seq<byte>, log: seq<Entry>, destsz: int)
    reads sink, sink.flash
  {
    var data := Delivered(log, destsz);
    var at := if sink.start > 0 then sink.start else 0;
    && at + |data| <= |flash| == sink.flash.Length
    && sink.hashed == hashed + data
    && sink.flash[..][at..at + |data|] == data
    && sink.flash[..][..at] == flash[..at]
    && sink.flash[..][at + |data|..] == flash[at + |data|..]
  }

  lemma InStepIsPatched(sink: Updater, flash: seq<byte>, hashed: seq<byte>, log: seq<Entry>, destsz: int)
    requires sink.Base() + |Delivered(log, destsz)| <= |flash|
    ensures InStep(sink, flash, hashed, log, destsz) <==>
            && sink.hashed == hashed + Delivered(log, destsz)
            && sink.flash[..] == Patched(flash, sink.Base(), Delivered(log, destsz))
  {
    hide Delivered;
    var data, at, now := Delivered(log, destsz), sink.Base(), sink.flash[..];
    if InStep(sink, flash, hashed, log, destsz) {
      Splits(now, at + |data|);
      Splits(now[..at + |data|], at);
    } else if now == Patched(flash, at, data) {
      PatchedParts(flash, at, data);
    }
  }

  lemma InStepStart(sink: Updater, destsz: int)
    requires sink.Base() <= sink.flash.Length
    ensures InStep(sink, sink.flash[..], sink.hashed, [], destsz)
  {
    PatchedNothing(sink.flash[..], sink.Base());
    InStepIsPatched(sink, sink.flash[..], sink.hashed, [], destsz);
  }

  /** A frame of any kind keeps flash and hash in step. */
  lemma StillInStep(sink: Updater, flash: seq<byte>, hashed: seq<byte>, s: State, log: seq<Entry>, destsz: int,
                    e: Entry)
    requires s.len == |Delivered(log, destsz)| && sink.Base() + s.len <= |flash|
    requires var before := Delivered(log, destsz);
             Appended(sink, hashed + before, Patched(flash, sink.Base(), before), s.len, Portion(e, destsz, s.len))
    ensures InStep(sink, flash, hashed, log + [e], destsz)
  {
    UpdateDelivers(s, log, destsz, e);
    var before, data := Delivered(log, destsz), Portion(e, destsz, s.len);
    assert before + data == Delivered(log + [e], destsz);
    assert hashed + before + data == hashed + (before + data);
    PatchedTwice(flash, sink.Base(), before, data);
    InStepIsPatched(sink, flash, hashed, log + [e], destsz);
  }

  /** An incomplete frame is refused and changes nothing but the mode and the solicitation. */
  lemma ShortRefused(s: State, destsz: int, size: nat, body: seq<byte>)
    requires |body| < BodySize(Mode(s), size)
    ensures var e := Judged(s, size, body);
            e.verdict.Rejected? && Update(s, destsz, e) == State(0, Mode(s), s.packetno, s.retrans, s.len, 0)
  {
  }

  /** The second half of the loop of `xmodemReceive`: a header has come in, now the frame that it announces. */
  method ReceiveFrame(xbuff: array<byte>, destsz: int, sink: Updater, line: Line, bufsz: nat, c: byte, useSrc: bool,
                      packetno: byte, retrans: int, len: nat, ghost s: State)
    returns (res: int, packetno': byte, retrans': int, len': nat, ghost e: Entry)
    requires xbuff != sink.flash && xbuff.Length == 1030 && bufsz <= 1024
    requires useSrc == Mode(s) && s.packetno == packetno && s.retrans == retrans > 0 && s.len == len
    requires var e := Judged(s, bufsz, Taken(line.input, BodySize(useSrc, bufsz)));
             sink.Base() + len + |Portion(e, destsz, len)| <= sink.flash.Length
    modifies line, xbuff, sink`hashed, sink.flash
    ensures e == Judged(s, bufsz, Taken(old(line.input), BodySize(useSrc, bufsz)))
    ensures Update(s, destsz, e) == State(0, useSrc, packetno', retrans', len', 0)
    ensures len' == len + |Portion(e, destsz, len)|
    ensures res == if e.verdict.Exhausted? then ERROR_RETRANS_LIMIT else 0
    ensures line.sent == old(line.sent) + Reply(e.verdict)
    ensures line.calls == old(line.calls) + HeardCalls(s, bufsz, old(line.input))
    ensures var rest := Untaken(old(line.input), BodySize(useSrc, bufsz));
            line.input == if e.verdict.Rejected? || e.verdict.Exhausted? then Flushed(rest) else rest
    ensures Appended(sink, old(sink.hashed), old(sink.flash[..]), len, Portion(e, destsz, len))
  {
    hide FlushCalls, Judge, Update, Slice, Payload, Patched, Sound, Taken, Untaken, Flushed;
    packetno', retrans', len' := packetno, retrans, len;
    NothingAppended(sink, len);
    xbuff[0] := c;
    var toRead := BodySize(useSrc, bufsz);
    ghost var body, call, rest := Taken(line.input, toRead), FrameCall(toRead, line.input), Untaken(line.input, toRead);
    Associates(line.calls, [call], FlushCalls(rest));
    Empties([call]);
    var nread := line.ReadBuf(xbuff, 1, toRead);
    if nread < toRead {
      e := Judged(s, bufsz, body);
      ShortRefused(s, destsz, bufsz, body);
      line.FlushInput();
      line.OutByte(NAK);
      res := 0;
    } else {
      assert xbuff[1..1 + toRead] == body;
      res, packetno', retrans', len', e :=
        PacketCheck(xbuff, destsz, sink, bufsz, useSrc, line, packetno, retrans, len, s);
      assert e == Judged(s, bufsz, body);
      if res == 1 {
        line.FlushInput();
        line.OutByte(NAK);
        res := 0;
      }
    }
  }

  /** A turn that finds a header. */
  lemma TurnHeard(s: State, destsz: int, input: seq<Item>, e: Entry)
    requires ReadFirst(input).0.Header?
    requires var (first, rest) := ReadFirst(input);
             e == Judged(s, first.size, Taken(rest, BodySize(Mode(s), first.size)))
    ensures var rest := Untaken(ReadFirst(input).1, BodySize(Mode(s), ReadFirst(input).0.size));
            var rest' := if e.verdict.Rejected? || e.verdict.Exhausted? then Flushed(rest) else rest;
            var next, sent := Update(s, destsz, e), Solicitation(s) + Reply(e.verdict);
            Turn(s, destsz, input) == if e.verdict.Exhausted? then Halt(ERROR_RETRANS_LIMIT, next, sent, [e], rest')
                                      else Continue(next, sent, [e], rest')
  {
  }

  lemma AfterFrame(o: Outcome, sent: seq<byte>, log: seq<Entry>, s: State, destsz: int, input: seq<Item>, e: Entry)
    requires Stands(o, sent, log, s, destsz, input)
    requires ReadFirst(input).0.Header?
    requires var (first, rest) := ReadFirst(input);
             e == Judged(s, first.size, Taken(rest, BodySize(Mode(s), first.size)))
    ensures var rest := Untaken(ReadFirst(input).1, BodySize(Mode(s), ReadFirst(input).0.size));
            var rest' := if e.verdict.Rejected? || e.verdict.Exhausted? then Flushed(rest) else rest;
            var next := Update(s, destsz, e);
            var sent' := sent + Solicitation(s) + Reply(e.verdict);
            if e.verdict.Exhausted? then o == Outcome(ERROR_RETRANS_LIMIT, next, sent', log + [e], rest')
            else Stands(o, sent', log + [e], next, destsz, rest') && Budget(next, rest') < Budget(s, input)
  {
    hide Session, Turn, Budget, Update, Judge, ReadFirst, Delivered, RightVerdicts, Uniform, Taken, Untaken, Flushed;
    TurnHeard(s, destsz, input, e);
    TracksTurn(o, sent, log, s, destsz, input);
    TurnAgrees(s, log, destsz, input);
    TurnShrinks(s, destsz, input);
    Associates(sent, Solicitation(s), Reply(e.verdict));
  }

  lemma AfterSilence(o: Outcome, sent: seq<byte>, log: seq<Entry>, s: State, destsz: int, input: seq<Item>)
    requires Stands(o, sent, log, s, destsz, input)
    requires ReadFirst(input).0.Nothing? && s.retry == MAX_BYTE_RETRIES - 1
    ensures var rest := ReadFirst(input).1;
            var next := s.(trychar := NAK, retry := 0);
            var sent' := sent + Solicitation(s);
            if s.trychar == SOLICIT_CRC
            then Stands(o, sent', log, next, destsz, rest) && Budget(next, rest) < Budget(s, input)
            else o == Outcome(ERROR_SYNC, s, sent' + ABORT, log, Flushed(rest))
  {
    TracksTurn(o, sent, log, s, destsz, input);
    TurnAgrees(s, log, destsz, input);
    TurnShrinks(s, destsz, input);
    assert sent + (Solicitation(s) + ABORT) == sent + Solicitation(s) + ABORT;
    assert log + [] == log;
  }

  lemma AfterEnd(o: Outcome, sent: seq<byte>, log: seq<Entry>, s: State, destsz: int, input: seq<Item>)
    requires Stands(o, sent, log, s, destsz, input)
    requires ReadFirst(input).0.End? || ReadFirst(input).0.Cancelled?
    ensures o == Outcome(if ReadFirst(input).0.End? then s.len else ERROR_CANCEL, s,
                         sent + Solicitation(s) + [ACK], log, ReadFirst(input).1)
  {
    TracksTurn(o, sent, log, s, destsz, input);
    assert sent + (Solicitation(s) + [ACK]) == sent + Solicitation(s) + [ACK];
    assert log + [] == log;
  }

  /** The run ends: what has been sent and called so far is all of it. */
  lemma RunEnds(o: Outcome, sent: seq<byte>, log: seq<Entry>, s: State, destsz: int, input: seq<Item>,
                before: seq<byte>, all: seq<Call>, made: seq<Call>, base: seq<Call>)
    requires Stands(o, sent, log, s, destsz, input) && Makes(all, made, s, destsz, input)
    requires ReadFirst(input).0.End? || ReadFirst(input).0.Cancelled?
    ensures o.ret == (if ReadFirst(input).0.End? then s.len else ERROR_CANCEL)
    ensures o.log == log && o.rest == ReadFirst(input).1
    ensures before + sent + Solicitation(s) + [ACK] == before + o.sent
    ensures base + made + FirstCalls(input) == base + all
  {
    hide Stands, Makes, ReadFirst, FirstCalls;
    MakesEnd(all, made, s, destsz, input);
    Associates(base, made, FirstCalls(input));
    AfterEnd(o, sent, log, s, destsz, input);
    AssociatesFour(before, sent, Solicitation(s), [ACK]);
  }

  /** Sixteen attempts have brought nothing: the run goes on with NAK, or it is given up. */
  lemma RunSilent(o: Outcome, sent: seq<byte>, log: seq<Entry>, s: State, destsz: int, input: seq<Item>,
                  before: seq<byte>, all: seq<Call>, made: seq<Call>, base: seq<Call>)
    requires Stands(o, sent, log, s, destsz, input) && Makes(all, made, s, destsz, input)
    requires ReadFirst(input).0.Nothing? && s.retry == MAX_BYTE_RETRIES - 1
    ensures var rest := ReadFirst(input).1;
            var next := s.(trychar := NAK, retry := 0);
            var sent', made' := sent + Solicitation(s), made + FirstCalls(input);
            if s.trychar == SOLICIT_CRC then
              && Stands(o, sent', log, next, destsz, rest) && Budget(next, rest) < Budget(s, input)
              && Makes(all, made', next, destsz, rest)
              && before + sent + Solicitation(s) == before + sent'
              && base + made + FirstCalls(input) == base + made'
            else
              && o.ret == ERROR_SYNC && o.log == log && o.rest == Flushed(rest)
              && before + sent + Solicitation(s) + ABORT == before + o.sent
              && base + made + FirstCalls(input) + FlushCalls(rest) == base + all
  {
    hide Stands, Makes, ReadFirst, FirstCalls, FlushCalls, Budget, Flushed;
    AfterSilence(o, sent, log, s, destsz, input);
    MakesSilence(all, made, s, destsz, input);
    AssociatesFour(base, made, FirstCalls(input), FlushCalls(ReadFirst(input).1));
    AssociatesFour(before, sent, Solicitation(s), ABORT);
  }

  /** The end of a run that is given up. */
  method GiveUp(line: Line)
    modifies line
    ensures line.sent == old(line.sent) + [0x18, 0x18, 0x18]
    ensures line.input == Flushed(old(line.input)) && line.calls == old(line.calls) + FlushCalls(old(line.input))
  {
    AbortSent(line.sent);
    line.FlushInput();
    line.OutByte(CAN);
    line.OutByte(CAN);
    line.OutByte(CAN);
  }

  /** A run that has come to a frame delivers what that frame brings, and perhaps more. */
  lemma FrameFits(o: Outcome, sent: seq<byte>, log: seq<Entry>, s: State, destsz: int, input: seq<Item>, e: Entry)
    requires Stands(o, sent, log, s, destsz, input)
    requires ReadFirst(input).0.Header?
    requires var (first, rest) := ReadFirst(input);
             e == Judged(s, first.size, Taken(rest, BodySize(Mode(s), first.size)))
    ensures Update(s, destsz, e).len == s.len + |Portion(e, destsz, s.len)| <= o.final.len
    ensures s.len == |Delivered(log, destsz)| && s.retrans > 0
  {
    TracksTurn(o, sent, log, s, destsz, input);
    var t := Turn(s, destsz, input);
    if t.Continue? {
      SessionGrows(t.next, destsz, t.rest);
    }
  }

  lemma {:induction false} SessionGrows(s: State, destsz: int, input: seq<Item>)
    ensures Session(s, destsz, input).final.len >= s.len
    decreases Budget(s, input)
  {
    hide Judge, WellFormed, Taken;
    var t := Turn(s, destsz, input);
    if t.Continue? {
      TurnShrinks(s, destsz, input);
      SessionGrows(t.next, destsz, t.rest);
    }
  }

  /** `xmodemReceive`. What it delivers must fit into the flash; how much was announced does not matter. */
  method Receive(xbuff: array<byte>, destsz: int, sink: Updater, line: Line) returns (ret: int)
    requires xbuff != sink.flash && xbuff.Length == 1030
    requires sink.Base() + Session(START, destsz, line.input).final.len <= sink.flash.Length
    modifies line, xbuff, sink`hashed, sink.flash
    ensures var o := Session(START, destsz, old(line.input));
            && ret == o.ret
            && line.sent == old(line.sent) + o.sent
            && line.input == o.rest
            && line.calls == old(line.calls) + RunCalls(START, destsz, old(line.input))
            && InStep(sink, old(sink.flash[..]), old(sink.hashed), o.log, destsz)
  {
    hide Makes, RunCalls, FirstCalls, HeardCalls, FlushCalls;
    hide Session, Stands, Patched, InStep, Appended, Judge, Update, Portion, Delivered, Budget;
    hide ReadFirst, Taken, Untaken, Flushed, Reply;
    var useSrc := false;
    var trychar := SOLICIT_CRC;
    var packetno: byte := 1;
    var len: nat := 0;
    var retrans := MAX_RETRANS;

    ghost var o := Session(START, destsz, line.input);
    ghost var s, log, before, sent := START, [], line.sent, [];
    ghost var flash, hashed := sink.flash[..], sink.hashed;
    ghost var all, base, made := RunCalls(START, destsz, line.input), line.calls, [];
    MakesStart(all, destsz, line.input);
    StandsStart(destsz, line.input);
    SessionGrows(START, destsz, line.input);
    InStepStart(sink, destsz);
    while true
      invariant s == State(trychar, useSrc, packetno, retrans, len, 0)
      invariant Stands(o, sent, log, s, destsz, line.input)
      invariant line.sent == before + sent
      invariant Makes(all, made, s, destsz, line.input) && line.calls == base + made
      invariant InStep(sink, flash, hashed, log, destsz)
      decreases Budget(s, line.input)
    {
      var bufsz, c;
      ghost var at;
      bufsz, c, s, at, sent, made := AwaitHeader(line, trychar, s, destsz, o, before, sent, log, all, base, made);
      if bufsz == XMODEM_PACKET_END {
        RunEnds(o, sent, log, s, destsz, at, before, all, made, base);
        return len;
      } else if bufsz < 0 {
        RunEnds(o, sent, log, s, destsz, at, before, all, made, base);
        return bufsz;
      }
      if bufsz == 0 {
        RunSilent(o, sent, log, s, destsz, at, before, all, made, base);
        if trychar == SOLICIT_CRC {
          sent, made := sent + Solicitation(s), made + FirstCalls(at);
          trychar := NAK;
          s := s.(trychar := NAK, retry := 0);
          continue;
        }
        GiveUp(line);
        return ERROR_SYNC;
      }

      useSrc := useSrc || trychar == SOLICIT_CRC;
      trychar := 0;
      var res;
      ghost var e := Judged(s, bufsz, Taken(line.input, BodySize(useSrc, bufsz)));
      FrameFits(o, sent, log, s, destsz, at, e);
      MakesFrame(all, made, s, destsz, at, e);
      ghost var heard := HeardCalls(s, bufsz, line.input);
      AssociatesFour(base, made, FirstCalls(at), heard);
      InStepIsPatched(sink, flash, hashed, log, destsz);
      res, packetno, retrans, len, e :=
        ReceiveFrame(xbuff, destsz, sink, line, bufsz, c, useSrc, packetno, retrans, len, s);
      AfterFrame(o, sent, log, s, destsz, at, e);
      StillInStep(sink, flash, hashed, s, log, destsz, e);
      AssociatesFour(before, sent, Solicitation(s), Reply(e.verdict));
      if res < 0 {
        return res;
      }
      sent := sent + Solicitation(s) + Reply(e.verdict);
      made := made + FirstCalls(at) + heard;
      s, log := Update(s, destsz, e), log + [e];
    }
  }
}
