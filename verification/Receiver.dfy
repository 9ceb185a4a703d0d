/** What `xmodemReceive` does with an input, one header attempt at a time, and what that amounts to over a whole run. */
module Receiver {
  import opened Crc
  import opened Wire

  const SOH: byte := 0x01
  const STX: byte := 0x02
  const EOT: byte := 0x04
  const ACK: byte := 0x06
  const NAK: byte := 0x15
  const CAN: byte := 0x18
  const SOLICIT_CRC: byte := 0x43  // 'C'

  const MAX_RETRANS: int := 25
  const MAX_BYTE_RETRIES: nat := 16

  const ERROR_CANCEL: int := -1
  const ERROR_SYNC: int := -2
  const ERROR_RETRANS_LIMIT: int := -3

  const ABORT: seq<byte> := [CAN, CAN, CAN]

  // ----- One attempt to get a header -----

  datatype First = Nothing | Header(c: byte, size: nat) | End | Cancelled

  /** `get_first_byte`: what was found, and the input after it. A CAN swallows whatever follows it. */
  function ReadFirst(input: seq<Item>): (r: (First, seq<Item>))
    ensures |r.1| <= |input|
    ensures !r.0.Nothing? ==> |r.1| < |input|
    ensures r.0.Header? ==> (r.0.c == SOH && r.0.size == 128) || (r.0.c == STX && r.0.size == 1024)
  {
    match Next(input)
    case None => (Nothing, Rest(input))
    case Some(c) =>
      var rest := input[1..];
      if c == SOH then (Header(c, 128), rest)
      else if c == STX then (Header(c, 1024), rest)
      else if c == EOT then (End, Flushed(rest))
      else if c == CAN then
        if Next(rest) == Some(CAN) then (Cancelled, Flushed(Rest(rest))) else (Nothing, Rest(rest))
      else (Nothing, rest)
  }

  // ----- Frames -----

  datatype Verdict = New | Duplicate | Exhausted | Rejected

  /** A header seen by the receiver: the mode in force, the bytes read after it, and what became of them. */
  datatype Entry = Entry(isCrc: bool, size: nat, body: seq<byte>, verdict: Verdict)

  /** The bytes `uart_read_buf` is asked for after a header. */
  function BodySize(isCrc: bool, size: nat): nat {
    size + (if isCrc then 1 else 0) + 3
  }

  /** Complete, with matching block number bytes and a matching trailer. */
  predicate WellFormed(isCrc: bool, size: nat, body: seq<byte>) {
    && |body| == BodySize(isCrc, size)
    && body[0] == 255 - body[1]
    && Sound(isCrc, body[2..])
  }

  function Payload(e: Entry): seq<byte> {
    if |e.body| >= 2 + e.size then e.body[2..2 + e.size] else []
  }

  // ----- The receiver's variables -----

  datatype State = State(trychar: byte, useCrc: bool, packetno: byte, retrans: int, len: int, retry: nat)

  const START: State := State(SOLICIT_CRC, false, 1, MAX_RETRANS, 0, 0)

  /** The mode the next frame will be read in. */
  function Mode(s: State): bool {
    s.useCrc || s.trychar == SOLICIT_CRC
  }

  /** The part of a payload that still fits. */
  function Slice(destsz: int, len: int, payload: seq<byte>): (r: seq<byte>)
    ensures |r| <= |payload|
  {
    var count := destsz - len;
    if count > |payload| then payload else if count > 0 then payload[..count] else []
  }

  /** What `packet_check` makes of a frame. The previous number is an integer, so 0 has no predecessor. */
  function Judge(s: State, size: nat, body: seq<byte>): Verdict {
    if !WellFormed(Mode(s), size, body) then Rejected
    else if body[0] == s.packetno then New
    else if body[0] == s.packetno - 1 then (if s.retrans <= 1 then Exhausted else Duplicate)
    else Rejected
  }

  function Judged(s: State, size: nat, body: seq<byte>): Entry {
    Entry(Mode(s), size, body, Judge(s, size, body))
  }

  function Reply(v: Verdict): seq<byte> {
    match v
    case New => [ACK]
    case Duplicate => [ACK]
    case Rejected => [NAK]
    case Exhausted => ABORT
  }

  /** The variables after a header and its frame. */
  function Update(s: State, destsz: int, e: Entry): State {
    var s := s.(useCrc := Mode(s), trychar := 0, retry := 0);
    match e.verdict
    case New =>
      s.(len := s.len + |Slice(destsz, s.len, Payload(e))|, packetno := (s.packetno + 1) % 256, retrans := MAX_RETRANS)
    case Duplicate => s.(retrans := s.retrans - 1)
    case Exhausted => s.(retrans := s.retrans - 1)
    case Rejected => s
  }

  // ----- One turn: one attempt to get a header, with everything that follows from it -----

  datatype Step =
    | Continue(next: State, sent: seq<byte>, log: seq<Entry>, rest: seq<Item>)
    | Halt(ret: int, next: State, sent: seq<byte>, log: seq<Entry>, rest: seq<Item>)

  function Solicitation(s: State): seq<byte> {
    if s.trychar != 0 then [s.trychar] else []
  }

  /** The attempt brought no header. */
  function Unheard(s: State, rest: seq<Item>): Step {
    if s.retry + 1 < MAX_BYTE_RETRIES then Continue(s.(retry := s.retry + 1), Solicitation(s), [], rest)
    else if s.trychar == SOLICIT_CRC then Continue(s.(trychar := NAK, retry := 0), Solicitation(s), [], rest)
    else Halt(ERROR_SYNC, s, Solicitation(s) + ABORT, [], Flushed(rest))
  }

  /** The attempt brought a header. */
  function Heard(s: State, destsz: int, size: nat, input: seq<Item>): Step {
    var body := Taken(input, BodySize(Mode(s), size));
    var rest := Untaken(input, BodySize(Mode(s), size));
    var e := Judged(s, size, body);
    var next := Update(s, destsz, e);
    var sent := Solicitation(s) + Reply(e.verdict);
    match e.verdict
    case New => Continue(next, sent, [e], rest)
    case Duplicate => Continue(next, sent, [e], rest)
    case Rejected => Continue(next, sent, [e], Flushed(rest))
    case Exhausted => Halt(ERROR_RETRANS_LIMIT, next, sent, [e], Flushed(rest))
  }

  function Turn(s: State, destsz: int, input: seq<Item>): Step {
    var (first, rest) := ReadFirst(input);
    match first
    case Nothing => Unheard(s, rest)
    case Header(_, size) => Heard(s, destsz, size, rest)
    case End => Halt(s.len, s, Solicitation(s) + [ACK], [], rest)
    case Cancelled => Halt(ERROR_CANCEL, s, Solicitation(s) + [ACK], [], rest)
  }

  // ----- A whole run -----

  datatype Outcome = Outcome(ret: int, final: State, sent: seq<byte>, log: seq<Entry>, rest: seq<Item>)

  /** Bounds the turns still to come: an attempt uses up input, or one of the 32 solicitations, or a retry. */
  function Budget(s: State, input: seq<Item>): nat {
    64 * |input| + (if s.trychar == SOLICIT_CRC then 32 else 0)
      + (if s.retry < MAX_BYTE_RETRIES then MAX_BYTE_RETRIES - s.retry else 0)
  }

  lemma TurnShrinks(s: State, destsz: int, input: seq<Item>)
    ensures var t := Turn(s, destsz, input); t.Continue? ==> Budget(t.next, t.rest) < Budget(s, input)
  {
  }

  function Session(s: State, destsz: int, input: seq<Item>): Outcome
    decreases Budget(s, input)
  {
    var t := Turn(s, destsz, input);
    if t.Halt? then Outcome(t.ret, t.next, t.sent, t.log, t.rest)
    else
      TurnShrinks(s, destsz, input);
      Prefixed(t.sent, t.log, Session(t.next, destsz, t.rest))
  }

  /** An outcome with something sent and logged before it. */
  function Prefixed(sent: seq<byte>, log: seq<Entry>, o: Outcome): Outcome {
    o.(sent := sent + o.sent, log := log + o.log)
  }

  lemma PrefixedTwice(a: seq<byte>, b: seq<byte>, k: seq<Entry>, l: seq<Entry>, o: Outcome)
    ensures Prefixed(a, k, Prefixed(b, l, o)) == Prefixed(a + b, k + l, o)
  {
    assert a + (b + o.sent) == a + b + o.sent;
    assert k + (l + o.log) == k + l + o.log;
  }
}
