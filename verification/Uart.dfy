/**
 * The receive side of the UART as an interleaving transition system: the interrupt handler may run at any point where
 * interrupts are not locked, and a wait of the reader may end by the event or by time-out.
 */
module Uart {
  import opened Crc
  import opened Wire

  /** A ring of 256 slots holds one byte less. */
  const CAPACITY: nat := 255

  /** Where the reader is: outside, waiting in `uart_read` or woken there, or the same in `uart_read_buf`. */
  datatype Pc = Idle | WaitByte | WokenByte | WaitBuf | WokenBuf(timedOut: bool)

  /** A byte the hardware handed over, and whether there was room for it. */
  datatype Arrival = Arrival(b: byte, kept: bool)

  /**
   * The ring as a queue, the event bit, the buffer lent to the handler (`armed` while its pointer is set), the reader,
   * and the history of both sides.
   */
  datatype State = State(queue: seq<byte>, event: bool, armed: bool, filled: seq<byte>, max: int, pc: Pc,
                         log: seq<Arrival>, calls: seq<Call>)

  const INIT: State := State([], false, false, [], 0, Idle, [], [])

  /** The atomic steps: the handler takes a byte, a call begins, a wait ends, the reader locks again. */
  datatype Label = Interrupt(b: byte) | CallRead | CallBuf(max: int, wait: bool) | Wake | Expire | Relock | Collect

  predicate Enabled(s: State, l: Label) {
    match l
    case Interrupt(_) => true
    case CallRead => s.pc == Idle
    case CallBuf(_, _) => s.pc == Idle
    case Wake => s.event && (s.pc == WaitByte || s.pc == WaitBuf)
    case Expire => s.pc == WaitByte || s.pc == WaitBuf
    case Relock => s.pc == WokenByte
    case Collect => s.pc.WokenBuf?
  }

  /** `UartIrqHandler` with `uart_getc_unsafe`, for one byte. */
  function Receive(s: State, b: byte): State {
    if s.armed then
      var full := |s.filled| + 1 >= s.max;
      s.(filled := s.filled + [b], armed := !full, event := s.event || full, log := s.log + [Arrival(b, true)])
    else if |s.queue| < CAPACITY then
      s.(queue := s.queue + [b], event := true, log := s.log + [Arrival(b, true)])
    else s.(log := s.log + [Arrival(b, false)])
  }

  /** The locked part of `uart_read`. */
  function Fetch(s: State): State {
    if s.queue == [] then s.(pc := WaitByte)
    else s.(queue := s.queue[1..], pc := Idle, calls := s.calls + [ReadCall(Some(s.queue[0]))])
  }

  /** How many queued bytes a call for `max` gets at once. */
  function Ready(queue: seq<byte>, max: int): (n: nat)
    ensures n <= |queue|
  {
    if max <= 0 then 0 else if max < |queue| then max else |queue|
  }

  /** The first locked part of `uart_read_buf`. */
  function Begin(s: State, max: int, wait: bool): State {
    var n := Ready(s.queue, max);
    var s' := s.(queue := s.queue[n..]);
    if n < max && wait then s'.(armed := true, filled := s.queue[..n], max := max, event := false, pc := WaitBuf)
    else s'.(calls := s.calls + [BufCall(max, wait, s.queue[..n], false)])
  }

  /** The second locked part of `uart_read_buf`. */
  function Finish(s: State): State
    requires s.pc.WokenBuf?
  {
    s.(armed := false, filled := [], max := 0, pc := Idle,
       calls := s.calls + [BufCall(s.max, true, s.filled, s.pc.timedOut)])
  }

  function Step(s: State, l: Label): State
    requires Enabled(s, l)
  {
    match l
    case Interrupt(b) => Receive(s, b)
    case CallRead => Fetch(s)
    case CallBuf(max, wait) => Begin(s, max, wait)
    case Wake => s.(event := false, pc := if s.pc == WaitByte then WokenByte else WokenBuf(false))
    case Expire =>
      if s.pc == WaitByte then s.(pc := Idle, calls := s.calls + [ReadCall(None)]) else s.(pc := WokenBuf(true))
    case Relock => Fetch(s)
    case Collect => Finish(s)
  }

  /** The state after `run`, if every step of it is enabled. */
  function Exec(s: State, run: seq<Label>): Option<State> {
    if run == [] then Some(s)
    else
      match Exec(s, run[..|run| - 1])
      case None => None
      case Some(s') => if Enabled(s', run[|run| - 1]) then Some(Step(s', run[|run| - 1])) else None
  }

  // ----- Histories -----

  function Kept(log: seq<Arrival>): seq<byte> {
    if log == [] then []
    else Kept(log[..|log| - 1]) + if log[|log| - 1].kept then [log[|log| - 1].b] else []
  }

  function Dropped(log: seq<Arrival>): nat {
    if log == [] then 0
    else Dropped(log[..|log| - 1]) + if log[|log| - 1].kept then 0 else 1
  }

  function Returned(c: Call): seq<byte> {
    match c
    case ReadCall(None) => []
    case ReadCall(Some(b)) => [b]
    case BufCall(_, _, bytes, _) => bytes
  }

  /** The bytes handed to callers, in order. */
  function Delivered(calls: seq<Call>): seq<byte> {
    if calls == [] then [] else Delivered(calls[..|calls| - 1]) + Returned(calls[|calls| - 1])
  }

  lemma KeptSnoc(log: seq<Arrival>, a: Arrival)
    ensures Kept(log + [a]) == Kept(log) + if a.kept then [a.b] else []
    ensures Dropped(log + [a]) == Dropped(log) + if a.kept then 0 else 1
  {
    assert (log + [a])[..|log|] == log;
  }

  lemma DeliveredSnoc(calls: seq<Call>, c: Call)
    ensures Delivered(calls + [c]) == Delivered(calls) + Returned(c)
  {
    assert (calls + [c])[..|calls|] == calls;
  }

  // ----- The invariant -----

  predicate InBuf(s: State) {
    s.pc == WaitBuf || s.pc.WokenBuf?
  }

  /** A call for a buffer with a non-zero time-out that came back short had timed out. */
  predicate ShortOnlyOnTimeOut(c: Call) {
    c.BufCall? && c.wait && |c.bytes| < c.max ==> c.timedOut
  }

  /** No call returns more than it was asked for. */
  predicate Bounded(c: Call) {
    c.BufCall? ==> |c.bytes| <= if c.max > 0 then c.max else 0
  }

  ghost predicate Inv(s: State) {
    // order: what callers got, what the current call has, and what is queued are what was kept
    && Delivered(s.calls) + s.filled + s.queue == Kept(s.log)
    && |s.queue| <= CAPACITY
    // the lent buffer: only during a call, only with an empty ring, always with room
    && (s.armed ==> InBuf(s) && s.queue == [] && |s.filled| < s.max && !s.event)
    && (InBuf(s) && !s.armed ==> |s.filled| == s.max)
    && (!InBuf(s) ==> s.filled == [])
    // wake-ups
    && (s.pc == WaitByte && s.queue != [] ==> s.event)
    && (s.pc == WaitBuf && !s.armed ==> s.event)
    && (s.pc == WokenBuf(false) ==> !s.armed)
    && (forall k :: 0 <= k < |s.calls| ==> ShortOnlyOnTimeOut(s.calls[k]) && Bounded(s.calls[k]))
  }

  lemma ReceiveKeeps(s: State, b: byte)
    requires Inv(s)
    ensures Inv(Receive(s, b))
  {
    hide Delivered, Kept;
    var s' := Receive(s, b);
    KeptSnoc(s.log, s'.log[|s.log|]);
    Appended(Delivered(s.calls), s.filled, s.queue, b);
  }

  lemma Appended(d: seq<byte>, filled: seq<byte>, queue: seq<byte>, b: byte)
    ensures d + (filled + [b]) + [] == d + filled + [] + [b]
    ensures d + filled + (queue + [b]) == d + filled + queue + [b]
    ensures d + filled + queue + [] == d + filled + queue
  {
  }

  lemma FetchKeeps(s: State)
    requires Inv(s) && !InBuf(s)
    ensures Inv(Fetch(s))
  {
    hide Delivered, Kept;
    if s.queue != [] {
      DeliveredSnoc(s.calls, ReadCall(Some(s.queue[0])));
      assert [s.queue[0]] + s.queue[1..] == s.queue;
    }
  }

  lemma BeginKeeps(s: State, max: int, wait: bool)
    requires Inv(s) && s.pc == Idle
    ensures Inv(Begin(s, max, wait))
  {
    hide Delivered, Kept;
    var n := Ready(s.queue, max);
    var d, now, later := Delivered(s.calls), s.queue[..n], s.queue[n..];
    assert s.queue == now + later;
    Regrouped(d, now, later);
    if n < max && wait {
      assert later == [];
    } else {
      DeliveredSnoc(s.calls, BufCall(max, wait, now, false));
    }
  }

  lemma Regrouped(d: seq<byte>, now: seq<byte>, later: seq<byte>)
    ensures d + [] + (now + later) == d + now + later == d + now + [] + later
  {
  }

  lemma FinishKeeps(s: State)
    requires Inv(s) && s.pc.WokenBuf?
    ensures Inv(Finish(s))
  {
    hide Delivered, Kept;
    DeliveredSnoc(s.calls, BufCall(s.max, true, s.filled, s.pc.timedOut));
  }

  lemma StepKeeps(s: State, l: Label)
    requires Inv(s) && Enabled(s, l)
    ensures Inv(Step(s, l))
  {
    hide Delivered, Kept;
    match l
    case Interrupt(b) => ReceiveKeeps(s, b);
    case CallRead => FetchKeeps(s);
    case CallBuf(max, wait) => BeginKeeps(s, max, wait);
    case Wake =>
    case Expire =>
      if s.pc == WaitByte {
        DeliveredSnoc(s.calls, ReadCall(None));
      }
    case Relock => FetchKeeps(s);
    case Collect => FinishKeeps(s);
  }

  /** The invariant holds after every run, whatever the interleaving. */
  lemma {:induction false} RunKeeps(s: State, run: seq<Label>)
    requires Inv(s) && Exec(s, run).Some?
    ensures Inv(Exec(s, run).value)
  {
    if run != [] {
      var n := |run| - 1;
      RunKeeps(s, run[..n]);
      StepKeeps(Exec(s, run[..n]).value, run[n]);
    }
  }

  // ----- What the invariant means for callers -----

  /** The state after a run from power-up. */
  ghost predicate Reachable(s: State) {
    exists run :: Exec(INIT, run) == Some(s)
  }

  lemma ReachableInv(s: State)
    requires Reachable(s)
    ensures Inv(s)
  {
    var run :| Exec(INIT, run) == Some(s);
    RunKeeps(INIT, run);
  }

  /**
   * FIFO order over both delivery paths: bytes handed out, bytes in the lent buffer and bytes in the ring are, in this
   * order, the arrivals that were kept; together with the dropped ones they account for every arrival.
   */
  lemma FifoOrder(s: State)
    requires Reachable(s)
    ensures Delivered(s.calls) + s.filled + s.queue == Kept(s.log)
    ensures |s.log| == |Delivered(s.calls)| + |s.filled| + |s.queue| + Dropped(s.log)
  {
    ReachableInv(s);
    KeptOrDropped(s.log);
  }

  lemma {:induction false} KeptOrDropped(log: seq<Arrival>)
    ensures |log| == |Kept(log)| + Dropped(log)
  {
    if log != [] {
      KeptOrDropped(log[..|log| - 1]);
    }
  }

  /** A byte is dropped exactly when no buffer is lent and 255 bytes are queued. */
  lemma DropsOnlyWhenFull(s: State, b: byte)
    requires Reachable(s)
    ensures Dropped(Step(s, Interrupt(b)).log) == Dropped(s.log) + 1 <==> !s.armed && |s.queue| == 255
    ensures Kept(Step(s, Interrupt(b)).log) == Kept(s.log) + if !s.armed && |s.queue| == 255 then [] else [b]
  {
    ReachableInv(s);
    KeptSnoc(s.log, Step(s, Interrupt(b)).log[|s.log|]);
  }

  /** No lost wake-up: a reader that has something to take can always be woken. */
  lemma NoLostWakeUp(s: State)
    requires Reachable(s)
    ensures s.pc == WaitByte && s.queue != [] ==> Enabled(s, Wake)
    ensures s.pc == WaitBuf && |s.filled| == s.max ==> Enabled(s, Wake)
    ensures s.pc == WaitBuf && |s.filled| < s.max ==> s.armed && !s.event
  {
    ReachableInv(s);
  }

  /** A wait for a buffer that ends by the event returns the full buffer; a short one timed out. */
  lemma ShortReadTimedOut(s: State, k: nat)
    requires Reachable(s) && k < |s.calls|
    ensures ShortOnlyOnTimeOut(s.calls[k])
  {
    ReachableInv(s);
  }

  /** The handler holds a buffer only during a call, and has room in it; what is in it already is never overwritten. */
  lemma LentBuffer(s: State, b: byte)
    requires Reachable(s) && s.armed
    ensures InBuf(s) && s.queue == [] && |s.filled| < s.max
    ensures var s' := Step(s, Interrupt(b));
            s'.filled == s.filled + [b] && |s'.filled| <= s.max && s'.queue == []
            && (s'.armed <==> |s'.filled| < s.max)
  {
    ReachableInv(s);
  }

  function Interrupts(bytes: seq<byte>): seq<Label> {
    seq(|bytes|, i requires 0 <= i < |bytes| => Interrupt(bytes[i]))
  }

  /** Exactly the missing bytes complete a lent buffer and set the event; fewer leave it armed and the event clear. */
  lemma {:induction false} BufferFills(s: State, bytes: seq<byte>)
    requires Inv(s) && s.armed && |s.filled| + |bytes| <= s.max
    ensures var r := Exec(s, Interrupts(bytes));
            && r.Some?
            && r.value.filled == s.filled + bytes && r.value.queue == [] && r.value.pc == s.pc
            && r.value.max == s.max && r.value.calls == s.calls
            && (r.value.armed <==> |s.filled| + |bytes| < s.max)
            && (r.value.event <==> |s.filled| + |bytes| == s.max)
  {
    if bytes == [] {
      assert s.filled + [] == s.filled;
    } else {
      var n := |bytes| - 1;
      BufferFills(s, bytes[..n]);
      assert Interrupts(bytes)[..n] == Interrupts(bytes[..n]);
      assert s.filled + bytes[..n] + [bytes[n]] == s.filled + bytes;
    }
  }

  /** At most the first `n` of some bytes. */
  function Front(m: seq<byte>, n: int): (r: seq<byte>)
    ensures r <= m && |r| == if n <= 0 then 0 else if |m| < n then |m| else n
  {
    if n <= 0 then [] else if |m| < n then m else m[..n]
  }

  /** The state after the handler has taken `bytes`, which it always can. */
  lemma {:induction false} InterruptsRun(s: State, bytes: seq<byte>)
    ensures Exec(s, Interrupts(bytes)).Some?
  {
    if bytes != [] {
      var n := |bytes| - 1;
      InterruptsRun(s, bytes[..n]);
      assert Interrupts(bytes)[..n] == Interrupts(bytes[..n]);
    }
  }

  /** With no buffer lent the bytes queue up as far as there is room, and one that finds room sets the event. */
  lemma {:induction false} QueueFills(s: State, bytes: seq<byte>)
    requires !s.armed && |s.queue| <= 255
    ensures var r := Exec(s, Interrupts(bytes));
            && r.Some? && !r.value.armed
            && r.value.queue == Front(s.queue + bytes, 255)
            && (r.value.event <==> s.event || (bytes != [] && |s.queue| < 255))
            && r.value.filled == s.filled && r.value.max == s.max && r.value.pc == s.pc && r.value.calls == s.calls
  {
    if bytes == [] {
      assert s.queue + [] == s.queue;
    } else {
      var n := |bytes| - 1;
      QueueFills(s, bytes[..n]);
      assert Interrupts(bytes)[..n] == Interrupts(bytes[..n]);
      FrontSnoc(s.queue + bytes[..n], bytes[n], 255);
      assert s.queue + bytes[..n] + [bytes[n]] == s.queue + bytes;
    }
  }

  lemma FrontSnoc(m: seq<byte>, b: byte, n: nat)
    ensures Front(m + [b], n) == if |Front(m, n)| < n then Front(m, n) + [b] else Front(m, n)
  {
    if |m| >= n {
      assert (m + [b])[..n] == m[..n];
    }
  }

  /** A lent buffer takes the bytes up to what was asked for; the byte that completes it sets the event. */
  lemma {:induction false} BufferTakes(s: State, bytes: seq<byte>)
    requires s.armed && |s.filled| < s.max && s.queue == [] && !s.event
    ensures var r := Exec(s, Interrupts(bytes));
            && r.Some?
            && r.value.filled == Front(s.filled + bytes, s.max)
            && (r.value.armed <==> |s.filled| + |bytes| < s.max)
            && (r.value.event <==> |s.filled| + |bytes| >= s.max)
            && (r.value.armed ==> r.value.queue == []) && |r.value.queue| <= 255
            && r.value.max == s.max && r.value.pc == s.pc && r.value.calls == s.calls
  {
    if bytes == [] {
      assert s.filled + [] == s.filled;
    } else {
      var n := |bytes| - 1;
      BufferTakes(s, bytes[..n]);
      assert Interrupts(bytes)[..n] == Interrupts(bytes[..n]);
      FrontSnoc(s.filled + bytes[..n], bytes[n], s.max);
      assert s.filled + bytes[..n] + [bytes[n]] == s.filled + bytes;
    }
  }

  // ----- The line the transfer code sees -----

  /** Calls as bytes and time-outs on a line. */
  function LineOf(calls: seq<Call>): seq<Item> {
    if calls == [] then [] else ItemsOf(calls[0]) + LineOf(calls[1..])
  }

  function ItemsOf(c: Call): seq<Item> {
    match c
    case ReadCall(None) => [Timeout]
    case ReadCall(Some(b)) => [Byte(b)]
    case BufCall(max, _, bytes, _) => Items(bytes) + if |bytes| < max then [Timeout] else []
  }

  /** The same calls made on `input` return the same. */
  predicate Reproduces(calls: seq<Call>, input: seq<Item>) {
    calls == [] ||
    match calls[0]
    case ReadCall(result) => Next(input) == result && Reproduces(calls[1..], Rest(input))
    case BufCall(max, _, bytes, _) =>
      var n := if max > 0 then max else 0;
      Taken(input, n) == bytes && Reproduces(calls[1..], Untaken(input, n))
  }

  /** Any sequence of calls behaves as calls on one line made of bytes and time-outs. */
  lemma {:induction false} CallsAreALine(calls: seq<Call>, more: seq<Item>)
    requires forall k :: 0 <= k < |calls| ==> Bounded(calls[k])
    ensures Reproduces(calls, LineOf(calls) + more)
  {
    hide Items, Taken, Untaken;
    if calls != [] {
      var c, later := calls[0], LineOf(calls[1..]) + more;
      CallsAreALine(calls[1..], more);
      assert LineOf(calls) + more == ItemsOf(c) + later;
      match c {
        case ReadCall(_) =>
          assert (ItemsOf(c) + later)[1..] == later;
        case BufCall(max, _, bytes, _) =>
          if |bytes| < max {
            assert ItemsOf(c) + later == Noise(bytes, 1) + later;
            TakenShort(bytes, 1, later, max);
            NoiseTail([], 0, later);
          } else {
            assert ItemsOf(c) + later == Items(bytes) + later;
            TakenMessage(bytes, later);
          }
      }
    }
  }

  function BytesOf(input: seq<Item>): seq<byte> {
    if input == [] then []
    else (match input[0] case Timeout => [] case Byte(b) => [b]) + BytesOf(input[1..])
  }

  lemma {:induction false} BytesOfConcat(a: seq<Item>, b: seq<Item>)
    ensures BytesOf(a + b) == BytesOf(a) + BytesOf(b)
  {
    if a == [] {
      assert a + b == b;
    } else {
      BytesOfConcat(a[1..], b);
      assert (a + b)[1..] == a[1..] + b;
      var head: seq<byte> := match a[0] case Timeout => [] case Byte(c) => [c];
      assert head + BytesOf(a[1..]) + BytesOf(b) == head + (BytesOf(a[1..]) + BytesOf(b));
    }
  }

  lemma {:induction false} BytesOfItems(m: seq<byte>)
    ensures BytesOf(Items(m)) == m
  {
    if m != [] {
      BytesOfItems(m[1..]);
      assert Items(m)[1..] == Items(m[1..]);
    }
  }

  lemma BytesOfCall(c: Call)
    ensures BytesOf(ItemsOf(c)) == Returned(c)
  {
    match c
    case ReadCall(None) => assert [Timeout][1..] == [];
    case ReadCall(Some(b)) => assert [Byte(b)][1..] == [];
    case BufCall(max, _, bytes, _) =>
      BytesOfItems(bytes);
      BytesOfConcat(Items(bytes), [Timeout]);
      assert [Timeout][1..] == [];
      assert Items(bytes) + [] == Items(bytes);
  }

  lemma {:induction false} DeliveredFront(calls: seq<Call>)
    requires calls != []
    ensures Delivered(calls) == Returned(calls[0]) + Delivered(calls[1..])
  {
    var n := |calls| - 1;
    if n == 0 {
      assert calls[..0] == [] && calls[1..] == [];
    } else {
      DeliveredFront(calls[..n]);
      assert calls[..n][1..] == calls[1..][..n - 1];
      var mid := Delivered(calls[1..][..n - 1]);
      assert Delivered(calls[1..]) == mid + Returned(calls[n]);
      assert Returned(calls[0]) + mid + Returned(calls[n]) == Returned(calls[0]) + (mid + Returned(calls[n]));
    }
  }

  lemma {:induction false} BytesOfLine(calls: seq<Call>)
    ensures BytesOf(LineOf(calls)) == Delivered(calls)
  {
    if calls != [] {
      BytesOfLine(calls[1..]);
      BytesOfConcat(ItemsOf(calls[0]), LineOf(calls[1..]));
      BytesOfCall(calls[0]);
      DeliveredFront(calls);
    }
  }

  /**
   * What `app.c` sees of `serial.c`: after any interleaving, the calls made so far returned what the same calls return
   * on a line whose bytes are a prefix of the arrivals that were kept, in order.
   */
  lemma SerialIsALine(s: State, more: seq<Item>)
    requires Reachable(s)
    ensures Reproduces(s.calls, LineOf(s.calls) + more)
    ensures BytesOf(LineOf(s.calls)) <= Kept(s.log)
  {
    ReachableInv(s);
    CallsAreALine(s.calls, more);
    BytesOfLine(s.calls);
  }
}
