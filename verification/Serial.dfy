/** `serial.c` as it is written, a ring, a borrowed pointer and an event bit, refining the transitions of `Uart`. */
module Serial {
  import opened Crc
  import opened Sequences
  import opened Wire
  import opened Uart

  const SLOTS: nat := 256

  // ----- The ring as a queue -----

  /** The slots from `start` up to `end`, around the corner if need be. */
  function Ring(slots: seq<byte>, start: nat, end: nat): (q: seq<byte>)
    requires |slots| == SLOTS && start < SLOTS && end < SLOTS
    ensures |q| == (if start <= end then end - start else SLOTS + end - start) <= CAPACITY
  {
    if start <= end then slots[start..end] else slots[start..] + slots[..end]
  }

  lemma RingEmpty(slots: seq<byte>, start: nat, end: nat)
    requires |slots| == SLOTS && start < SLOTS && end < SLOTS
    ensures Ring(slots, start, end) == [] <==> start == end
    ensures |Ring(slots, start, end)| == CAPACITY <==> (end + 1) % SLOTS == start
  {
  }

  lemma RingPop(slots: seq<byte>, start: nat, end: nat)
    requires |slots| == SLOTS && start < SLOTS && end < SLOTS && start != end
    ensures Ring(slots, start, end) == [slots[start]] + Ring(slots, (start + 1) % SLOTS, end)
  {
    if start < end {
      RingPopInside(slots, start, end);
    } else {
      RingPopAround(slots, start, end);
    }
  }

  lemma RingPopInside(slots: seq<byte>, start: nat, end: nat)
    requires |slots| == SLOTS && start < end < SLOTS
    ensures Ring(slots, start, end) == [slots[start]] + Ring(slots, (start + 1) % SLOTS, end)
  {
    hide Ring;
    DropsOneMore(slots, start, end);
    RingInside(slots, start, end);
    RingInside(slots, start + 1, end);
  }

  lemma RingPopAround(slots: seq<byte>, start: nat, end: nat)
    requires |slots| == SLOTS && end < start < SLOTS
    ensures Ring(slots, start, end) == [slots[start]] + Ring(slots, (start + 1) % SLOTS, end)
  {
    hide Ring;
    DropsOneMore(slots, start, SLOTS);
    Associates([slots[start]], slots[start + 1..], slots[..end]);
    RingAround(slots, start, end);
    if start < SLOTS - 1 {
      RingAround(slots, start + 1, end);
    } else {
      RingFromZero(slots, end);
    }
  }

  lemma RingInside(slots: seq<byte>, start: nat, end: nat)
    requires |slots| == SLOTS && start <= end < SLOTS
    ensures Ring(slots, start, end) == slots[start..end]
  {
  }

  lemma RingAround(slots: seq<byte>, start: nat, end: nat)
    requires |slots| == SLOTS && end < start < SLOTS
    ensures Ring(slots, start, end) == slots[start..] + slots[..end]
  {
  }

  lemma RingFromZero(slots: seq<byte>, end: nat)
    requires |slots| == SLOTS && end < SLOTS
    ensures Ring(slots, 0, end) == slots[SLOTS..] + slots[..end]
  {
  }

  lemma RingPush(slots: seq<byte>, start: nat, end: nat, c: byte)
    requires |slots| == SLOTS && start < SLOTS && end < SLOTS && (end + 1) % SLOTS != start
    ensures Ring(slots[end := c], start, (end + 1) % SLOTS) == Ring(slots, start, end) + [c]
  {
    if start <= end {
      RingPushInside(slots, start, end, c);
    } else {
      RingPushAround(slots, start, end, c);
    }
  }

  lemma RingPushInside(slots: seq<byte>, start: nat, end: nat, c: byte)
    requires |slots| == SLOTS && start <= end < SLOTS && (end + 1) % SLOTS != start
    ensures Ring(slots[end := c], start, (end + 1) % SLOTS) == Ring(slots, start, end) + [c]
  {
    var slots' := slots[end := c];
    assert slots'[start..end + 1] == slots[start..end] + [c];
    if end == SLOTS - 1 {
      assert slots'[start..] + slots'[..0] == slots'[start..end + 1];
    }
  }

  lemma RingPushAround(slots: seq<byte>, start: nat, end: nat, c: byte)
    requires |slots| == SLOTS && end + 1 < start < SLOTS
    ensures Ring(slots[end := c], start, (end + 1) % SLOTS) == Ring(slots, start, end) + [c]
  {
    var slots' := slots[end := c];
    assert slots'[start..] == slots[start..];
    assert slots'[..end + 1] == slots[..end] + [c];
    Associates(slots[start..], slots[..end], [c]);
  }

  // ----- Runs -----

  lemma {:induction false} ExecConcat(s: State, a: seq<Label>, b: seq<Label>)
    requires Exec(s, a).Some?
    ensures Exec(s, a + b) == Exec(Exec(s, a).value, b)
  {
    hide Step, Enabled;
    if b == [] {
      assert a + b == a;
    } else {
      var n := |b| - 1;
      ExecConcat(s, a, b[..n]);
      assert (a + b)[..|a| + n] == a + b[..n];
    }
  }

  lemma ExecOne(s: State, l: Label)
    requires Enabled(s, l)
    ensures Exec(s, [l]) == Some(Step(s, l))
  {
    assert [l][..0] == [];
  }

  lemma ExecNothing(s: State)
    ensures Exec(s, []) == Some(s)
    ensures Exec(s, Interrupts([])) == Some(s)
  {
  }

  lemma ExecInterrupt(s: State, bytes: seq<byte>, now: State, b: byte)
    requires Exec(s, Interrupts(bytes)) == Some(now)
    ensures Exec(s, Interrupts(bytes + [b])) == Some(Receive(now, b))
  {
    assert Interrupts(bytes + [b]) == Interrupts(bytes) + [Interrupt(b)];
    ExecOne(now, Interrupt(b));
    ExecConcat(s, Interrupts(bytes), [Interrupt(b)]);
  }

  lemma QueueReceives(s: State, c: byte)
    requires !s.armed
    ensures Step(s, Interrupt(c)) ==
            if |s.queue| < CAPACITY
            then State(s.queue + [c], true, false, s.filled, s.max, s.pc, s.log + [Arrival(c, true)], s.calls)
            else State(s.queue, s.event, false, s.filled, s.max, s.pc, s.log + [Arrival(c, false)], s.calls)
  {
  }

  lemma ExecMore(s: State, run: seq<Label>, now: State, more: seq<Label>, next: State)
    requires Exec(s, run) == Some(now) && Exec(now, more) == Some(next)
    ensures Exec(s, run + more) == Some(next)
  {
    ExecConcat(s, run, more);
  }

  lemma ExecThen(s: State, run: seq<Label>, now: State, l: Label)
    requires Exec(s, run) == Some(now) && Enabled(now, l)
    ensures Exec(s, run + [l]) == Some(Step(now, l))
  {
    assert (run + [l])[..|run|] == run;
  }

  /** `now` differs from `was` at most in the `n` places from `at` on. */
  ghost predicate OnlyWithin(was: seq<byte>, now: seq<byte>, at: nat, n: int) {
    |was| == |now| && forall k :: 0 <= k < |was| && !(at <= k < at + n) ==> now[k] == was[k]
  }

  /** What happens around one wait: bytes during it, whether it times out, and bytes before the next lock. */
  datatype Wait = Wait(arrivals: seq<byte>, expires: bool, late: seq<byte>)

  /** A wait as a run: the bytes during it, its end, and the bytes before the next lock. */
  function WaitRun(w: Wait, expired: bool): seq<Label> {
    Interrupts(w.arrivals) + [if expired then Expire else Wake] + Interrupts(w.late)
  }

  /** The states of a wait: after the bytes that arrive during it, and after its end. */
  lemma WaitStates(s: State, w: Wait, expired: bool, s': State) returns (r: State, ended: State)
    requires Exec(s, WaitRun(w, expired)) == Some(s')
    ensures var l := if expired then Expire else Wake;
            && Exec(s, Interrupts(w.arrivals)) == Some(r)
            && Enabled(r, l) && ended == Step(r, l)
            && Exec(ended, Interrupts(w.late)) == Some(s')
  {
    hide Step;
    var a, l, b := Interrupts(w.arrivals), if expired then Expire else Wake, Interrupts(w.late);
    InterruptsRun(s, w.arrivals);
    r := Exec(s, a).value;
    ExecConcat(s, a, [l] + b);
    Associates(a, [l], b);
    ExecHead(r, l, b);
    ended := Step(r, l);
  }

  lemma {:induction false} ExecHead(s: State, l: Label, b: seq<Label>)
    requires Exec(s, [l] + b).Some?
    ensures Enabled(s, l) && Exec(s, [l] + b) == Exec(Step(s, l), b)
  {
    hide Step, Enabled;
    if b == [] {
      Empties([l]);
      assert [l][..0] == [];
    } else {
      var n := |b| - 1;
      assert ([l] + b)[..1 + n] == [l] + b[..n];
      ExecHead(s, l, b[..n]);
    }
  }

  lemma FrontTwice(a: seq<byte>, b: seq<byte>, n: int)
    ensures Front(Front(a, n) + b, n) == Front(a + b, n)
  {
    if n > 0 && |a| >= n {
      TakesBack(a[..n], b);
      assert (a + b)[..n] == a[..n];
    }
  }

  /** What a wait of `uart_read` that ends by the event has brought. */
  lemma ByteWait(s: State, w: Wait, s': State)
    requires !s.armed && s.queue == [] && s.pc == WaitByte && Exec(s, WaitRun(w, false)) == Some(s')
    ensures s'.queue == Front(w.arrivals + w.late, 255)
    ensures w.arrivals == [] && w.late == [] ==> !s'.event
  {
    hide Exec, Interrupts;
    var r, ended := WaitStates(s, w, false, s');
    QueueFills(s, w.arrivals);
    QueueFills(ended, w.late);
    Empties(w.arrivals);
    FrontTwice(w.arrivals, w.late, 255);
  }

  /** What a wait of `uart_read_buf` has brought. */
  lemma BufWait(s: State, w: Wait, expired: bool, s': State)
    requires s.armed && |s.filled| < s.max && s.queue == [] && !s.event && s.pc == WaitBuf
    requires Exec(s, WaitRun(w, expired)) == Some(s')
    ensures s'.filled == Front(s.filled + w.arrivals + w.late, s.max)
    ensures !expired ==> |s.filled| + |w.arrivals| >= s.max
  {
    hide Exec, Interrupts;
    var r, ended := WaitStates(s, w, expired, s');
    BufferTakes(s, w.arrivals);
    if r.armed {
      BufferTakes(ended, w.late);
    } else {
      QueueFills(ended, w.late);
      FrontFull(s.filled + w.arrivals, w.late, s.max);
    }
  }

  lemma QueueTaken(queue: seq<byte>, want: int)
    ensures queue[..Ready(queue, want)] == Front(queue, want)
    ensures Ready(queue, want) == if want <= 0 then 0 else if want < |queue| then want else |queue|
    ensures |queue| < want ==> queue[..Ready(queue, want)] == queue
  {
  }

  lemma BufferSignals(s: State, bytes: seq<byte>)
    requires s.armed && |s.filled| < s.max && s.queue == [] && !s.event
    ensures var r := Exec(s, Interrupts(bytes)); r.Some? && (r.value.event <==> |s.filled| + |bytes| >= s.max)
  {
    hide Exec, Interrupts;
    BufferTakes(s, bytes);
  }

  lemma FrontFull(a: seq<byte>, b: seq<byte>, n: int)
    requires |a| >= n
    ensures Front(a + b, n) == Front(a, n)
  {
  }

  /** What `uart_read` returns, given the queue, the event and what happens around its waits. */
  function ReadResult(queue: seq<byte>, event: bool, waits: seq<Wait>): int
    decreases |waits|
  {
    if queue != [] then queue[0]
    else if waits == [] || waits[0].expires then -1
    else if waits[0].arrivals != [] then waits[0].arrivals[0]
    else if !event then -1
    else if waits[0].late != [] then waits[0].late[0]
    else ReadResult([], false, waits[1..])
  }

  lemma ReadResultQueued(queue: seq<byte>, event: bool, waits: seq<Wait>)
    requires queue != []
    ensures ReadResult(queue, event, waits) == queue[0]
  {
  }

  /** What the first wait decides; one that ends by an event left over from before decides nothing. */
  lemma ReadResultCases(queue: seq<byte>, event: bool, waits: seq<Wait>)
    ensures var rec := ReadResult(queue, event, waits);
            && (queue != [] ==> rec == queue[0])
            && (queue == [] && (waits == [] || waits[0].expires) ==> rec == -1)
            && (queue == [] && waits != [] && !waits[0].expires && waits[0].arrivals != [] ==>
                  rec == waits[0].arrivals[0])
            && (queue == [] && waits != [] && !waits[0].expires && waits[0].arrivals == [] && waits[0].late != [] ==>
                  rec == if event then waits[0].late[0] else -1)
            && (queue == [] && event && |waits| > 1 && waits[0] == Wait([], false, []) ==>
                  !waits[1].expires && waits[1].arrivals != [] ==> rec == waits[1].arrivals[0])
  {
  }

  /** One wait of `uart_read` on an empty ring, and the queue and the event after it. */
  lemma ReadResultWait(waits: seq<Wait>, k: nat, event: bool, error: bool, queue: seq<byte>, event': bool)
    requires k <= |waits|
    requires var w := if k < |waits| then waits[k] else Wait([], true, []);
             && (error <==> w.expires || (w.arrivals == [] && !event))
             && (!error ==>
                   queue == Front(w.arrivals + w.late, 255) && (w.arrivals == [] && w.late == [] ==> !event'))
    ensures error ==> ReadResult([], event, waits[k..]) == -1
    ensures !error ==> k < |waits| && ReadResult([], event, waits[k..]) == ReadResult(queue, event', waits[k + 1..])
  {
    if k < |waits| {
      assert waits[k..][1..] == waits[k + 1..];
    }
  }

  /** The `rx` part of the UART state, its ring, and the interrupt buffer slot. */
  class Port {
    const rx: array<byte>
    var start: nat
    var end: nat
    var event: bool
    // irq_buf: pointer and offset of the caller's buffer, bytes in it, bytes wanted
    var ptr: array?<byte>
    var off: nat
    var nbytes: nat
    var max: int

    // where the reader is, the buffer of its call, and the history
    ghost var pc: Pc
    ghost var buf: array<byte>
    ghost var base: nat
    ghost var log: seq<Arrival>
    ghost var calls: seq<Call>

    ghost predicate Busy()
      reads this
    {
      pc == WaitBuf || pc.WokenBuf?
    }

    ghost predicate Valid()
      reads this
    {
      && rx.Length == SLOTS && start < SLOTS && end < SLOTS
      && (Busy() ==> buf != rx && nbytes <= max && base + max <= buf.Length)
      && (ptr != null ==> Busy() && ptr == buf && off == base && nbytes < max)
    }

    ghost function Abs(): State
      requires Valid()
      reads this, rx, buf
    {
      State(Ring(rx[..], start, end), event, ptr != null,
            if Busy() then buf[base..base + nbytes] else [], if Busy() then max else 0, pc, log, calls)
    }

    /** What the buffer of the current call holds before and after the part to be filled. */
    ghost function Around(): (seq<byte>, seq<byte>)
      requires Valid()
      reads this, buf
    {
      if Busy() then (buf[..base], buf[base + max..]) else ([], [])
    }

    constructor ()
      ensures Valid() && Abs() == INIT
    {
      rx := new byte[SLOTS](_ => 0);
      start, end, event, ptr, off, nbytes, max := 0, 0, false, null, 0, 0, 0;
      pc, base, log, calls := Idle, 0, [], [];
      buf := new byte[0];
    }

    /** Storing a byte in the ring, as `uart_getc_unsafe` does it when there is room. */
    method Push(c: byte)
      requires rx.Length == SLOTS && start < SLOTS && end < SLOTS && (end + 1) % SLOTS != start
      modifies this`end, rx
      ensures end < SLOTS && Ring(rx[..], start, end) == old(Ring(rx[..], start, end)) + [c]
    {
      RingPush(rx[..], start, end, c);
      ghost var slots := rx[..];
      rx[end] := c;
      assert rx[..] == slots[end := c];
      end := (end + 1) % SLOTS;
    }

    /** `uart_getc_unsafe`. */
    method GetcUnsafe(c: byte)
      requires Valid() && ptr == null
      modifies this`end, this`event, this`log, rx
      ensures Valid() && Abs() == Step(old(Abs()), Interrupt(c))
    {
      hide Ring, Step, Receive;
      ghost var s := Abs();
      RingEmpty(rx[..], start, end);
      var nextEnd := (end + 1) % SLOTS;
      if nextEnd != start {
        Push(c);
        event := true;
        log := log + [Arrival(c, true)];
        QueueReceives(s, c);
        assert Busy() ==> buf[base..base + nbytes] == s.filled;
        assert Abs() == State(s.queue + [c], true, false, s.filled, s.max, s.pc, log, s.calls);
      } else {
        QueueReceives(s, c);
        log := log + [Arrival(c, false)];
        assert Abs() == State(s.queue, s.event, false, s.filled, s.max, s.pc, log, s.calls);
      }
    }

    /** The branch of `UartIrqHandler` that writes straight into the caller's buffer. */
    method PutDirect(c: byte)
      requires Valid() && ptr != null
      modifies this`event, this`ptr, this`nbytes, this`log, ptr
      ensures Valid() && Abs() == Receive(old(Abs()), c) && Around() == old(Around())
      ensures ptr != null ==> ptr == old(ptr)
    {
      hide Ring;
      ghost var s, slots, filled := Abs(), rx[..], buf[base..base + nbytes];
      ptr[off + nbytes] := c;
      nbytes := nbytes + 1;
      assert buf[base..base + nbytes] == filled + [c];
      if nbytes >= max {
        ptr := null;
        event := true;
      }
      log := log + [Arrival(c, true)];
      assert rx[..] == slots;
      assert Abs() == State(s.queue, event, ptr != null, filled + [c], max, pc, log, calls);
    }

    /** One turn of the loop of `UartIrqHandler`: a byte from the hardware FIFO. */
    method Irq(c: byte)
      requires Valid()
      modifies this`end, this`event, this`ptr, this`nbytes, this`log, rx, if ptr == null then {} else {ptr}
      ensures Valid() && Abs() == Receive(old(Abs()), c) && Around() == old(Around())
      ensures ptr != null ==> ptr == old(ptr)
    {
      hide Receive, Ring;
      if ptr != null {
        PutDirect(c);
      } else {
        GetcUnsafe(c);
      }
    }

    /** A turn of the loop after the bytes of `done` have been taken, starting from `s`. */
    method NextIrq(c: byte, ghost s: State, ghost done: seq<byte>)
      requires Valid() && Exec(s, Interrupts(done)) == Some(Abs())
      modifies this`end, this`event, this`ptr, this`nbytes, this`log, rx, if ptr == null then {} else {ptr}
      ensures Valid() && Exec(s, Interrupts(done + [c])) == Some(Abs()) && Around() == old(Around())
      ensures ptr != null ==> ptr == old(ptr)
    {
      ExecInterrupt(s, done, Abs(), c);
      Irq(c);
    }

    /** `UartIrqHandler`: everything in the hardware FIFO. */
    method UartIrqHandler(fifo: seq<byte>)
      requires Valid()
      modifies this`end, this`event, this`ptr, this`nbytes, this`log, rx, if ptr == null then {} else {ptr}
      ensures Valid() && Exec(old(Abs()), Interrupts(fifo)) == Some(Abs())
      ensures Around() == old(Around())
      ensures ptr != null ==> ptr == old(ptr)
    {
      hide Exec, Interrupts, Ring;
      var i := 0;
      ghost var s, around, done := Abs(), Around(), [];
      ExecNothing(s);
      while i < |fifo|
        invariant i <= |fifo| && done == fifo[..i]
        invariant Valid() && Exec(s, Interrupts(done)) == Some(Abs()) && Around() == around
        invariant ptr != null ==> ptr == old(ptr)
      {
        NextIrq(fifo[i], s, done);
        done := done + [fifo[i]];
        i := i + 1;
      }
      assert fifo[..i] == fifo;
    }

    /** The end of a wait: by time-out, or by the event, which is cleared. */
    method EndWait(error: bool)
      requires Valid() && (pc == WaitByte || pc == WaitBuf) && (!error ==> event)
      modifies this`event, this`pc, this`calls
      ensures Valid() && Abs() == Step(old(Abs()), if error then Expire else Wake) && Around() == old(Around())
      ensures pc == if old(pc) == WaitBuf then WokenBuf(error) else if error then Idle else WokenByte
      ensures calls == old(calls) + if old(pc) == WaitByte && error then [ReadCall(None)] else []
    {
      hide Ring;
      if !error {
        event := false;
      }
      if pc == WaitByte && error {
        calls := calls + [ReadCall(None)];
      }
      pc := if pc == WaitBuf then WokenBuf(error) else if error then Idle else WokenByte;
      assert rx[..] == old(rx[..]);
    }

    /** `LOS_EventRead`: bytes may arrive while it waits; it ends by the event or by time-out. */
    method EventRead(w: Wait) returns (error: bool)
      requires Valid() && (pc == WaitByte || pc == WaitBuf)
      modifies this`end, this`event, this`ptr, this`nbytes, this`log, this`pc, this`calls
      modifies rx, if ptr == null then {} else {ptr}
      ensures Valid()
      ensures Exec(old(Abs()), Interrupts(w.arrivals) + [if error then Expire else Wake]) == Some(Abs())
      ensures var r := Exec(old(Abs()), Interrupts(w.arrivals)); r.Some? && (error <==> w.expires || !r.value.event)
      ensures pc == if old(pc) == WaitBuf then WokenBuf(error) else if error then Idle else WokenByte
      ensures calls == old(calls) + if old(pc) == WaitByte && error then [ReadCall(None)] else []
      ensures Around() == old(Around())
      ensures ptr != null ==> ptr == old(ptr)
    {
      hide Exec, Interrupts, Receive, Ring;
      ghost var s := Abs();
      UartIrqHandler(w.arrivals);
      error := w.expires || !event;
      ExecThen(s, Interrupts(w.arrivals), Abs(), if error then Expire else Wake);
      EndWait(error);
    }

    /** Taking the oldest byte out of the ring, as both reading functions do it. */
    method Pop() returns (c: byte)
      requires rx.Length == SLOTS && start < SLOTS && end < SLOTS && start != end
      modifies this`start
      ensures start < SLOTS
      ensures old(Ring(rx[..], start, end)) == [c] + Ring(rx[..], start, end)
    {
      RingPop(rx[..], start, end);
      c := rx[start];
      start := (start + 1) % SLOTS;
    }

    /** The locked end of `uart_read`: take the oldest byte. `entry` is how the reader got here. */
    method TakeByte(ghost entry: Label) returns (rec: byte)
      requires Valid() && Enabled(Abs(), entry) && (entry == CallRead || entry == Relock) && start != end
      modifies this`start, this`pc, this`calls
      ensures Valid() && pc == Idle && Abs() == Step(old(Abs()), entry)
      ensures calls == old(calls) + [ReadCall(Some(rec))]
      ensures old(Abs()).queue != [] && rec == old(Abs()).queue[0]
    {
      RingEmpty(rx[..], start, end);
      rec := Pop();
      pc, calls := Idle, calls + [ReadCall(Some(rec))];
    }

    /** The check of `uart_read` that finds the ring empty. */
    ghost method FindEmpty(entry: Label)
      requires Valid() && Enabled(Abs(), entry) && (entry == CallRead || entry == Relock) && start == end
      modifies this`pc
      ensures Valid() && pc == WaitByte && Abs() == Step(old(Abs()), entry)
    {
      RingEmpty(rx[..], start, end);
      pc := WaitByte;
    }

    /** One wait of `uart_read` on an empty ring, and what arrives before interrupts are locked again. */
    method AwaitByte(w: Wait) returns (error: bool, ghost run: seq<Label>)
      requires Valid() && pc == WaitByte && Abs().queue == []
      modifies this`end, this`event, this`ptr, this`nbytes, this`log, this`pc, this`calls, rx
      ensures Valid() && Exec(old(Abs()), run) == Some(Abs())
      ensures if error then pc == Idle && calls == old(calls) + [ReadCall(None)]
              else pc == WokenByte && calls == old(calls)
      ensures error <==> w.expires || (w.arrivals == [] && !old(event))
      ensures !error ==> Abs().queue == Front(w.arrivals + w.late, 255) && (w.arrivals == [] && w.late == [] ==> !event)
    {
      hide Exec, Interrupts, Receive, Ring, Step, Enabled;
      ghost var s := Abs();
      QueueFills(s, w.arrivals);
      error := EventRead(w);
      run := Interrupts(w.arrivals) + [if error then Expire else Wake];
      if !error {
        UartIrqHandler(w.late);
        ExecConcat(s, run, Interrupts(w.late));
        run := run + Interrupts(w.late);
        ByteWait(s, w, Abs());
      }
    }

    /** A check of `uart_read` that finds the ring empty, and the wait after it. */
    method WaitOnce(w: Wait, ghost entry: Label) returns (error: bool, ghost run: seq<Label>)
      requires Valid() && Enabled(Abs(), entry) && (entry == CallRead || entry == Relock) && start == end
      modifies this`end, this`event, this`ptr, this`nbytes, this`log, this`pc, this`calls, rx
      ensures Valid() && Exec(old(Abs()), run) == Some(Abs())
      ensures if error then pc == Idle && calls == old(calls) + [ReadCall(None)]
              else pc == WokenByte && calls == old(calls)
      ensures error <==> w.expires || (w.arrivals == [] && !old(event))
      ensures !error ==> Abs().queue == Front(w.arrivals + w.late, 255) && (w.arrivals == [] && w.late == [] ==> !event)
    {
      hide Exec, Ring, Step;
      RingEmpty(rx[..], start, end);
      ghost var s, now := Abs(), Step(Abs(), entry);
      ExecOne(s, entry);
      FindEmpty(entry);
      error, run := AwaitByte(w);
      ExecMore(s, [entry], now, run, Abs());
      run := [entry] + run;
    }

    /** `uart_read`, with what happens around each of its waits; a wait past the end of `waits` times out. */
    method UartRead(waits: seq<Wait>) returns (rec: int, ghost run: seq<Label>)
      requires Valid() && pc == Idle
      modifies this`start, this`end, this`event, this`ptr, this`nbytes, this`log, this`pc, this`calls, rx
      ensures Valid() && pc == Idle
      ensures Exec(old(Abs()), run) == Some(Abs())
      ensures -1 <= rec < 256
      ensures calls == old(calls) + [ReadCall(if rec < 0 then None else Some(rec))]
      ensures rec == ReadResult(old(Abs()).queue, old(event), waits)
      ensures var queue := old(Abs()).queue;
              && (queue != [] ==> rec == queue[0])
              && (queue == [] && (waits == [] || waits[0].expires) ==> rec == -1)
              && (queue == [] && waits != [] && !waits[0].expires && waits[0].arrivals != [] ==>
                    rec == waits[0].arrivals[0])
              && (queue == [] && waits != [] && !waits[0].expires && waits[0].arrivals == [] && waits[0].late != [] ==>
                    rec == if old(event) then waits[0].late[0] else -1)
              && (queue == [] && old(event) && |waits| > 1 && waits[0] == Wait([], false, []) ==>
                    !waits[1].expires && waits[1].arrivals != [] ==> rec == waits[1].arrivals[0])
    {
      hide Exec, Ring, Step, ReadResult, Front;
      ghost var s, entry := Abs(), CallRead;
      ghost var result := ReadResult(Abs().queue, event, waits);
      ReadResultCases(Abs().queue, event, waits);
      ExecNothing(s);
      assert waits[0..] == waits;
      run := [];
      var k := 0;
      while start == end
        invariant k <= |waits|
        invariant Valid() && (entry == CallRead || entry == Relock) && Enabled(Abs(), entry)
        invariant Exec(s, run) == Some(Abs()) && calls == old(calls)
        invariant result == ReadResult(Abs().queue, event, waits[k..])
        decreases |waits| - k
      {
        RingEmpty(rx[..], start, end);
        ghost var now, bit := Abs(), event;
        var w := if k < |waits| then waits[k] else Wait([], true, []);
        var error;
        ghost var more;
        error, more := WaitOnce(w, entry);
        ExecMore(s, run, now, more, Abs());
        run := run + more;
        ReadResultWait(waits, k, bit, error, Abs().queue, event);
        if error {
          return -1, run;
        }
        entry := Relock;
        k := k + 1;
      }
      RingEmpty(rx[..], start, end);
      ReadResultQueued(Abs().queue, event, waits[k..]);
      ExecThen(s, run, Abs(), entry);
      rec := TakeByte(entry);
      run := run + [entry];
    }

    /** The loop of `uart_read_buf` that empties the ring into the buffer as far as it goes. */
    method Drain(dest: array<byte>, at: nat, want: int) returns (n: nat)
      requires Valid() && dest != rx
      requires want > 0 ==> at + want <= dest.Length
      requires at <= dest.Length
      modifies this`start, dest
      ensures var queue := old(Ring(rx[..], start, end));
              && n == Ready(queue, want)
              && at + n <= dest.Length && dest[at..at + n] == queue[..n]
              && start < SLOTS && Ring(rx[..], start, end) == queue[n..]
              && (n < want ==> start == end)
      ensures forall k :: 0 <= k < dest.Length && !(at <= k < at + n) ==> dest[k] == old(dest[k])
    {
      hide Ring;
      n := 0;
      ghost var slots := rx[..];
      ghost var queue := Ring(slots, start, end);
      while n < want && start != end
        invariant start < SLOTS && n <= |queue| && (n <= want || n == 0)
        invariant at + n <= dest.Length && dest[at..at + n] == queue[..n]
        invariant rx[..] == slots
        invariant Ring(slots, start, end) == queue[n..]
        invariant forall k :: 0 <= k < dest.Length && !(at <= k < at + n) ==> dest[k] == old(dest[k])
        decreases |queue| - n
      {
        var c := Pop();
        DropsOne(queue, n, c, Ring(slots, start, end));
        dest[at + n] := c;
        assert rx[..] == slots;
        assert dest[at..at + n] == queue[..n];
        n := n + 1;
        assert dest[at..at + n] == queue[..n];
      }
      RingEmpty(slots, start, end);
    }

    /** The assignments of `uart_read_buf` that hand the buffer to the interrupt handler. */
    method Lend(dest: array<byte>, at: nat, n: nat, want: int)
      requires Valid() && pc == Idle && dest != rx && n < want && at + want <= dest.Length
      modifies this`ptr, this`off, this`nbytes, this`max, this`event, this`pc, this`buf, this`base
      ensures Valid() && ptr != null && buf == dest && base == at && max == want && nbytes == n && !event
      ensures Abs() ==
              old(Abs()).(event := false, armed := true, filled := dest[at..at + n], max := want, pc := WaitBuf)
    {
      hide Ring;
      ptr, off, nbytes, max := dest, at, n, want;
      event := false;
      pc, buf, base := WaitBuf, dest, at;
    }

    /** The first locked part of `uart_read_buf`: take what is there, and lend the buffer if that is not enough. */
    method BeginBuf(timeOut: nat, dest: array<byte>, at: nat, want: int) returns (n: nat, waits: bool, ghost c: Call)
      requires Valid() && pc == Idle && dest != rx
      requires (want > 0 ==> at + want <= dest.Length) && at <= dest.Length
      modifies this, dest
      ensures Valid() && Exec(old(Abs()), [CallBuf(want, timeOut != 0)]) == Some(Abs())
      ensures waits <==> n < want && timeOut != 0
      ensures if waits then pc == WaitBuf && buf == dest && base == at && max == want && calls == old(calls)
              else pc == Idle && at + n <= dest.Length
                   && calls == old(calls) + [c] && c == BufCall(want, timeOut != 0, dest[at..at + n], false)
      ensures waits ==> ptr != null && !event && start == end && nbytes == n
      ensures var queue := old(Abs()).queue; n == Ready(queue, want) && dest[at..at + n] == queue[..n]
      ensures OnlyWithin(old(dest[..]), dest[..], at, want)
    {
      hide Exec;
      ghost var s, queue := Abs(), Ring(rx[..], start, end);
      ExecOne(s, CallBuf(want, timeOut != 0));
      n := Drain(dest, at, want);
      assert dest[at..at + n] == queue[..n] && Ring(rx[..], start, end) == queue[n..];
      waits := n < want && timeOut != 0;
      if waits {
        c := ReadCall(None);
        Lend(dest, at, n, want);
        assert Abs() == Begin(s, want, true);
      } else {
        c := BufCall(want, timeOut != 0, dest[at..at + n], false);
        calls := calls + [c];
        assert Abs() == Begin(s, want, timeOut != 0);
      }
    }

    /** The second locked part of `uart_read_buf`: take the buffer back. */
    method FinishBuf() returns (n: nat)
      requires Valid() && pc.WokenBuf?
      modifies this`ptr, this`nbytes, this`max, this`pc, this`calls
      ensures Valid() && pc == Idle && ptr == null && Abs() == Step(old(Abs()), Collect)
      ensures n == old(nbytes) <= old(max)
      ensures calls == old(calls) + [BufCall(old(max), true, buf[base..base + n], old(pc).timedOut)]
    {
      hide Ring;
      ghost var s, slots := Abs(), rx[..];
      assert s.filled == buf[base..base + nbytes] && s.max == max;
      n := nbytes;
      calls := calls + [BufCall(max, true, buf[base..base + n], pc.timedOut)];
      ptr, nbytes, max := null, 0, 0;
      pc := Idle;
      assert rx[..] == slots;
      assert Abs() == State(s.queue, s.event, false, [], 0, Idle, s.log, calls);
    }

    /** The wait of `uart_read_buf` for a lent buffer, and what arrives before interrupts are locked again. */
    method AwaitBuf(w: Wait) returns (timedOut: bool, ghost run: seq<Label>)
      requires Valid() && pc == WaitBuf && ptr != null && !event && start == end
      modifies this`end, this`event, this`ptr, this`nbytes, this`log, this`pc, this`calls, rx, ptr
      ensures Valid() && Exec(old(Abs()), run) == Some(Abs())
      ensures pc == WokenBuf(timedOut) && calls == old(calls)
      ensures run == WaitRun(w, timedOut)
      ensures timedOut <==> w.expires || old(nbytes) + |w.arrivals| < max
      ensures OnlyWithin(old(buf[..]), buf[..], base, max)
    {
      hide Exec, Interrupts, Step, Receive, Ring;
      ghost var s, mem, lo, hi := Abs(), buf[..], base, base + max;
      assert Around() == (mem[..lo], mem[hi..]);
      RingEmpty(rx[..], start, end);
      BufferSignals(s, w.arrivals);
      timedOut := EventRead(w);
      run := Interrupts(w.arrivals) + [if timedOut then Expire else Wake];
      UartIrqHandler(w.late);
      ExecConcat(s, run, Interrupts(w.late));
      run := run + Interrupts(w.late);
      SameOutside(mem, buf[..], lo, hi - lo);
    }

    /** `uart_read_buf` from the wait on. */
    method AwaitAndFinish(w: Wait) returns (n: nat, ghost run: seq<Label>, ghost timedOut: bool, ghost c: Call)
      requires Valid() && pc == WaitBuf && ptr != null && !event && start == end
      modifies this`end, this`event, this`ptr, this`nbytes, this`max, this`log, this`pc, this`calls, rx, ptr
      ensures Valid() && pc == Idle && ptr == null
      ensures Exec(old(Abs()), run) == Some(Abs())
      ensures n <= old(max) && base + old(max) <= buf.Length
      ensures calls == old(calls) + [c] && c == BufCall(old(max), true, buf[base..base + n], timedOut)
      ensures timedOut <==> w.expires || old(nbytes) + |w.arrivals| < old(max)
      ensures buf[base..base + n] == Front(old(buf[base..base + nbytes]) + w.arrivals + w.late, old(max))
      ensures OnlyWithin(old(buf[..]), buf[..], base, old(max))
    {
      hide Exec, Interrupts, Receive, Ring, Front, WaitRun, Step;
      ghost var s := Abs();
      RingEmpty(rx[..], start, end);
      timedOut, run := AwaitBuf(w);
      BufWait(s, w, timedOut, Abs());
      ExecThen(s, run, Abs(), Collect);
      n := FinishBuf();
      c := BufCall(old(max), true, buf[base..base + n], timedOut);
      run := run + [Collect];
    }

    /** `uart_read_buf` into `dest` from `at` on, with what happens around its wait. */
    method UartReadBuf(timeOut: nat, dest: array<byte>, at: nat, want: int, w: Wait)
      returns (n: nat, ghost run: seq<Label>, ghost timedOut: bool, ghost c: Call)
      requires Valid() && pc == Idle && dest != rx
      requires (want > 0 ==> at + want <= dest.Length) && at <= dest.Length
      modifies this, rx, dest
      ensures Valid() && pc == Idle && ptr == null
      ensures Exec(old(Abs()), run) == Some(Abs())
      ensures at + n <= dest.Length
      ensures calls == old(calls) + [c] && c == BufCall(want, timeOut != 0, dest[at..at + n], timedOut)
      ensures OnlyWithin(old(dest[..]), dest[..], at, want)
      ensures var queue := old(Abs()).queue;
              var waits := |queue| < want && timeOut != 0;
              && dest[at..at + n] == Front(if waits then queue + w.arrivals + w.late else queue, want)
              && (timedOut <==> waits && (w.expires || |queue| + |w.arrivals| < want))
    {
      hide Exec, Ring, Front, Ready, OnlyWithin, Step, Receive, Begin, Finish, Fetch, Enabled;
      ghost var s, queue, first := Abs(), Abs().queue, dest[..];
      var waits;
      n, waits, c := BeginBuf(timeOut, dest, at, want);
      QueueTaken(queue, want);
      run, timedOut := [CallBuf(want, timeOut != 0)], false;
      if waits {
        ghost var now, more := Abs(), [];
        ghost var mem := dest[..];
        assert buf[base..base + nbytes] == queue;
        n, more, timedOut, c := AwaitAndFinish(w);
        StillWithin(first, mem, dest[..], at, want);
        ExecMore(s, run, now, more, Abs());
        run := run + more;
      }
    }
  }

  lemma SameOutside(a: seq<byte>, b: seq<byte>, at: nat, n: nat)
    requires at + n <= |a| == |b| && a[..at] == b[..at] && a[at + n..] == b[at + n..]
    ensures OnlyWithin(a, b, at, n)
  {
    forall k | 0 <= k < |a| && !(at <= k < at + n) ensures b[k] == a[k] {
      if k < at {
        assert a[..at][k] == b[..at][k];
      } else {
        assert a[at + n..][k - (at + n)] == b[at + n..][k - (at + n)];
      }
    }
  }

  lemma StillWithin(a: seq<byte>, b: seq<byte>, c: seq<byte>, at: nat, n: nat)
    requires OnlyWithin(a, b, at, n) && OnlyWithin(b, c, at, n)
    ensures OnlyWithin(a, c, at, n)
  {
  }

  lemma DropsOne(queue: seq<byte>, n: nat, b: byte, rest: seq<byte>)
    requires n <= |queue| && queue[n..] == [b] + rest
    ensures n < |queue| && queue[n] == b && queue[n + 1..] == rest && queue[..n + 1] == queue[..n] + [b]
  {
    assert queue[n..][0] == b;
    assert queue[n..][1..] == rest;
  }
}
