/** The serial line as the receiver sees it: bytes and time-outs come in, reply bytes go out. */
module Wire {
  import opened Crc
  import opened Sequences

  datatype Option<+T> = None | Some(value: T)

  /** What one wait on the line ends with. Past the end of an input every wait times out. */
  datatype Item = Byte(b: byte) | Timeout

  /** A finished call to the reader of the UART and what it returned. */
  datatype Call =
    | ReadCall(result: Option<byte>)
    | BufCall(max: int, wait: bool, bytes: seq<byte>, timedOut: bool)

  function Next(input: seq<Item>): (r: Option<byte>) {
    if input == [] || input[0].Timeout? then None else Some(input[0].b)
  }

  function Rest(input: seq<Item>): (r: seq<Item>)
    ensures |r| <= |input|
    ensures Next(input).Some? ==> |r| < |input|
  {
    if input == [] then [] else input[1..]
  }

  function Items(m: seq<byte>): (r: seq<Item>)
    ensures |r| == |m|
  {
    seq(|m|, i requires 0 <= i < |m| => Byte(m[i]))
  }

  /** The input left after throwing bytes away until a wait times out. */
  function Flushed(input: seq<Item>): (r: seq<Item>)
    ensures |r| <= |input|
  {
    if Next(input).None? then Rest(input) else Flushed(input[1..])
  }

  /** The calls made to throw bytes away until a wait times out. */
  function FlushCalls(input: seq<Item>): seq<Call> {
    [ReadCall(Next(input))] + if Next(input).None? then [] else FlushCalls(input[1..])
  }

  /** The bytes that come before `max` are there or a wait times out. */
  function Taken(input: seq<Item>, max: nat): (m: seq<byte>)
    ensures |m| <= max
  {
    if max == 0 || Next(input).None? then [] else [input[0].b] + Taken(input[1..], max - 1)
  }

  /** The input left after `Taken`. */
  function Untaken(input: seq<Item>, max: nat): (r: seq<Item>)
    ensures |r| <= |input|
  {
    if max == 0 then input
    else if Next(input).None? then Rest(input)
    else Untaken(input[1..], max - 1)
  }

  lemma TakenOneMore(input: seq<Item>, m: seq<byte>)
    requires Next(input).Some?
    ensures Items([input[0].b] + m) == [input[0]] + Items(m)
    ensures forall rest :: input[1..] == Items(m) + rest ==> input == Items([input[0].b] + m) + rest
    ensures input[1..] == Items(m) ==> input == Items([input[0].b] + m)
    ensures forall rest ::
              input[1..] == Items(m) + [Timeout] + rest ==> input == Items([input[0].b] + m) + [Timeout] + rest
  {
    assert Items([input[0].b] + m) == [input[0]] + Items(m);
    assert input == [input[0]] + input[1..];
  }

  /** Nothing is lost or invented: what was taken, at most one time-out, and the rest make up the input. */
  lemma {:induction false} TakenAccounts(input: seq<Item>, max: nat)
    ensures |Taken(input, max)| == max ==> input == Items(Taken(input, max)) + Untaken(input, max)
    ensures |Taken(input, max)| < max ==>
              || (Untaken(input, max) == [] && input == Items(Taken(input, max)))
              || input == Items(Taken(input, max)) + [Timeout] + Untaken(input, max)
  {
    if max == 0 || Next(input).None? {
      assert Items([]) == [];
    } else {
      var m := Taken(input[1..], max - 1);
      TakenAccounts(input[1..], max - 1);
      TakenOneMore(input, m);
    }
  }

  /** Reading a whole message takes exactly its bytes. */
  lemma {:induction false} TakenMessage(m: seq<byte>, rest: seq<Item>)
    ensures Taken(Items(m) + rest, |m|) == m
    ensures Untaken(Items(m) + rest, |m|) == rest
  {
    var input := Items(m) + rest;
    if m == [] {
      assert input == rest;
    } else {
      TakenMessage(m[1..], rest);
      assert input[1..] == Items(m[1..]) + rest;
      assert input[0] == Byte(m[0]);
    }
  }

  function Silence(k: nat): (r: seq<Item>)
    ensures |r| == k
  {
    seq(k, _ => Timeout)
  }

  /** Any bytes at all, and then silence for `q` waits. */
  function Noise(m: seq<byte>, q: nat): (r: seq<Item>)
    ensures |r| == |m| + q
  {
    Items(m) + Silence(q)
  }

  lemma NoiseTail(m: seq<byte>, q: nat, more: seq<Item>)
    ensures m == [] && q == 0 ==> Noise(m, q) + more == more
    ensures m == [] && q > 0 ==>
              (Noise(m, q) + more)[0] == Timeout && (Noise(m, q) + more)[1..] == Noise([], q - 1) + more
    ensures m != [] ==> (Noise(m, q) + more)[0] == Byte(m[0]) && (Noise(m, q) + more)[1..] == Noise(m[1..], q) + more
  {
    if m != [] {
      assert Items(m)[1..] == Items(m[1..]);
    } else if q > 0 {
      assert Silence(q)[1..] == Silence(q - 1);
    }
  }

  /** Reading more than there is takes all of it, and one wait. */
  lemma {:induction false} TakenShort(m: seq<byte>, q: nat, rest: seq<Item>, max: nat)
    requires |m| < max && q > 0
    ensures Taken(Noise(m, q) + rest, max) == m
    ensures Untaken(Noise(m, q) + rest, max) == Noise([], q - 1) + rest
    decreases m
  {
    NoiseTail(m, q, rest);
    if m != [] {
      TakenShort(m[1..], q, rest, max - 1);
    }
  }

  lemma {:induction false} TakenLong(m: seq<byte>, q: nat, rest: seq<Item>, max: nat)
    requires max <= |m|
    ensures Taken(Noise(m, q) + rest, max) == m[..max]
    ensures Untaken(Noise(m, q) + rest, max) == Noise(m[max..], q) + rest
    decreases m
  {
    if max > 0 {
      NoiseTail(m, q, rest);
      TakenLong(m[1..], q, rest, max - 1);
      assert m[1..][max - 1..] == m[max..];
      assert [m[0]] + m[1..][..max - 1] == m[..max];
    }
  }

  lemma {:induction false} FlushedNoise(m: seq<byte>, q: nat, rest: seq<Item>)
    requires q > 0
    ensures Flushed(Noise(m, q) + rest) == Noise([], q - 1) + rest
  {
    NoiseTail(m, q, rest);
    if m != [] {
      FlushedNoise(m[1..], q, rest);
    }
  }

  lemma TakenStep(input: seq<Item>, max: nat)
    ensures max == 0 ==> Taken(input, max) == [] && Untaken(input, max) == input
    ensures max > 0 && Next(input).None? ==> Taken(input, max) == [] && Untaken(input, max) == Rest(input)
    ensures max > 0 && Next(input).Some? ==>
              && Taken(input, max) == [Next(input).value] + Taken(Rest(input), max - 1)
              && Untaken(input, max) == Untaken(Rest(input), max - 1)
  {
  }

  /** The UART as the transfer code uses it. */
  class Line {
    var input: seq<Item>
    var sent: seq<byte>
    ghost var calls: seq<Call>

    constructor (items: seq<Item>)
      ensures input == items && sent == [] && calls == []
    {
      input, sent, calls := items, [], [];
    }

    /** One wait for a byte: the byte, or -1 on a time-out. */
    method Await() returns (c: int)
      modifies this`input
      ensures input == Rest(old(input))
      ensures c == match Next(old(input)) case None => -1 case Some(b) => b as int
    {
      if input == [] {
        return -1;
      }
      c := if input[0].Timeout? then -1 else input[0].b;
      input := input[1..];
    }

    /** `_inbyte`. */
    method InByte() returns (c: int)
      modifies this`input, this`calls
      ensures input == Rest(old(input)) && calls == old(calls) + [ReadCall(Next(old(input)))]
      ensures c == match Next(old(input)) case None => -1 case Some(b) => b as int
    {
      calls := calls + [ReadCall(Next(input))];
      c := Await();
    }

    /** `_outbyte`. */
    method OutByte(c: byte)
      modifies this`sent
      ensures sent == old(sent) + [c]
    {
      sent := sent + [c];
    }

    /** `flushinput`. */
    method FlushInput()
      modifies this`input, this`calls
      ensures input == Flushed(old(input)) && calls == old(calls) + FlushCalls(old(input))
    {
      ghost var before, all, done := calls, FlushCalls(input), [ReadCall(Next(input))];
      var c := InByte();
      while c >= 0
        invariant calls == before + done
        invariant if c >= 0 then Flushed(input) == Flushed(old(input)) && done + FlushCalls(input) == all
                  else input == Flushed(old(input)) && done == all
        decreases |input|, c
      {
        ghost var call := ReadCall(Next(input));
        Associates(done, [call], if Next(input).None? then [] else FlushCalls(input[1..]));
        Associates(before, done, [call]);
        c := InByte();
        done := done + [call];
        Empties(done);
      }
    }

    /** `uart_read_buf` with a non-zero time-out, into `buf` from `off` on. */
    method ReadBuf(buf: array<byte>, off: nat, max: nat) returns (n: nat)
      requires off + max <= buf.Length
      modifies this`input, this`calls, buf
      ensures n == |Taken(old(input), max)| <= max
      ensures buf[off..off + n] == Taken(old(input), max)
      ensures forall k :: 0 <= k < buf.Length && !(off <= k < off + n) ==> buf[k] == old(buf[k])
      ensures input == Untaken(old(input), max)
      ensures calls == old(calls) + [BufCall(max, true, Taken(old(input), max), n < max)]
    {
      hide Taken, Untaken;
      ghost var all, rest, done := Taken(input, max), Untaken(input, max), [];
      calls := calls + [BufCall(max, true, all, |all| < max)];
      ghost var made := calls;
      n := 0;
      Empties(all);
      while n < max
        invariant n <= max && calls == made
        invariant done == buf[off..off + n] && done + Taken(input, max - n) == all
        invariant Untaken(input, max - n) == rest
        invariant forall k :: 0 <= k < buf.Length && !(off <= k < off + n) ==> buf[k] == old(buf[k])
      {
        TakenStep(input, max - n);
        var c := Await();
        if c < 0 {
          Empties(done);
          return;
        }
        Associates(done, [c], Taken(input, max - n - 1));
        buf[off + n] := c;
        done := done + [c];
        n := n + 1;
      }
      TakenStep(input, 0);
      Empties(done);
    }
  }
}
