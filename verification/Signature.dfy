/** `ReadSign`: a signature typed as hexadecimal lines. */
module Signature {
  import opened Crc
  import opened Sequences
  import opened Wire
  import opened Console

  /** The length of the buffer for one line. */
  const LINE: nat := 32

  /** `strtoul` in base 16 on two characters, as a byte; `None` where it reports an error. */
  type Hex = (byte, byte) -> Option<byte>

  // ----- Decoding one line -----

  /** The bytes decoded before the end of the line or the first error, and whether there was none. */
  function Pairs(hex: Hex, mem: seq<byte>, i: nat, n: nat): (r: (seq<byte>, bool))
    requires i <= n + 1 && n <= |mem| && (n % 2 == 1 ==> n < |mem|) && i % 2 == 0
    ensures |r.0| <= (n + 1 - i) / 2
    ensures r.1 ==> |r.0| == (n + 1 - i) / 2
    decreases n + 1 - i
  {
    if i >= n then ([], true)
    else
      match hex(mem[i], mem[i + 1])
      case None => ([], false)
      case Some(b) =>
        var (bytes, ok) := Pairs(hex, mem, i + 2, n);
        ([b] + bytes, ok)
  }

  // ----- The whole signature -----

  /** The result of `ReadSign`: its value, the bytes written to the signature buffer, and the input left. */
  datatype Result = Result(ret: int, bytes: seq<byte>, rest: seq<Item>)

  /** `acc` are the bytes written so far, `mem` the line buffer as the last line left it. */
  function Sign(hex: Hex, signed: bool, input: seq<Item>, mem: seq<byte>, acc: seq<byte>, len: nat): (r: Result)
    requires |mem| == LINE
    decreases len - |acc|
  {
    if |acc| >= len then Result(|acc|, acc, input)
    else
      var e := Edit(signed, input, mem, 0);
      if e.ret < 0 then Result(e.ret, acc, e.rest)
      else if |acc| + e.ret / 2 > len then Result(-1, acc, e.rest)
      else
        var (bytes, ok) := Pairs(hex, e.mem, 0, e.ret);
        if !ok then Result(-1, acc + bytes, e.rest)
        else if e.ret < LINE then Result(|acc + bytes|, acc + bytes, e.rest)
        else Sign(hex, signed, e.rest, e.mem, acc + bytes, len)
  }

  lemma RoomForLine(n: nat, len: nat)
    requires n % 16 == 0 && len % 16 == 0 && n < len
    ensures n + 16 <= len && (n + 16) % 16 == 0
  {
  }

  /** Only full lines go on, so a buffer length divisible by 16 is never exceeded, not even by lines of odd length. */
  lemma {:induction false} SignFits(hex: Hex, signed: bool, input: seq<Item>, mem: seq<byte>, acc: seq<byte>, len: nat)
    requires |mem| == LINE && |acc| % 16 == 0 && |acc| <= len && len % 16 == 0
    ensures |Sign(hex, signed, input, mem, acc, len).bytes| <= len
    decreases len - |acc|
  {
    hide Edit, Pairs;
    if |acc| < len {
      var e := Edit(signed, input, mem, 0);
      RoomForLine(|acc|, len);
      if e.ret >= 0 && |acc| + e.ret / 2 <= len {
        var (bytes, ok) := Pairs(hex, e.mem, 0, e.ret);
        if ok && e.ret == LINE {
          SignFits(hex, signed, e.rest, e.mem, acc + bytes, len);
        }
      }
    }
  }

  /** Decoding a line to `r` has produced `done` and stands at `i`. */
  ghost predicate Decodes(r: (seq<byte>, bool), done: seq<byte>, hex: Hex, mem: seq<byte>, i: nat, n: nat)
    requires i <= n + 1 && n <= |mem| && (n % 2 == 1 ==> n < |mem|) && i % 2 == 0
  {
    r == (done + Pairs(hex, mem, i, n).0, Pairs(hex, mem, i, n).1)
  }

  lemma DecodesPair(r: (seq<byte>, bool), done: seq<byte>, hex: Hex, mem: seq<byte>, i: nat, n: nat)
    requires i < n <= |mem| && (n % 2 == 1 ==> n < |mem|) && i % 2 == 0
    requires Decodes(r, done, hex, mem, i, n)
    ensures match hex(mem[i], mem[i + 1])
            case None => r == (done, false)
            case Some(b) => Decodes(r, done + [b], hex, mem, i + 2, n)
  {
    match hex(mem[i], mem[i + 1])
    case None => assert done + [] == done;
    case Some(b) =>
      var later := Pairs(hex, mem, i + 2, n).0;
      assert done + ([b] + later) == done + [b] + later;
  }

  lemma DecodesStart(hex: Hex, mem: seq<byte>, n: nat)
    requires n <= |mem| && (n % 2 == 1 ==> n < |mem|)
    ensures Decodes(Pairs(hex, mem, 0, n), [], hex, mem, 0, n)
  {
    Empties(Pairs(hex, mem, 0, n).0);
  }

  lemma DecodesMore(r: (seq<byte>, bool), done: seq<byte>, hex: Hex, mem: seq<byte>, i: nat, n: nat)
    requires i <= n + 1 && n <= |mem| && (n % 2 == 1 ==> n < |mem|) && i % 2 == 0
    requires Decodes(r, done, hex, mem, i, n)
    ensures |done| <= |r.0|
  {
  }

  lemma DecodesEnd(r: (seq<byte>, bool), done: seq<byte>, hex: Hex, mem: seq<byte>, i: nat, n: nat)
    requires n <= i <= n + 1 && n <= |mem| && (n % 2 == 1 ==> n < |mem|) && i % 2 == 0
    requires Decodes(r, done, hex, mem, i, n)
    ensures r == (done, true)
  {
    Empties(done);
  }

  /** The decoding loop of `ReadSign` for one line of `n` characters: it fills `sign` from `nbytes` on. */
  method DecodeLine(hex: Hex, buf: array<byte>, n: nat, sign: array<byte>, nbytes: nat)
    returns (ok: bool, nbytes': nat, ghost done: seq<byte>)
    requires buf != sign && buf.Length == LINE && n <= LINE
    requires nbytes + |Pairs(hex, buf[..], 0, n).0| <= sign.Length
    modifies sign
    ensures (done, ok) == Pairs(hex, buf[..], 0, n)
    ensures nbytes' == nbytes + |done| <= sign.Length && sign[..nbytes'] == old(sign[..nbytes]) + done
    ensures forall k :: nbytes' <= k < sign.Length ==> sign[k] == old(sign[k])
  {
    hide Pairs, Decodes;
    nbytes', done := nbytes, [];
    ghost var mem, before := buf[..], sign[..nbytes];
    ghost var r := Pairs(hex, mem, 0, n);
    DecodesStart(hex, mem, n);
    var i := 0;
    while i < n
      invariant i % 2 == 0 && i <= n + 1 && |done| <= |r.0| && nbytes' == nbytes + |done|
      invariant Decodes(r, done, hex, mem, i, n)
      invariant sign[..nbytes'] == before + done && buf[..] == mem
      invariant forall k :: nbytes' <= k < sign.Length ==> sign[k] == old(sign[k])
    {
      DecodesPair(r, done, hex, mem, i, n);
      var num := hex(buf[i], buf[i + 1]);
      if num.None? {
        return false, nbytes', done;
      }
      DecodesMore(r, done + [num.value], hex, mem, i + 2, n);
      sign[nbytes'] := num.value;
      done := done + [num.value];
      nbytes' := nbytes' + 1;
      i := i + 2;
    }
    DecodesEnd(r, done, hex, mem, i, n);
    ok := true;
  }

  lemma SignDone(hex: Hex, signed: bool, input: seq<Item>, mem: seq<byte>, acc: seq<byte>, len: nat)
    requires |mem| == LINE && |acc| >= len
    ensures Sign(hex, signed, input, mem, acc, len) == Result(|acc|, acc, input)
  {
  }

  /** One line of `Sign`. */
  lemma SignLine(hex: Hex, signed: bool, input: seq<Item>, mem: seq<byte>, acc: seq<byte>, len: nat)
    requires |mem| == LINE && |acc| < len
    ensures var r := Sign(hex, signed, input, mem, acc, len);
            var e := Edit(signed, input, mem, 0);
            && (e.ret < 0 ==> r == Result(e.ret, acc, e.rest))
            && (e.ret >= 0 && |acc| + e.ret / 2 > len ==> r == Result(-1, acc, e.rest))
            && (e.ret >= 0 && |acc| + e.ret / 2 <= len ==>
                  var (bytes, ok) := Pairs(hex, e.mem, 0, e.ret);
                  && (!ok ==> r == Result(-1, acc + bytes, e.rest))
                  && (ok && e.ret < LINE ==> r == Result(|acc + bytes|, acc + bytes, e.rest))
                  && (ok && e.ret == LINE ==> r == Sign(hex, signed, e.rest, e.mem, acc + bytes, len)))
  {
  }

  lemma {:induction false} SignGrows(hex: Hex, signed: bool, input: seq<Item>, mem: seq<byte>, acc: seq<byte>, len: nat)
    requires |mem| == LINE
    ensures |Sign(hex, signed, input, mem, acc, len).bytes| >= |acc|
    decreases len - |acc|
  {
    hide Sign, Edit, Pairs;
    if |acc| >= len {
      SignDone(hex, signed, input, mem, acc, len);
    } else {
      var e := Edit(signed, input, mem, 0);
      SignLine(hex, signed, input, mem, acc, len);
      if e.ret == LINE && |acc| + e.ret / 2 <= len && Pairs(hex, e.mem, 0, e.ret).1 {
        SignGrows(hex, signed, e.rest, e.mem, acc + Pairs(hex, e.mem, 0, e.ret).0, len);
      }
    }
  }

  /** A signature that fits leaves room for the bytes of each of its lines. */
  lemma SignRoom(hex: Hex, signed: bool, input: seq<Item>, mem: seq<byte>, acc: seq<byte>, len: nat)
    requires |mem| == LINE && |acc| < len
    ensures var e := Edit(signed, input, mem, 0);
            e.ret >= 0 && |acc| + e.ret / 2 <= len ==>
              |acc| + |Pairs(hex, e.mem, 0, e.ret).0| <= |Sign(hex, signed, input, mem, acc, len).bytes|
  {
    var e := Edit(signed, input, mem, 0);
    SignLine(hex, signed, input, mem, acc, len);
    if e.ret == LINE && |acc| + e.ret / 2 <= len && Pairs(hex, e.mem, 0, e.ret).1 {
      SignGrows(hex, signed, e.rest, e.mem, acc + Pairs(hex, e.mem, 0, e.ret).0, len);
    }
  }

  /**
   * `ReadSign`, with `buf` its local line buffer. The signature buffer may have any length that the bytes typed do not
   * overrun, such as any multiple of 16; see `SafeIffMultipleOf16`.
   */
  method Read(hex: Hex, line: Line, buf: array<byte>, sign: array<byte>, signed: bool) returns (res: int)
    requires buf != sign && buf.Length == LINE
    requires |Sign(hex, signed, line.input, buf[..], [], sign.Length).bytes| <= sign.Length
    modifies line, buf, sign
    ensures var r := Sign(hex, signed, old(line.input), old(buf[..]), [], sign.Length);
            && res == r.ret && line.input == r.rest
            && |r.bytes| <= sign.Length && sign[..|r.bytes|] == r.bytes
            && forall k :: |r.bytes| <= k < sign.Length ==> sign[k] == old(sign[k])
  {
    hide Sign, Edit, Pairs;
    var nbytes: nat := 0;
    var len := sign.Length;
    ghost var r := Sign(hex, signed, line.input, buf[..], [], len);
    ghost var acc := [];
    while nbytes < len
      invariant |acc| == nbytes <= len
      invariant r == Sign(hex, signed, line.input, buf[..], acc, len)
      invariant sign[..nbytes] == acc
      invariant forall k :: nbytes <= k < len ==> sign[k] == old(sign[k])
    {
      SignLine(hex, signed, line.input, buf[..], acc, len);
      SignRoom(hex, signed, line.input, buf[..], acc, len);
      res := ReadLine(line, buf, signed);
      if res < 0 {
        return;
      }
      if nbytes + res / 2 > len {
        return -1;
      }
      var ok;
      ghost var bytes;
      ok, nbytes, bytes := DecodeLine(hex, buf, res, sign, nbytes);
      acc := acc + bytes;
      if !ok {
        return -1;
      }
      if res < LINE {
        return nbytes;
      }
    }
    SignDone(hex, signed, line.input, buf[..], acc, len);
    return nbytes;
  }

  // ----- Round trip -----

  type Digits = nat -> byte

  /** `digit` writes and `hex` reads hexadecimal: printable characters, two to a byte. */
  ghost predicate Hexadecimal(hex: Hex, digit: Digits) {
    && (forall d: nat :: d < 16 ==> 33 <= digit(d) <= 126)
    && (forall b: byte :: hex(digit(b / 16), digit(b % 16)) == Some(b))
  }

  function HexText(digit: Digits, bytes: seq<byte>): (t: seq<byte>)
    ensures |t| == 2 * |bytes|
  {
    if bytes == [] then [] else [digit(bytes[0] / 16), digit(bytes[0] % 16)] + HexText(digit, bytes[1..])
  }

  ghost predicate Printable(keys: seq<byte>) {
    forall k :: 0 <= k < |keys| ==> 33 <= keys[k] <= 126
  }

  lemma {:induction false} HexTextPrintable(hex: Hex, digit: Digits, bytes: seq<byte>)
    requires Hexadecimal(hex, digit)
    ensures Printable(HexText(digit, bytes))
  {
    if bytes != [] {
      HexTextPrintable(hex, digit, bytes[1..]);
    }
  }

  lemma {:induction false} HexTextSplit(digit: Digits, a: seq<byte>, b: seq<byte>)
    ensures HexText(digit, a + b) == HexText(digit, a) + HexText(digit, b)
  {
    if a == [] {
      assert a + b == b;
    } else {
      assert (a + b)[1..] == a[1..] + b;
      HexTextSplit(digit, a[1..], b);
    }
  }

  /** Printable characters are taken as they are. */
  lemma {:induction false} PrintableText(max: nat, text: seq<byte>, keys: seq<byte>)
    requires Printable(keys) && |text| + |keys| <= max
    ensures Text(text, keys) == Text(text, keys + [LF]) == text + keys
    ensures |text| + |keys| == max ==> Completes(max, text, keys)
    ensures |text| + |keys| < max ==> Completes(max, text, keys + [LF])
    decreases keys
  {
    if keys == [] {
      assert text + keys == text && keys + [LF] == [LF];
    } else {
      assert Typed(text, keys[0]) == text + [keys[0]];
      PrintableText(max, text + [keys[0]], keys[1..]);
      assert (keys + [LF])[1..] == keys[1..] + [LF];
      assert text + [keys[0]] + keys[1..] == text + keys;
    }
  }

  lemma {:induction false} PairsOfText(hex: Hex, digit: Digits, mem: seq<byte>, i: nat, bytes: seq<byte>)
    requires Hexadecimal(hex, digit) && i % 2 == 0 && i + 2 * |bytes| <= |mem|
    requires mem[i..i + 2 * |bytes|] == HexText(digit, bytes)
    ensures Pairs(hex, mem, i, i + 2 * |bytes|) == (bytes, true)
    decreases bytes
  {
    if bytes != [] {
      var t := HexText(digit, bytes);
      assert mem[i] == t[0] && mem[i + 1] == t[1];
      assert mem[i + 2..i + 2 * |bytes|] == t[2..] == HexText(digit, bytes[1..]);
      PairsOfText(hex, digit, mem, i + 2, bytes[1..]);
      assert [bytes[0]] + bytes[1..] == bytes;
    }
  }

  /** A printable line comes back from `ReadLine` as it was typed; a full one needs no line feed. */
  lemma PrintableLine(signed: bool, text: seq<byte>, more: seq<Item>, mem: seq<byte>)
    requires Printable(text) && |text| <= |mem| == LINE
    ensures var keys := if |text| == LINE then text else text + [LF];
            var e := Edit(signed, Items(keys) + more, mem, 0);
            e.ret == |text| && e.rest == more && e.mem[..|text|] == text
  {
    var keys := if |text| == LINE then text else text + [LF];
    PrintableText(LINE, [], text);
    assert mem[..0] == [] && [] + text == text;
    EditIsStack(signed, keys, more, mem, 0);
  }

  /** A line of hexadecimal text comes back from `ReadLine` as it was typed, full lines without their line feed. */
  lemma LineOfText(hex: Hex, digit: Digits, signed: bool, bytes: seq<byte>, more: seq<Item>, mem: seq<byte>)
    requires Hexadecimal(hex, digit) && |mem| == LINE && 2 * |bytes| <= LINE
    ensures var text := HexText(digit, bytes);
            var keys := if |bytes| == 16 then text else text + [LF];
            var e := Edit(signed, Items(keys) + more, mem, 0);
            e.ret == 2 * |bytes| && e.rest == more && Pairs(hex, e.mem, 0, e.ret) == (bytes, true)
  {
    var text := HexText(digit, bytes);
    var keys := if |bytes| == 16 then text else text + [LF];
    HexTextPrintable(hex, digit, bytes);
    PrintableLine(signed, text, more, mem);
    var e := Edit(signed, Items(keys) + more, mem, 0);
    assert e.mem[0..0 + 2 * |bytes|] == text;
    PairsOfText(hex, digit, e.mem, 0, bytes);
  }

  lemma ItemsConcat(a: seq<byte>, b: seq<byte>)
    ensures Items(a + b) == Items(a) + Items(b)
  {
  }

  /** The text of a signature, with the line feed that ends it. */
  function Typing(digit: Digits, bytes: seq<byte>, more: seq<Item>): seq<Item> {
    Items(HexText(digit, bytes)) + [Byte(0x0A)] + more
  }

  /** The last line, shorter than the buffer. */
  lemma SignReadsShort(hex: Hex, digit: Digits, signed: bool, bytes: seq<byte>, more: seq<Item>,
                       mem: seq<byte>, acc: seq<byte>, len: nat)
    requires Hexadecimal(hex, digit) && |mem| == LINE && |bytes| < 16 && |acc| < len && |acc| + |bytes| <= len
    ensures Sign(hex, signed, Typing(digit, bytes, more), mem, acc, len) == Result(|acc| + |bytes|, acc + bytes, more)
  {
    var text := HexText(digit, bytes);
    ItemsConcat(text, [LF]);
    assert Typing(digit, bytes, more) == Items(text + [LF]) + more;
    LineOfText(hex, digit, signed, bytes, more, mem);
    SignLine(hex, signed, Typing(digit, bytes, more), mem, acc, len);
  }

  /** A full line. */
  lemma SignReadsFull(hex: Hex, digit: Digits, signed: bool, bytes: seq<byte>, more: seq<Item>,
                      mem: seq<byte>, acc: seq<byte>, len: nat) returns (mem': seq<byte>)
    requires Hexadecimal(hex, digit) && |mem| == LINE && |bytes| == 16 && |acc| + 16 <= len
    ensures |mem'| == LINE
    ensures Sign(hex, signed, Items(HexText(digit, bytes)) + more, mem, acc, len)
         == Sign(hex, signed, more, mem', acc + bytes, len)
  {
    var input := Items(HexText(digit, bytes)) + more;
    LineOfText(hex, digit, signed, bytes, more, mem);
    SignLine(hex, signed, input, mem, acc, len);
    mem' := Edit(signed, input, mem, 0).mem;
  }

  lemma TypingSplits(digit: Digits, line: seq<byte>, later: seq<byte>, more: seq<Item>)
    ensures Typing(digit, line + later, more) == Items(HexText(digit, line)) + Typing(digit, later, more)
  {
    HexTextSplit(digit, line, later);
    ItemsConcat(HexText(digit, line), HexText(digit, later));
  }

  lemma TypingNothing(digit: Digits, more: seq<Item>)
    ensures Typing(digit, [], more) == [Byte(LF)] + more
  {
    Empties([Byte(LF)]);
  }

  lemma {:induction false} SignReads(hex: Hex, digit: Digits, signed: bool, bytes: seq<byte>, more: seq<Item>,
                                     mem: seq<byte>, acc: seq<byte>, len: nat)
    requires Hexadecimal(hex, digit) && |mem| == LINE
    requires |acc| % 16 == 0 && len % 16 == 0 && |acc| + |bytes| <= len
    ensures Sign(hex, signed, Typing(digit, bytes, more), mem, acc, len)
         == Result(|acc| + |bytes|, acc + bytes, if |acc| + |bytes| == len then [Byte(LF)] + more else more)
    decreases bytes
  {
    hide Sign, HexText, Typing;
    if |acc| == len {
      TypingNothing(digit, more);
      SignDone(hex, signed, Typing(digit, bytes, more), mem, acc, len);
      Empties(acc);
    } else {
      RoomForLine(|acc|, len);
      if |bytes| < 16 {
        SignReadsShort(hex, digit, signed, bytes, more, mem, acc, len);
      } else {
        var line, later := bytes[..16], bytes[16..];
        Splits(bytes, 16);
        Associates(acc, line, later);
        TypingSplits(digit, line, later, more);
        var mem' := SignReadsFull(hex, digit, signed, line, Typing(digit, later, more), mem, acc, len);
        SignReads(hex, digit, signed, later, more, mem', acc + line, len);
      }
    }
  }

  /**
   * Hex round trip: any byte string of up to 128 bytes, typed as hexadecimal text and a line feed, is what `ReadSign`
   * returns. Only a string of exactly 128 bytes leaves the line feed unread.
   */
  lemma SignRoundTrip(hex: Hex, digit: Digits, signed: bool, bytes: seq<byte>, more: seq<Item>, mem: seq<byte>)
    requires Hexadecimal(hex, digit) && |mem| == 32 && |bytes| <= 128
    ensures Sign(hex, signed, Typing(digit, bytes, more), mem, [], 128)
         == Result(|bytes|, bytes, if |bytes| == 128 then [Byte(0x0A)] + more else more)
  {
    SignReads(hex, digit, signed, bytes, more, mem, [], 128);
    assert [] + bytes == bytes;
  }

  // ----- What is refused -----

  /** Every reading returns the number of bytes that it has written, or -1. */
  lemma {:induction false} SignReturns(hex: Hex, signed: bool, input: seq<Item>, mem: seq<byte>, acc: seq<byte>,
                                       len: nat)
    requires |mem| == 32
    ensures var r := Sign(hex, signed, input, mem, acc, len);
            acc <= r.bytes && (r.ret == |r.bytes| || r.ret == -1)
    decreases len - |acc|
  {
    hide Sign, Edit, Pairs;
    if |acc| >= len {
      SignDone(hex, signed, input, mem, acc, len);
    } else {
      var e := Edit(signed, input, mem, 0);
      SignLine(hex, signed, input, mem, acc, len);
      if e.ret == LINE && |acc| + e.ret / 2 <= len && Pairs(hex, e.mem, 0, e.ret).1 {
        SignReturns(hex, signed, e.rest, e.mem, acc + Pairs(hex, e.mem, 0, e.ret).0, len);
      }
    }
  }

  lemma {:induction false} PairsUpToBad(hex: Hex, digit: Digits, mem: seq<byte>, i: nat, bytes: seq<byte>)
    requires Hexadecimal(hex, digit) && i % 2 == 0 && i + 2 * |bytes| + 2 <= |mem|
    requires mem[i..i + 2 * |bytes|] == HexText(digit, bytes)
    requires hex(mem[i + 2 * |bytes|], mem[i + 2 * |bytes| + 1]) == None
    ensures Pairs(hex, mem, i, i + 2 * |bytes| + 2) == (bytes, false)
    decreases bytes
  {
    if bytes != [] {
      var t := HexText(digit, bytes);
      assert mem[i] == t[0] && mem[i + 1] == t[1];
      assert mem[i + 2..i + 2 * |bytes|] == t[2..] == HexText(digit, bytes[1..]);
      PairsUpToBad(hex, digit, mem, i + 2, bytes[1..]);
      assert [bytes[0]] + bytes[1..] == bytes;
    }
  }

  /** Two characters that are no byte end the reading with -1; the bytes before them have been written. */
  lemma BadPairRefused(hex: Hex, digit: Digits, signed: bool, bytes: seq<byte>, c: byte, d: byte, more: seq<Item>,
                       mem: seq<byte>, acc: seq<byte>, len: nat)
    requires Hexadecimal(hex, digit) && Printable([c, d]) && hex(c, d) == None
    requires |mem| == 32 && |bytes| < 15 && |acc| + |bytes| < len
    ensures Sign(hex, signed, Items(HexText(digit, bytes) + [c, d] + [0x0A]) + more, mem, acc, len)
         == Result(-1, acc + bytes, more)
  {
    hide Edit, Pairs, Sign;
    var text := HexText(digit, bytes) + [c, d];
    HexTextPrintable(hex, digit, bytes);
    PrintableLine(signed, text, more, mem);
    var e := Edit(signed, Items(text + [LF]) + more, mem, 0);
    assert e.mem[..|text|] == text;
    assert e.mem[0..0 + 2 * |bytes|] == HexText(digit, bytes);
    assert e.mem[2 * |bytes|] == text[2 * |bytes|] && e.mem[2 * |bytes| + 1] == text[2 * |bytes| + 1];
    PairsUpToBad(hex, digit, e.mem, 0, bytes);
    SignLine(hex, signed, Items(text + [LF]) + more, mem, acc, len);
  }

  /** A line that times out where `char` is signed ends the reading with -1 and writes nothing. */
  lemma TimeOutRefused(hex: Hex, keys: seq<byte>, more: seq<Item>, mem: seq<byte>, acc: seq<byte>, len: nat)
    requires Keys(keys) && |mem| == 32 && Unfinished(32, [], keys) && |acc| < len
    ensures Sign(hex, true, Items(keys) + ([Timeout] + more), mem, acc, len) == Result(-1, acc, more)
  {
    hide Edit, Pairs, Sign;
    var mem' := UnfinishedTimesOut(true, keys, more, mem);
    SignLine(hex, true, Items(keys) + ([Timeout] + more), mem, acc, len);
  }

  // ----- Which buffer lengths are safe -----

  /** `n` copies of the character '0'. */
  function Noughts(n: nat): (t: seq<byte>)
    ensures |t| == n
  {
    seq(n, _ => 0x30)
  }

  /** The conversion accepts a '0' whatever stands after it. */
  ghost predicate LeadingNoughts(hex: Hex) {
    forall b: byte :: hex(0x30, b).Some?
  }

  lemma {:induction false} PairsOfNoughts(hex: Hex, mem: seq<byte>, i: nat, n: nat)
    requires LeadingNoughts(hex) && i % 2 == 0 && i <= n + 1 && n <= |mem| && (n % 2 == 1 ==> n < |mem|)
    requires forall k :: 0 <= k < n ==> mem[k] == 0x30
    ensures Pairs(hex, mem, i, n).1
    decreases n + 1 - i
  {
    if i < n {
      PairsOfNoughts(hex, mem, i + 2, n);
    }
  }

  lemma LineOfNoughts(hex: Hex, signed: bool, n: nat, more: seq<Item>, mem: seq<byte>)
    requires LeadingNoughts(hex) && |mem| == LINE && n <= LINE
    ensures var keys := if n == LINE then Noughts(n) else Noughts(n) + [LF];
            var e := Edit(signed, Items(keys) + more, mem, 0);
            e.ret == n && e.rest == more && e.mem[..n] == Noughts(n) && Pairs(hex, e.mem, 0, n).1
  {
    var keys := if n == LINE then Noughts(n) else Noughts(n) + [LF];
    PrintableLine(signed, Noughts(n), more, mem);
    var e := Edit(signed, Items(keys) + more, mem, 0);
    assert forall k :: 0 <= k < n ==> e.mem[k] == e.mem[..n][k];
    PairsOfNoughts(hex, e.mem, 0, n);
  }

  /** With any other length, full lines followed by one of a fitting odd length write one byte too many. */
  lemma {:induction false} SignOverruns(hex: Hex, signed: bool, mem: seq<byte>, acc: seq<byte>, len: nat)
    returns (input: seq<Item>)
    requires LeadingNoughts(hex) && |mem| == LINE
    requires |acc| % 16 == 0 && |acc| < len && len % 16 != 0
    ensures |Sign(hex, signed, input, mem, acc, len).bytes| == len + 1
    decreases len - |acc|
  {
    var room := len - |acc|;
    if room < 16 {
      var n := 2 * room + 1;
      input := Items(Noughts(n) + [LF]) + [];
      LineOfNoughts(hex, signed, n, [], mem);
      SignLine(hex, signed, input, mem, acc, len);
    } else {
      var bytes := Pairs(hex, Noughts(LINE), 0, LINE).0;
      PairsOfNoughts(hex, Noughts(LINE), 0, LINE);
      var more := SignOverruns(hex, signed, Noughts(LINE), acc + bytes, len);
      input := Items(Noughts(LINE)) + more;
      FullLineOfNoughts(hex, signed, more, mem, acc, len);
    }
  }

  lemma FullLineOfNoughts(hex: Hex, signed: bool, more: seq<Item>, mem: seq<byte>, acc: seq<byte>, len: nat)
    requires LeadingNoughts(hex) && |mem| == LINE && |acc| + 16 <= len
    ensures Sign(hex, signed, Items(Noughts(LINE)) + more, mem, acc, len)
         == Sign(hex, signed, more, Noughts(LINE), acc + Pairs(hex, Noughts(LINE), 0, LINE).0, len)
  {
    var input := Items(Noughts(LINE)) + more;
    LineOfNoughts(hex, signed, LINE, more, mem);
    var e := Edit(signed, input, mem, 0);
    assert e.mem == e.mem[..LINE] == Noughts(LINE);
    SignLine(hex, signed, input, mem, acc, len);
  }

  ghost predicate NeverOverruns(hex: Hex, signed: bool, mem: seq<byte>, len: nat)
    requires |mem| == LINE
  {
    forall input :: |Sign(hex, signed, input, mem, [], len).bytes| <= len
  }

  /**
   * The check of `ReadSign` against the buffer length rounds a line of odd length down while the loop rounds it up:
   * the buffer is safe from every input exactly when its length is a multiple of 16, as the caller's 128 is.
   */
  lemma SafeIffMultipleOf16(hex: Hex, signed: bool, mem: seq<byte>, len: nat)
    requires LeadingNoughts(hex) && |mem| == LINE
    ensures NeverOverruns(hex, signed, mem, len) <==> len % 16 == 0
  {
    if len % 16 == 0 {
      forall input ensures |Sign(hex, signed, input, mem, [], len).bytes| <= len {
        SignFits(hex, signed, input, mem, [], len);
      }
    } else {
      var input := SignOverruns(hex, signed, mem, [], len);
      assert |Sign(hex, signed, input, mem, [], len).bytes| == len + 1;
    }
  }

  // ----- What stood in the line buffer before -----

  /** From `ret` on, a buffer holds what it held before, from `i` on, or zeros where something was typed and deleted. */
  ghost predicate Remnants(a: seq<byte>, b: seq<byte>, a': seq<byte>, b': seq<byte>, i: nat, ret: nat)
    requires |a| == |b| == |a'| == |b'|
  {
    forall k :: ret <= k < |a| ==> (a'[k] == 0 && b'[k] == 0) || (i <= k && a'[k] == a[k] && b'[k] == b[k])
  }

  /** A key does the same to two buffers that agree so far. */
  lemma PressForgets(a: seq<byte>, b: seq<byte>, i: nat, c: byte)
    requires i < |a| == |b| && a[..i] == b[..i]
    ensures var ((a', j), (b', j')) := (Press(a, i, c), Press(b, i, c)); j == j' && a'[..j] == b'[..j]
  {
    if c == BS && i > 0 {
      assert a[i - 1 := 0][..i - 1] == a[..i][..i - 1];
      assert b[i - 1 := 0][..i - 1] == b[..i][..i - 1];
    } else if c != CR && c != BS {
      assert a[i := c][..i + 1] == a[..i] + [c];
      assert b[i := c][..i + 1] == b[..i] + [c];
    }
  }

  /** Up to where it has been typed a line does not depend on what was in the buffer before; behind it, it may. */
  lemma {:induction false} EditForgets(signed: bool, input: seq<Item>, a: seq<byte>, b: seq<byte>, i: nat)
    requires |a| == |b| && i <= |a| && a[..i] == b[..i]
    ensures var r, r' := Edit(signed, input, a, i), Edit(signed, input, b, i);
            && r.ret == r'.ret && r.rest == r'.rest && r.echo == r'.echo
            && (r.ret >= 0 ==> r.mem[..r.ret] == r'.mem[..r.ret] && Remnants(a, b, r.mem, r'.mem, i, r.ret))
    decreases |input|, |a| - i
  {
    if i < |a| {
      var c := Char(signed, Value(input));
      if c >= 0 && c != LF {
        var ((a', j), (b', _)) := (Press(a, i, c), Press(b, i, c));
        PressForgets(a, b, i, c);
        EditForgets(signed, Rest(input), a', b', j);
      }
    }
  }

  /** A line of even length is decoded from what was typed alone. */
  lemma {:induction false} PairsForget(hex: Hex, a: seq<byte>, b: seq<byte>, i: nat, n: nat)
    requires i % 2 == 0 && n % 2 == 0 && i <= n <= |a| == |b| && a[..n] == b[..n]
    ensures Pairs(hex, a, i, n) == Pairs(hex, b, i, n)
    decreases n - i
  {
    if i < n {
      assert a[i] == a[..n][i] && a[i + 1] == a[..n][i + 1];
      PairsForget(hex, a, b, i + 2, n);
    }
  }

  /** All lines read into a buffer with `room` bytes left have even length. */
  predicate EvenLines(signed: bool, input: seq<Item>, room: int)
    decreases room
  {
    room > 0 ==>
      var e := Edit(signed, input, Noughts(LINE), 0);
      e.ret >= 0 ==> e.ret % 2 == 0 && (e.ret == LINE ==> EvenLines(signed, e.rest, room - 16))
  }

  /** Typed in lines of even length, a signature does not depend on what was in the line buffer before. */
  lemma {:induction false} SignForgets(hex: Hex, signed: bool, input: seq<Item>, a: seq<byte>, b: seq<byte>,
                                       acc: seq<byte>, len: nat)
    requires |a| == |b| == LINE && EvenLines(signed, input, len - |acc|)
    ensures Sign(hex, signed, input, a, acc, len) == Sign(hex, signed, input, b, acc, len)
    decreases len - |acc|
  {
    hide Sign, Edit, Pairs;
    if |acc| >= len {
      SignDone(hex, signed, input, a, acc, len);
      SignDone(hex, signed, input, b, acc, len);
    } else {
      var e, e' := Edit(signed, input, a, 0), Edit(signed, input, b, 0);
      EditForgets(signed, input, a, b, 0);
      EditForgets(signed, input, a, Noughts(LINE), 0);
      SignLine(hex, signed, input, a, acc, len);
      SignLine(hex, signed, input, b, acc, len);
      if e.ret >= 0 && |acc| + e.ret / 2 <= len {
        PairsForget(hex, e.mem, e'.mem, 0, e.ret);
        var (bytes, ok) := Pairs(hex, e.mem, 0, e.ret);
        if ok && e.ret == LINE {
          SignForgets(hex, signed, e.rest, e.mem, e'.mem, acc + bytes, len);
        }
      }
    }
  }

  lemma OnePair(hex: Hex, mem: seq<byte>, d: byte)
    requires |mem| == LINE && hex(mem[0], mem[1]) == Some(d)
    ensures Pairs(hex, mem, 0, 1) == ([d], true)
  {
    assert Pairs(hex, mem, 2, 1) == ([], true);
    Empties([d]);
    assert Pairs(hex, mem, 0, 1) == ([d] + Pairs(hex, mem, 2, 1).0, true);
  }

  /** A line of odd length is not: its last pair is completed by what stands behind it in the buffer. */
  lemma OddLineRemembers(hex: Hex, digit: Digits, signed: bool, d: byte, mem: seq<byte>)
    requires Hexadecimal(hex, digit) && d < 16 && |mem| == LINE && mem[1] == digit(d)
    ensures Sign(hex, signed, Items([digit(0), LF]), mem, [], 128) == Result(1, [d], [])
  {
    var input, c := Items([digit(0), LF]), digit(0);
    assert input[0] == Byte(c) && input[1..][0] == Byte(LF) && input[1..][1..] == [];
    var mem' := mem[0 := c];
    assert Edit(signed, input[1..], mem', 1) == Edited(1, mem', [], Echo(LF));
    var e := Edit(signed, input, mem, 0);
    assert e.ret == 1 && e.mem == mem' && e.rest == [];
    assert d / 16 == 0 && d % 16 == d;
    assert hex(digit(d / 16), digit(d % 16)) == Some(d) && mem'[0] == digit(0) && mem'[1] == digit(d);
    OnePair(hex, mem', d);
    SignLine(hex, signed, input, mem, [], 128);
  }

  /** The last pair of a line of odd length is completed by the byte behind the line. */
  lemma {:induction false} PairsOdd(hex: Hex, mem: seq<byte>, i: nat, n: nat)
    requires i % 2 == 0 && n % 2 == 1 && i < n < |mem|
    ensures var (bytes, ok) := Pairs(hex, mem, i, n - 1);
            Pairs(hex, mem, i, n) ==
            if !ok then (bytes, false)
            else match hex(mem[n - 1], mem[n]) case None => (bytes, false) case Some(b) => (bytes + [b], true)
    decreases n - i
  {
    if i < n - 1 {
      PairsOdd(hex, mem, i + 2, n);
      if hex(mem[i], mem[i + 1]).Some? && Pairs(hex, mem, i + 2, n - 1).1 && hex(mem[n - 1], mem[n]).Some? {
        Associates([hex(mem[i], mem[i + 1]).value], Pairs(hex, mem, i + 2, n - 1).0, [hex(mem[n - 1], mem[n]).value]);
      }
    } else {
      assert Pairs(hex, mem, i + 2, n) == ([], true) && Pairs(hex, mem, i, n - 1) == ([], true);
      if hex(mem[i], mem[i + 1]).Some? {
        Empties([hex(mem[i], mem[i + 1]).value]);
      }
    }
  }

  /** What `hex` makes of a pair that begins with `c` depends on the other character. */
  ghost predicate Sensitive(hex: Hex, c: byte) {
    exists x: byte, y: byte :: hex(c, x) != hex(c, y)
  }

  /**
   * The first line is accepted and of odd length, its pairs but the last one are good, nothing has been typed behind
   * it, and the last pair can come out one way or another. Tried on a buffer of '0' characters.
   */
  ghost predicate Stale(hex: Hex, signed: bool, input: seq<Item>, len: nat) {
    var e := Edit(signed, input, Noughts(LINE), 0);
    && e.ret >= 0 && e.ret % 2 == 1 && e.ret / 2 <= len && 0 < len
    && e.mem[e.ret] == 0x30
    && Pairs(hex, e.mem, 0, e.ret - 1).1
    && Sensitive(hex, e.mem[e.ret - 1])
  }

  ghost predicate Same(hex: Hex, signed: bool, input: seq<Item>, a: seq<byte>, b: seq<byte>, len: nat)
    requires |a| == |b| == LINE
  {
    Sign(hex, signed, input, a, [], len) == Sign(hex, signed, input, b, [], len)
  }

  /** The signature read does not depend on what was in the line buffer before. */
  ghost predicate Forgets(hex: Hex, signed: bool, input: seq<Item>, len: nat) {
    forall a: seq<byte>, b: seq<byte> :: |a| == LINE && |b| == LINE ==> Same(hex, signed, input, a, b, len)
  }

  /** How a first line of odd length is read in a buffer that held `a`, in terms of one that held '0' characters. */
  lemma OddFirstLine(hex: Hex, signed: bool, input: seq<Item>, a: seq<byte>, len: nat)
    requires |a| == LINE && 0 < len
    requires var n := Edit(signed, input, Noughts(LINE), 0).ret; n >= 0 && n % 2 == 1 && n / 2 <= len
    ensures var e0 := Edit(signed, input, Noughts(LINE), 0);
            var n := e0.ret;
            var (bytes, ok) := Pairs(hex, e0.mem, 0, n - 1);
            var last := if e0.mem[n] == 0x30 then a[n] else 0;
            Sign(hex, signed, input, a, [], len) ==
            if !ok then Result(-1, bytes, e0.rest)
            else match hex(e0.mem[n - 1], last)
                 case None => Result(-1, bytes, e0.rest)
                 case Some(b) => Result(|bytes| + 1, bytes + [b], e0.rest)
  {
    hide Sign, Edit, Pairs;
    var e, e0 := Edit(signed, input, a, 0), Edit(signed, input, Noughts(LINE), 0);
    var n := e.ret;
    EditForgets(signed, input, Noughts(LINE), a, 0);
    assert e.mem[n - 1] == e.mem[..n][n - 1] && e0.mem[n - 1] == e0.mem[..n][n - 1];
    TakesTwice(e.mem, n - 1, n);
    TakesTwice(e0.mem, n - 1, n);
    PairsForget(hex, e.mem, e0.mem, 0, n - 1);
    PairsOdd(hex, e.mem, 0, n);
    SignLine(hex, signed, input, a, [], len);
    var (bytes, ok) := Pairs(hex, e.mem, 0, n);
    assert [] + bytes == bytes;
  }

  lemma TakesTwice(a: seq<byte>, i: nat, j: nat)
    requires i <= j <= |a|
    ensures a[..j][..i] == a[..i]
  {
  }

  /** Any other first line leaves nothing behind of what was in the buffer. */
  lemma OtherFirstLine(hex: Hex, signed: bool, input: seq<Item>, a: seq<byte>, b: seq<byte>, len: nat)
    requires |a| == |b| == LINE
    requires var n := Edit(signed, input, Noughts(LINE), 0).ret; len == 0 || n < 0 || n % 2 == 0 || n / 2 > len
    ensures Same(hex, signed, input, a, b, len)
  {
    hide Sign, Edit, Pairs;
    if len == 0 {
      SignDone(hex, signed, input, a, [], len);
      SignDone(hex, signed, input, b, [], len);
    } else {
      var e, e' := Edit(signed, input, a, 0), Edit(signed, input, b, 0);
      EditForgets(signed, input, Noughts(LINE), a, 0);
      EditForgets(signed, input, a, b, 0);
      SignLine(hex, signed, input, a, [], len);
      SignLine(hex, signed, input, b, [], len);
      if e.ret >= 0 && e.ret / 2 <= len {
        PairsForget(hex, e.mem, e'.mem, 0, e.ret);
        if e.ret == LINE {
          TakesAll(e.mem);
          TakesAll(e'.mem);
        }
      }
    }
  }

  lemma StaleDiffers(hex: Hex, signed: bool, input: seq<Item>, len: nat)
    requires Stale(hex, signed, input, len)
    ensures !Forgets(hex, signed, input, len)
  {
    hide Sign, Edit, Pairs;
    var e := Edit(signed, input, Noughts(LINE), 0);
    var n := e.ret;
    var x: byte, y: byte :| hex(e.mem[n - 1], x) != hex(e.mem[n - 1], y);
    var a, b := Noughts(LINE)[n := x], Noughts(LINE)[n := y];
    OddFirstLine(hex, signed, input, a, len);
    OddFirstLine(hex, signed, input, b, len);
    DifferentEnds(Pairs(hex, e.mem, 0, n - 1).0, hex(e.mem[n - 1], x), hex(e.mem[n - 1], y));
    assert !Same(hex, signed, input, a, b, len);
  }

  lemma NotStaleSame(hex: Hex, signed: bool, input: seq<Item>, a: seq<byte>, b: seq<byte>, len: nat)
    requires |a| == |b| == LINE && !Stale(hex, signed, input, len)
    ensures Same(hex, signed, input, a, b, len)
  {
    hide Sign, Edit, Pairs;
    var e := Edit(signed, input, Noughts(LINE), 0);
    if 0 < len && e.ret >= 0 && e.ret % 2 == 1 && e.ret / 2 <= len {
      OddFirstLine(hex, signed, input, a, len);
      OddFirstLine(hex, signed, input, b, len);
      if e.mem[e.ret] == 0x30 && Pairs(hex, e.mem, 0, e.ret - 1).1 {
        assert hex(e.mem[e.ret - 1], a[e.ret]) == hex(e.mem[e.ret - 1], b[e.ret]);
      }
    } else {
      OtherFirstLine(hex, signed, input, a, b, len);
    }
  }

  /** What was in the line buffer before makes a difference exactly when the first line is a stale one. */
  lemma ForgetsIff(hex: Hex, signed: bool, input: seq<Item>, len: nat)
    ensures Forgets(hex, signed, input, len) <==> !Stale(hex, signed, input, len)
  {
    hide Same, Stale;
    if Stale(hex, signed, input, len) {
      StaleDiffers(hex, signed, input, len);
    } else {
      forall a: seq<byte>, b: seq<byte> | |a| == LINE && |b| == LINE ensures Same(hex, signed, input, a, b, len) {
        NotStaleSame(hex, signed, input, a, b, len);
      }
    }
  }

  lemma DifferentEnds(bytes: seq<byte>, x: Option<byte>, y: Option<byte>)
    requires x != y
    ensures x.Some? && y.Some? ==> bytes + [x.value] != bytes + [y.value]
  {
    if x.Some? && y.Some? {
      assert (bytes + [x.value])[|bytes|] != (bytes + [y.value])[|bytes|];
    }
  }
}
