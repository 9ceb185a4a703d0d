/** The line editor `ReadLine` and the signature reader `ReadSign`. */
module Console {
  import opened Crc
  import opened Sequences
  import opened Wire

  const BS: byte := 0x08
  const LF: byte := 0x0A
  const CR: byte := 0x0D
  const SPACE: byte := 0x20
  const DEL: byte := 0x7F

  // ----- Reading one character -----

  /** What `uart_read` returns: the byte, or -1. */
  function Value(input: seq<Item>): (v: int)
    ensures -1 <= v < 256
  {
    match Next(input) case None => -1 case Some(b) => b
  }

  function Echo(v: int): seq<byte>
    requires v < 256
  {
    if v <= 0 then [] else if v == DEL then [BS, SPACE, BS] else [v]
  }

  /** The value after `read_with_echo`, stored into a plain `char`, signed or not as the platform has it. */
  function Char(signed: bool, v: int): (c: int)
    requires -1 <= v < 256
    ensures -128 <= c < 256
  {
    var c := if v == DEL then BS as int else v;
    if signed then (if c < 128 then c else c - 256) else (if c < 0 then 255 else c)
  }

  /** `read_with_echo`. */
  method ReadWithEcho(line: Line) returns (c: int)
    modifies line
    ensures var v := Value(old(line.input));
            && c == (if v == 0x7F then 0x08 else v)
            && line.sent == old(line.sent) + Echo(v)
            && line.sent == old(line.sent) + (if v <= 0 then [] else if v == 0x7F then [0x08, 0x20, 0x08] else [v])
            && line.input == Rest(old(line.input))
  {
    c := line.InByte();
    if c > 0 {
      if c == DEL {
        line.OutByte(BS);
        line.OutByte(SPACE);
        c := BS;
      }
      line.OutByte(c);
    }
  }

  // ----- One line -----

  /** The result of `ReadLine`: its value, the buffer, the input left and the echo. */
  datatype Edited = Edited(ret: int, mem: seq<byte>, rest: seq<Item>, echo: seq<byte>)

  /** The buffer and the position after a character that does not end the line. */
  function Press(mem: seq<byte>, i: nat, c: byte): (r: (seq<byte>, nat))
    requires i < |mem|
    ensures |r.0| == |mem| && r.1 <= |mem|
    ensures r.1 <= i + 1
  {
    if c == CR then (mem, i)
    else if c == BS then (if i > 0 then (mem[i - 1 := 0], i - 1) else (mem, i))
    else (mem[i := c], i + 1)
  }

  function Echoed(echo: seq<byte>, r: Edited): Edited {
    r.(echo := echo + r.echo)
  }

  function Edit(signed: bool, input: seq<Item>, mem: seq<byte>, i: nat): (r: Edited)
    requires i <= |mem|
    ensures |r.mem| == |mem| && -1 <= r.ret <= |mem|
    decreases |input|, |mem| - i
  {
    if i == |mem| then Edited(i, mem, input, [])
    else
      var v := Value(input);
      var c := Char(signed, v);
      if c < 0 then Edited(-1, mem, Rest(input), Echo(v))
      else if c == LF then Edited(i, mem, Rest(input), Echo(v))
      else
        var (mem', i') := Press(mem, i, c);
        Echoed(Echo(v), Edit(signed, Rest(input), mem', i'))
  }

  /** An edit with result `r` has echoed `echo` and goes on from here. */
  ghost predicate Edits(r: Edited, echo: seq<byte>, signed: bool, input: seq<Item>, mem: seq<byte>, i: int) {
    0 <= i <= |mem| && r == Echoed(echo, Edit(signed, input, mem, i))
  }

  lemma EditsKey(r: Edited, echo: seq<byte>, signed: bool, input: seq<Item>, mem: seq<byte>, i: nat)
    requires Edits(r, echo, signed, input, mem, i) && i < |mem|
    ensures var v := Value(input);
            var c := Char(signed, v);
            if c < 0 then r == Edited(-1, mem, Rest(input), echo + Echo(v))
            else if c == LF then r == Edited(i, mem, Rest(input), echo + Echo(v))
            else Edits(r, echo + Echo(v), signed, Rest(input), Press(mem, i, c).0, Press(mem, i, c).1)
  {
    var v := Value(input);
    var c := Char(signed, v);
    if c >= 0 && c != LF {
      var next := Edit(signed, Rest(input), Press(mem, i, c).0, Press(mem, i, c).1);
      assert echo + (Echo(v) + next.echo) == echo + Echo(v) + next.echo;
    }
  }

  lemma EditsNothing(r: Edited)
    ensures Echoed([], r) == r
  {
    assert [] + r.echo == r.echo;
  }

  /** `ReadLine` over the whole of `buf`. */
  method ReadLine(line: Line, buf: array<byte>, signed: bool) returns (i: int)
    modifies line, buf
    ensures var r := Edit(signed, old(line.input), old(buf[..]), 0);
            && i == r.ret
            && buf[..] == r.mem
            && line.input == r.rest
            && line.sent == old(line.sent) + r.echo
    ensures signed && buf.Length > 0 && (old(line.input) == [] || old(line.input)[0].Timeout?) ==>
              i == -1 && buf[..] == old(buf[..]) && line.sent == old(line.sent)
  {
    i := 0;
    ghost var r := Edit(signed, line.input, buf[..], 0);
    ghost var before, echo: seq<byte> := line.sent, [];
    EditsNothing(r);
    while i < buf.Length
      invariant Edits(r, echo, signed, line.input, buf[..], i)
      invariant line.sent == before + echo
      decreases |line.input|, buf.Length - i
    {
      ghost var v := Value(line.input);
      EditsKey(r, echo, signed, line.input, buf[..], i);
      Associates(before, echo, Echo(v));
      echo := echo + Echo(v);
      ghost var mem := buf[..];
      var c := ReadWithEcho(line);
      c := if signed then (if c < 128 then c else c - 256) else (if c < 0 then 255 else c);
      assert c == Char(signed, v);
      if c < 0 {
        return -1;
      }
      if c == CR {
        continue;
      }
      if c == LF {
        break;
      }
      if c == BS {
        if i > 0 {
          i := i - 1;
          buf[i] := 0;
          assert buf[..] == mem[i := 0];
        }
        continue;
      }
      buf[i] := c;
      assert buf[..] == mem[i := buf[i]];
      i := i + 1;
    }
    return i;
  }

  // ----- The editor as a stack -----

  /** A key of the 7-bit character set other than NUL. */
  predicate Keys(keys: seq<byte>) {
    forall k :: 0 <= k < |keys| ==> 1 <= keys[k] <= 127
  }

  /** The text after a key that does not end the line: backspace and delete pop, return does nothing, others push. */
  function Typed(text: seq<byte>, key: byte): seq<byte> {
    if key == 0x0D then text
    else if key == 0x08 || key == 0x7F then (if text == [] then [] else text[..|text| - 1])
    else text + [key]
  }

  /** The text after all of `keys`, up to a line feed. */
  function Text(text: seq<byte>, keys: seq<byte>): seq<byte>
    decreases keys
  {
    if keys == [] || keys[0] == 0x0A then text else Text(Typed(text, keys[0]), keys[1..])
  }

  /** The line of at most `max` characters begun by `text` ends with the last of `keys`: at a line feed, or full. */
  predicate Completes(max: nat, text: seq<byte>, keys: seq<byte>)
    decreases keys
  {
    if |text| == max then keys == []
    else keys != [] && if keys[0] == 0x0A then |keys| == 1 else Completes(max, Typed(text, keys[0]), keys[1..])
  }

  /** What is sent back for `keys`: delete as backspace, space, backspace, every other key as itself. */
  function Echoes(keys: seq<byte>): seq<byte> {
    if keys == [] then []
    else (if keys[0] == 0x7F then [0x08, 0x20, 0x08] else [keys[0]]) + Echoes(keys[1..])
  }

  ghost predicate ZeroFrom(mem: seq<byte>, i: nat) {
    forall k :: i <= k < |mem| ==> mem[k] == 0
  }

  lemma PressTypes(signed: bool, mem: seq<byte>, i: nat, key: byte)
    requires i < |mem| && 1 <= key <= 127 && key != LF
    ensures var c := Char(signed, key);
            && 0 <= c < 256 && c != LF
            && Echo(key) == (if key == 0x7F then [0x08, 0x20, 0x08] else [key])
            && Press(mem, i, c).0[..Press(mem, i, c).1] == Typed(mem[..i], key)
            && (ZeroFrom(mem, i) ==> ZeroFrom(Press(mem, i, c).0, Press(mem, i, c).1))
  {
  }

  /**
   * `ReadLine` is the stack editor: it returns the length of the text typed, leaves the text in the buffer and zeros
   * after it if there were zeros before, echoes every key, consumes exactly the keys of the line and leaves the rest.
   */
  lemma {:induction false} EditIsStack(signed: bool, keys: seq<byte>, more: seq<Item>, mem: seq<byte>, i: nat)
    requires Keys(keys) && i <= |mem| && Completes(|mem|, mem[..i], keys)
    ensures var r := Edit(signed, Items(keys) + more, mem, i);
            && r.ret == |Text(mem[..i], keys)|
            && r.mem[..r.ret] == Text(mem[..i], keys)
            && (ZeroFrom(mem, i) ==> ZeroFrom(r.mem, r.ret))
            && r.rest == more && r.echo == Echoes(keys)
    decreases keys
  {
    var input := Items(keys) + more;
    if keys == [] {
      assert input == more;
    } else {
      assert input[0] == Byte(keys[0]) && input[1..] == Items(keys[1..]) + more;
      if keys[0] == LF {
        assert input[1..] == more;
        assert Echoes(keys) == [keys[0]] + Echoes([]) == [keys[0]];
      } else {
        PressTypes(signed, mem, i, keys[0]);
        var (mem', i') := Press(mem, i, Char(signed, keys[0]));
        EditIsStack(signed, keys[1..], more, mem', i');
      }
    }
  }

  /** Neither a line feed among `keys` nor a full buffer after any of them. */
  predicate Unfinished(max: nat, text: seq<byte>, keys: seq<byte>)
    decreases keys
  {
    |text| < max && (keys == [] || (keys[0] != 0x0A && Unfinished(max, Typed(text, keys[0]), keys[1..])))
  }

  /** Keys that leave the line unfinished are echoed and leave their text in the buffer, before whatever follows. */
  lemma {:induction false} UnfinishedGoesOn(signed: bool, keys: seq<byte>, more: seq<Item>, mem: seq<byte>, i: nat)
    returns (mem': seq<byte>)
    requires Keys(keys) && i <= |mem| && Unfinished(|mem|, mem[..i], keys)
    ensures var text := Text(mem[..i], keys);
            && |text| < |mem| == |mem'| && mem'[..|text|] == text
            && Edit(signed, Items(keys) + more, mem, i) == Echoed(Echoes(keys), Edit(signed, more, mem', |text|))
    decreases keys
  {
    hide Edit, Echo;
    if keys == [] {
      mem' := mem;
      Empties(more);
      EditsNothing(Edit(signed, more, mem, i));
    } else {
      var input, head := Items(keys) + more, Echo(keys[0]);
      assert input[0] == Byte(keys[0]) && input[1..] == Items(keys[1..]) + more;
      PressTypes(signed, mem, i, keys[0]);
      EditKey(signed, input, mem, i);
      var (later, i') := Press(mem, i, Char(signed, keys[0]));
      mem' := UnfinishedGoesOn(signed, keys[1..], more, later, i');
      Associates(head, Echoes(keys[1..]), Edit(signed, more, mem', |Text(mem[..i], keys)|).echo);
    }
  }

  lemma EditKey(signed: bool, input: seq<Item>, mem: seq<byte>, i: nat)
    requires i < |mem| && Char(signed, Value(input)) >= 0 && Char(signed, Value(input)) != LF
    ensures var v := Value(input);
            var (mem', i') := Press(mem, i, Char(signed, v));
            Edit(signed, input, mem, i) == Echoed(Echo(v), Edit(signed, Rest(input), mem', i'))
  {
  }

  /**
   * A line that times out before it is complete: where `char` is signed it is given up with -1, where it is not the -1
   * reads as the character 255, which is kept like any other and followed by what comes next.
   */
  lemma UnfinishedTimesOut(signed: bool, keys: seq<byte>, more: seq<Item>, mem: seq<byte>) returns (mem': seq<byte>)
    requires Keys(keys) && Unfinished(|mem|, [], keys)
    ensures var r := Edit(signed, Items(keys) + ([Timeout] + more), mem, 0);
            var n := |Text([], keys)|;
            && n < |mem| == |mem'| && mem'[..n] == Text([], keys)
            && if signed then r == Edited(-1, mem', more, Echoes(keys))
               else mem'[n] == 255 && r == Echoed(Echoes(keys), Edit(false, more, mem', n + 1))
  {
    hide Edit, Echoes, Text, Unfinished, Items;
    var n := |Text([], keys)|;
    assert mem[..0] == [];
    mem' := UnfinishedGoesOn(signed, keys, [Timeout] + more, mem, 0);
    TimeOutRead(mem', n, more);
    Empties(Echoes(keys));
    if !signed {
      mem' := mem'[n := 255];
    }
  }

  /** What a time-out does to a line, by the sign of `char`. */
  lemma TimeOutRead(mem: seq<byte>, n: nat, more: seq<Item>)
    requires n < |mem|
    ensures Edit(true, [Timeout] + more, mem, n) == Edited(-1, mem, more, [])
    ensures Edit(false, [Timeout] + more, mem, n) == Edit(false, more, mem[n := 255], n + 1)
  {
    assert ([Timeout] + more)[1..] == more;
    EditsNothing(Edit(false, more, mem[n := 255], n + 1));
  }

  /**
   * Bytes that are no keys: 0 is kept without an echo; 128 and above are echoed, and either end the line with -1 like a
   * time-out or are kept, by the sign of `char`.
   */
  lemma OtherBytes(signed: bool, b: byte, more: seq<Item>, mem: seq<byte>, i: nat)
    requires (b == 0 || b >= 128) && i < |mem|
    ensures Edit(signed, [Byte(b)] + more, mem, i) ==
            if signed && b >= 128 then Edited(-1, mem, more, [b])
            else Echoed(if b == 0 then [] else [b], Edit(signed, more, mem[i := b], i + 1))
  {
    assert ([Byte(b)] + more)[1..] == more;
  }
}
