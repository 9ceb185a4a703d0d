/** The upload, hash and print commands: what the device says it received and what it reads back. */
module Commands {
  import opened Crc
  import opened Sequences
  import opened Wire
  import opened Receiver
  import opened Ledger
  import opened Device
  import opened Runs
  import opened Xmodem

  const CHUNK: nat := 1024

  /** The length asked for: 256 bytes if the argument is negative. */
  function Requested(arg: int): nat {
    if arg >= 0 then arg else 256
  }

  /**
   * How many of `bufLen` bytes the chunk loops reach. They stop one chunk early when the length is a
   * positive multiple of the chunk size: the loop leaves the last chunk to the remainder, which is 0.
   */
  function Covered(bufLen: nat): (n: nat)
    ensures n <= bufLen
    ensures n == bufLen <==> bufLen == 0 || bufLen % CHUNK != 0
  {
    if bufLen > 0 && bufLen % CHUNK == 0 then bufLen - CHUNK else bufLen
  }

  /** The lengths in figures: a negative one is 256, and 1024, 2048, ... come out 1024 short, all others whole. */
  lemma LengthsCovered(arg: int)
    ensures Requested(arg) == if arg < 0 then 256 else arg
    ensures Covered(Requested(arg)) == if arg > 0 && arg % 1024 == 0 then arg - 1024 else Requested(arg)
    ensures Covered(1536) == 1536 && Covered(1024) == 0 && Covered(2048) == 1024 && Covered(512) == 512
  {
  }

  /** The application state; `D` is the type of a SHA-256 digest and `sha256` the function from the bytes fed to it. */
  class App<D> {
    const sha256: seq<byte> -> D
    const workBuf: array<byte>
    const flash: array<byte>
    var hash: D

    constructor (sha256: seq<byte> -> D, workBuf: array<byte>, flash: array<byte>)
      requires workBuf != flash && workBuf.Length == 1030
      ensures this.sha256 == sha256 && this.workBuf == workBuf && this.flash == flash
      ensures Valid() && hash == sha256([])
    {
      this.sha256, this.workBuf, this.flash, this.hash := sha256, workBuf, flash, sha256([]);
    }

    ghost predicate Valid() {
      workBuf != flash && workBuf.Length == 1030
    }

    /** `CommandRunUpload`. */
    method RunUpload(arg1: int, arg2: int, line: Line) returns (res: int)
      requires Valid()
      requires (if arg2 > 0 then arg2 else 0) + Session(START, arg1, line.input).final.len <= flash.Length
      modifies this`hash, workBuf, flash, line
      ensures var o := Session(START, arg1, old(line.input));
              var data := Delivered(o.log, arg1);
              var at := if arg2 > 0 then arg2 else 0;
              && res == o.ret
              && line.sent == old(line.sent) + o.sent && line.input == o.rest
              && line.calls == old(line.calls) + RunCalls(START, arg1, old(line.input))
              && hash == sha256(data)
              && at + |data| <= flash.Length
              && flash[..] == Patched(old(flash[..]), at, data)
              && flash[at..at + |data|] == data
              && flash[..at] == old(flash[..at])
              && flash[at + |data|..] == old(flash[at + |data|..])
    {
      var arg := new Updater(arg2, flash);
      res := Xmodem.Receive(workBuf, arg1, arg, line);
      InStepIsPatched(arg, old(flash[..]), [], Session(START, arg1, old(line.input)).log, arg1);
      Empties(Delivered(Session(START, arg1, old(line.input)).log, arg1));
      hash := sha256(arg.hashed);
    }

    /** `HotaRead` into the work buffer. */
    method ReadFlash(offset: nat, len: nat)
      requires Valid() && len <= CHUNK && offset + len <= flash.Length
      modifies workBuf
      ensures workBuf[..len] == flash[offset..offset + len]
    {
      forall i | 0 <= i < len {
        workBuf[i] := flash[offset + i];
      }
    }

    /** One chunk read into the work buffer and fed to the hash after the bytes from `from` to `at`. */
    method Feed(from: nat, at: nat, n: nat, fed: seq<byte>) returns (fed': seq<byte>)
      requires Valid() && n <= CHUNK && from <= at && at + n <= flash.Length
      requires fed == flash[from..at]
      modifies workBuf
      ensures fed' == flash[from..at + n]
    {
      ReadFlash(at, n);
      Slices(flash[..], from, at, at + n);
      fed' := fed + workBuf[..n];
    }

    /** `CommandRunHashSha256`: the digest printed. */
    method RunHash(arg1: nat, arg2: int) returns (hashLocal: D)
      requires Valid() && arg1 + Requested(arg2) <= flash.Length
      modifies workBuf
      ensures var n := if arg2 >= 0 then arg2 else 256;
              && arg1 + n <= flash.Length
              && hashLocal == sha256(flash[arg1..arg1 + if n > 0 && n % 1024 == 0 then n - 1024 else n])
    {
      hide Covered;
      LengthsCovered(arg2);
      var start, bufLen := arg1, Requested(arg2);
      var fed: seq<byte> := [];
      var offset, next := 0, CHUNK;
      while next < bufLen
        invariant offset % CHUNK == 0 && next == offset + CHUNK && (offset < bufLen || offset == bufLen == 0)
        invariant fed == flash[start..start + offset]
      {
        fed := Feed(start, start + offset, CHUNK, fed);
        offset, next := next, next + CHUNK;
      }
      var rem := bufLen % CHUNK;
      LastChunk(offset, bufLen);
      if rem != 0 {
        fed := Feed(start, start + bufLen - rem, rem, fed);
      }
      hashLocal := sha256(fed);
    }

    /** The printing loop for the first `n` bytes of the work buffer. */
    method Print(printed: seq<byte>, n: nat) returns (printed': seq<byte>)
      requires n <= workBuf.Length
      ensures printed' == printed + workBuf[..n]
    {
      printed' := printed;
      for i := 0 to n
        invariant printed' == printed + workBuf[..i]
      {
        printed' := printed' + [workBuf[i]];
      }
    }

    /** One chunk read into the work buffer and printed after the bytes from `from` to `at`. */
    method PrintChunk(from: nat, at: nat, n: nat, printed: seq<byte>) returns (printed': seq<byte>)
      requires Valid() && n <= CHUNK && from <= at && at + n <= flash.Length
      requires printed == flash[from..at]
      modifies workBuf
      ensures printed' == flash[from..at + n]
    {
      ReadFlash(at, n);
      Slices(flash[..], from, at, at + n);
      printed' := Print(printed, n);
    }

    /** `CommandRunPrint`: the bytes printed. */
    method RunPrint(arg1: nat, arg2: int) returns (printed: seq<byte>)
      requires Valid() && arg1 + Requested(arg2) <= flash.Length
      modifies workBuf
      ensures var n := if arg2 >= 0 then arg2 else 256;
              && arg1 + n <= flash.Length
              && printed == flash[arg1..arg1 + if n > 0 && n % 1024 == 0 then n - 1024 else n]
    {
      hide Covered;
      LengthsCovered(arg2);
      var start, bufLen := arg1, Requested(arg2);
      printed := [];
      var offset, next := 0, CHUNK;
      while next < bufLen
        invariant offset % CHUNK == 0 && next == offset + CHUNK && (offset < bufLen || offset == bufLen == 0)
        invariant printed == flash[start..start + offset]
      {
        printed := PrintChunk(start, start + offset, CHUNK, printed);
        offset, next := next, next + CHUNK;
      }
      var rem := bufLen % CHUNK;
      LastChunk(offset, bufLen);
      if rem != 0 {
        printed := PrintChunk(start, start + bufLen - rem, rem, printed);
      }
    }

    /**
     * An upload followed by the hash command on the same region. A complete upload is hashed again to the
     * digest the upload left, except that a length divisible by 1024 loses its last 1024 bytes.
     */
    method UploadThenHash(size: nat, start: nat, line: Line) returns (res: int, again: D, ghost data: seq<byte>)
      requires Valid() && start + size <= flash.Length
      modifies this`hash, workBuf, flash, line
      ensures res >= 0 ==> res == |data| && data == Delivered(Session(START, size, old(line.input)).log, size)
      ensures hash == sha256(data)
      ensures res == size && (size == 0 || size % 1024 != 0) ==> again == hash
      ensures res == size && size > 0 && size % 1024 == 0 ==> again == sha256(data[..size - 1024])
    {
      hide Session, Delivered, Patched, RunCalls;
      ghost var o, before := Session(START, size, line.input), flash[..];
      data := Delivered(o.log, size);
      RunConcludes(size, line.input);
      res := RunUpload(size, start, line);
      assert flash[..] == Patched(before, start, data);
      again := RunHash(start, size);
      if res == size {
        ReadBack(before, start, data);
        assert data[..|data|] == data;
      }
    }
  }

  /** Where the chunk loops stand when they end. */
  lemma LastChunk(offset: nat, bufLen: nat)
    requires offset % CHUNK == 0 && offset <= bufLen <= offset + CHUNK && (offset < bufLen || bufLen == 0)
    ensures offset == if bufLen % CHUNK != 0 then bufLen - bufLen % CHUNK else Covered(bufLen)
  {
  }

  /** What the chunk loops read back after a write: all of it exactly when its length allows. */
  lemma ReadBack(flash: seq<byte>, start: nat, data: seq<byte>)
    requires start + |data| <= |flash|
    ensures var short := if data != [] && |data| % 1024 == 0 then 1024 else 0;
            var back := Patched(flash, start, data)[start..start + |data| - short];
            && back == (if data != [] && |data| % 1024 == 0 then data[..|data| - 1024] else data)
            && (back == data <==> data == [] || |data| % 1024 != 0)
  {
    var n := |data| - if data != [] && |data| % 1024 == 0 then 1024 else 0;
    assert Patched(flash, start, data)[start..start + |data|] == data;
    assert Patched(flash, start, data)[start..start + n] == data[..n];
  }
}
