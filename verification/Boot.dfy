/**
 The two programs of the bootloader protocol, each as a reader and writer of a byte
 stream: what it sends, and where it ends, for every stream of bytes it is given.
 */
module Boot {
  import opened Words
  import Crc

  const ARMBASE: uint32 := 0x8000
  const GET_PROG_INFO: uint32 := 0x11112222
  const PUT_PROG_INFO: uint32 := 0x33334444
  const GET_CODE: uint32 := 0x55556666
  const PUT_CODE: uint32 := 0x77778888
  const BOOT_SUCCESS: uint32 := 0x9999AAAA
  const BOOT_ERROR: uint32 := 0xBBBBCCCC
  const PRINT_STRING: uint32 := 0xDDDDEEEE

  type Stream = seq<uint8>

  /** Binary digit number k of a number. */
  predicate Digit(x: nat, k: nat)
    decreases k
  {
    if k == 0 then x % 2 == 1 else Digit(x / 2, k - 1)
  }

  function Place(digit: bool, value: bv8): bv8 {
    if digit then value else 0
  }

  /** A byte as the bits the checksum works on. */
  function ToByte(x: uint8): bv8 {
    Place(Digit(x, 0), 1) | Place(Digit(x, 1), 2) | Place(Digit(x, 2), 4) | Place(Digit(x, 3), 8)
    | Place(Digit(x, 4), 16) | Place(Digit(x, 5), 32) | Place(Digit(x, 6), 64) | Place(Digit(x, 7), 128)
  }

  function ToBits(buf: seq<uint8>): (bits: seq<bv8>)
    ensures |bits| == |buf|
  {
    seq(|buf|, i requires 0 <= i < |buf| => ToByte(buf[i]))
  }

  /** crc32, on both sides */
  function Checksum(buf: seq<uint8>): uint32 {
    Crc.Crc32(ToBits(buf)) as int
  }

  // ----- the Unix side

  /** A read that succeeded, and what is left of the input; or the end of the program. */
  datatype Got = Got(op: uint32, rest: Stream) | Died

  /** get_uint32; running out of input ends the program. */
  function GetWord(input: Stream): (g: Got)
    ensures g.Got? ==> |g.rest| == |input| - 4
  {
    if |input| < 4 then Died else Got(LittleEndian(input[..4]), input[4..])
  }

  /**
   The characters get_op reads for a string of the given length. It compares with
   length - 1, unsigned, so that length zero means 2^32.
   */
  function StringBytes(nbytes: uint32): (n: nat)
    ensures n > 0
  {
    if nbytes == 0 then TWO_32 else nbytes
  }

  /** get_op: strings to print are skipped, one that is suspiciously long ends the program. */
  function GetOp(input: Stream): (g: Got)
    ensures g.Got? ==> |g.rest| <= |input| - 4
    decreases |input|
  {
    var g := GetWord(input);
    if g.Died? || g.op != PRINT_STRING then g
    else
      var length := GetWord(g.rest);
      if length.Died? || length.op >= 512 || |length.rest| < StringBytes(length.op) then Died
      else GetOp(length.rest[StringBytes(length.op)..])
  }

  /** Step 0 of simple_boot: up to the first GET_PROG_INFO, dropping a byte after every other word. */
  function Sync(input: Stream): (g: Got)
    ensures g.Got? ==> |g.rest| <= |input| - 4
    decreases |input|
  {
    var g := GetOp(input);
    if g.Died? || g.op == GET_PROG_INFO then g
    else if g.rest == [] then Died
    else Sync(g.rest[1..])
  }

  /** Step 2: past further GET_PROG_INFOs, each with the word that follows it. */
  function Drain(input: Stream): (g: Got)
    ensures g.Got? ==> |g.rest| <= |input| - 4
    decreases |input|
  {
    var g := GetOp(input);
    if g.Died? || g.op != GET_PROG_INFO then g
    else
      var extra := GetWord(g.rest);
      if extra.Died? then Died else Drain(extra.rest)
  }

  /** What simple_boot has sent when it ends, and whether it reached its last line. */
  datatype UnixRun = UnixRun(ok: bool, sent: Stream)

  function Offer(buf: seq<uint8>): Stream
    requires |buf| < TWO_32
  {
    Bytes(PUT_PROG_INFO) + Bytes(ARMBASE) + Bytes(|buf|) + Bytes(Checksum(buf))
  }

  function Code(buf: seq<uint8>): Stream {
    Bytes(PUT_CODE) + buf
  }

  function Unix(input: Stream, buf: seq<uint8>): UnixRun
    requires |buf| < TWO_32
  {
    var synced := Sync(input);
    if synced.Died? then UnixRun(false, [])
    else UnixAfterSync(synced.rest, buf)
  }

  function UnixAfterSync(input: Stream, buf: seq<uint8>): UnixRun
    requires |buf| < TWO_32
  {
    var request := Drain(input);
    if request.Died? || request.op != GET_CODE then UnixRun(false, Offer(buf))
    else
      var echo := GetWord(request.rest);
      if echo.Died? || echo.op != Checksum(buf) then UnixRun(false, Offer(buf))
      else
        var result := GetOp(echo.rest);
        UnixRun(result.Got? && result.op == BOOT_SUCCESS, Offer(buf) + Code(buf))
  }

  /** The serial line as the Unix side sees it. */
  class Tty {
    var input: Stream
    var output: Stream

    method GetUint8() returns (ok: bool, b: uint8)
      modifies this`input
      ensures ok <==> old(input) != []
      ensures if ok then b == old(input)[0] && input == old(input)[1..] else input == old(input)
    {
      if input == [] {
        return false, 0;
      }
      ok, b := true, input[0];
      input := input[1..];
    }

    method GetUint32() returns (ok: bool, u: uint32)
      modifies this`input
      ensures ok <==> GetWord(old(input)).Got?
      ensures ok ==> GetWord(old(input)) == Got(u, input)
      ensures |input| <= |old(input)|
    {
      var b0, b1, b2, b3;
      u := 0;
      ghost var before := input;
      ok, b0 := GetUint8();
      if !ok { return; }
      ok, b1 := GetUint8();
      if !ok { return; }
      ok, b2 := GetUint8();
      if !ok { return; }
      ok, b3 := GetUint8();
      if !ok { return; }
      u := LittleEndian([b0, b1, b2, b3]);
      assert before[..4] == [b0, b1, b2, b3];
    }

    method PutUint8(b: uint8)
      modifies this`output
      ensures output == old(output) + [b]
    {
      output := output + [b];
    }

    method PutUint32(u: uint32)
      modifies this`output
      ensures output == old(output) + Bytes(u)
    {
      output := output + Bytes(u);
    }

    /** get_op */
    method ReadOp() returns (ok: bool, op: uint32)
      modifies this`input
      ensures ok <==> GetOp(old(input)).Got?
      ensures ok ==> GetOp(old(input)) == Got(op, input)
      ensures |input| <= |old(input)|
      decreases |input|
    {
      ok, op := GetUint32();
      if !ok || op != PRINT_STRING {
        return;
      }
      var nbytes;
      ok, nbytes := GetUint32();
      if !ok {
        return;
      }
      if nbytes >= 512 {
        return false, 0;
      }
      ghost var before := input;
      var i := 0;
      var c;
      while i < StringBytes(nbytes) - 1
        invariant i <= StringBytes(nbytes) - 1 && i <= |before|
        invariant input == before[i..]
      {
        ok, c := GetUint8();
        if !ok {
          return;
        }
        i := i + 1;
      }
      ok, c := GetUint8();
      if !ok {
        return;
      }
      ok, op := ReadOp();
    }
  }

  /** simple_boot: true when it reaches its last line; every panic, and the end of the input, is a false. */
  method SimpleBoot(fd: Tty, buf: array<uint8>) returns (ok: bool)
    requires buf.Length < TWO_32
    modifies fd
    ensures var run := Unix(old(fd.input), buf[..]);
            ok == run.ok && fd.output == old(fd.output) + run.sent
  {
    hide Bytes, Checksum, GetOp, GetWord, Drain, Sync;
    ghost var input, out := fd.input, fd.output;
    var op;
    ok := Synchronise(fd);
    if !ok {
      return;
    }
    var crc := Checksum(buf[..]);
    fd.PutUint32(PUT_PROG_INFO);
    fd.PutUint32(ARMBASE);
    fd.PutUint32(buf.Length);
    fd.PutUint32(crc);
    assert fd.output == out + Offer(buf[..]);
    ok, op := DrainExtra(fd);
    if !ok || op != GET_CODE {
      return false;
    }
    ok, op := fd.GetUint32();
    if !ok || op != crc {
      return false;
    }
    fd.PutUint32(PUT_CODE);
    ghost var sent := fd.output;
    for i := 0 to buf.Length
      invariant fd.output == sent + buf[..i]
      invariant fd.input == GetWord(Drain(Sync(input).rest).rest).rest
    {
      fd.PutUint8(buf[i]);
      assert buf[..i + 1] == buf[..i] + [buf[i]];
    }
    assert buf[..buf.Length] == buf[..];
    assert fd.output == out + (Offer(buf[..]) + Code(buf[..]));
    ok, op := fd.ReadOp();
    ok := ok && op == BOOT_SUCCESS;
  }

  /** Step 0 */
  method Synchronise(fd: Tty) returns (ok: bool)
    modifies fd`input
    ensures ok <==> Sync(old(fd.input)).Got?
    ensures ok ==> fd.input == Sync(old(fd.input)).rest
  {
    hide GetOp;
    var op, b;
    ok, op := fd.ReadOp();
    while ok && op != GET_PROG_INFO
      invariant if ok && op == GET_PROG_INFO then Sync(old(fd.input)) == Got(op, fd.input)
                else if ok then (if fd.input == [] then Sync(old(fd.input)).Died?
                                 else Sync(old(fd.input)) == Sync(fd.input[1..]))
                else Sync(old(fd.input)).Died?
      decreases |fd.input|
    {
      ok, b := fd.GetUint8();
      if !ok {
        return;
      }
      ok, op := fd.ReadOp();
    }
  }

  /** Step 2 */
  method DrainExtra(fd: Tty) returns (ok: bool, op: uint32)
    modifies fd`input
    ensures ok <==> Drain(old(fd.input)).Got?
    ensures ok ==> Drain(old(fd.input)) == Got(op, fd.input)
  {
    hide GetOp, GetWord;
    var extra;
    ok, op := fd.ReadOp();
    while ok && op == GET_PROG_INFO
      invariant if ok && op != GET_PROG_INFO then Drain(old(fd.input)) == Got(op, fd.input)
                else if ok then (if GetWord(fd.input).Died? then Drain(old(fd.input)).Died?
                                 else Drain(old(fd.input)) == Drain(GetWord(fd.input).rest))
                else Drain(old(fd.input)).Died?
      decreases |fd.input|
    {
      ok, extra := fd.GetUint32();
      if !ok {
        return;
      }
      ok, op := fd.ReadOp();
    }
  }

  // ----- the Pi side

  /** Where the bootloader itself lies in memory. */
  datatype Layout = Layout(codeStart: uint32, put32: uint32, progEnd: uint32)

  /** The test that refuses a program, in the arithmetic it is done in. */
  predicate Refused(layout: Layout, addr: uint32, nbytes: uint32) {
    var end := Unsigned(addr + nbytes);
    addr < layout.codeStart || end >= layout.put32 || end >= layout.progEnd
  }

  type Memory = map<uint32, uint8>

  /** Memory after the bytes have been stored from addr on, addresses wrapping. */
  function Stored(mem: Memory, addr: uint32, bytes: Stream): Memory {
    if bytes == [] then mem
    else
      var n := |bytes| - 1;
      Stored(mem, addr, bytes[..n])[Unsigned(addr + n) := bytes[n]]
  }

  /** The n bytes from addr on; memory never written reads as zero. */
  function ReadBack(mem: Memory, addr: uint32, n: nat): (bytes: Stream)
    ensures |bytes| == n
  {
    seq(n, i requires 0 <= i < n => var a := Unsigned(addr + i); if a in mem then mem[a] else 0)
  }

  function Ascii(s: string): (bytes: Stream)
    ensures |bytes| == |s|
  {
    seq(|s|, i requires 0 <= i < |s| => s[i] as int % 0x100)
  }

  /** boot_putk */
  function Print(msg: string): Stream
    requires |msg| < TWO_32
  {
    Bytes(PRINT_STRING) + Bytes(|msg|) + Ascii(msg)
  }

  /** boot_err, after which the Pi reboots */
  function Failure(msg: string): Stream
    requires |msg| < TWO_32
  {
    Print(msg) + Bytes(BOOT_ERROR)
  }

  const SUCCESS_MESSAGE := "Rishi Verma: success: Received the program with UART!"
  const NO_INFO_MESSAGE := "Expected PUT_PROG_INFO"
  const COLLISION_MESSAGE := "Code will collide with the bootloader"
  const NO_CODE_MESSAGE := "Expected PUT_CODE"
  const CHECKSUM_MESSAGE := "Checksum mismatch"

  function Repeat(word: uint32, n: nat): (s: Stream)
    ensures |s| == 4 * n
  {
    if n == 0 then [] else Bytes(word) + Repeat(word, n - 1)
  }

  /** Blocked on input, rebooted after an error, or returning to run the program at addr. */
  datatype PiEnd = Waiting | Rebooted | Booted(addr: uint32)

  datatype PiRun = PiRun(end: PiEnd, sent: Stream, mem: Memory)

  /** get_code, given that its first loop sent `asked` GET_PROG_INFO words before it saw data. */
  function Pi(asked: nat, input: Stream, layout: Layout, mem: Memory): PiRun {
    var sent := Repeat(GET_PROG_INFO, asked);
    var run := PiAnswer(input, layout, mem);
    run.(sent := sent + run.sent)
  }

  function PiAnswer(input: Stream, layout: Layout, mem: Memory): PiRun {
    var op := GetWord(input);
    if op.Died? then PiRun(Waiting, [], mem)
    else if op.op != PUT_PROG_INFO then PiRun(Rebooted, Failure(NO_INFO_MESSAGE), mem)
    else
      var addr := GetWord(op.rest);
      if addr.Died? then PiRun(Waiting, [], mem) else
      var nbytes := GetWord(addr.rest);
      if nbytes.Died? then PiRun(Waiting, [], mem) else
      var crc := GetWord(nbytes.rest);
      if crc.Died? then PiRun(Waiting, [], mem)
      else if Refused(layout, addr.op, nbytes.op) then PiRun(Rebooted, Failure(COLLISION_MESSAGE), mem)
      else PiReceive(crc.rest, addr.op, nbytes.op, crc.op, mem)
  }

  /** Steps 4 to 7 of get_code. */
  function PiReceive(input: Stream, addr: uint32, nbytes: uint32, crc: uint32, mem: Memory): PiRun {
    var echo := Bytes(GET_CODE) + Bytes(crc);
    var op := GetWord(input);
    if op.Died? then PiRun(Waiting, echo, mem)
    else if op.op != PUT_CODE then PiRun(Rebooted, echo + Failure(NO_CODE_MESSAGE), mem)
    else if |op.rest| < nbytes then PiRun(Waiting, echo, Stored(mem, addr, op.rest))
    else
      var after := Stored(mem, addr, op.rest[..nbytes]);
      if Checksum(ReadBack(after, addr, nbytes)) != crc then PiRun(Rebooted, echo + Failure(CHECKSUM_MESSAGE), after)
      else PiRun(Booted(addr), echo + Print(SUCCESS_MESSAGE) + Bytes(BOOT_SUCCESS), after)
  }

  class Board {
    const line: Tty
    var mem: Memory

    constructor (line: Tty)
      ensures this.line == line && mem == map[]
    {
      this.line := line;
      mem := map[];
    }

    method PutK(msg: string)
      requires |msg| < TWO_32
      modifies line`output
      ensures line.output == old(line.output) + Print(msg)
    {
      line.PutUint32(PRINT_STRING);
      line.PutUint32(|msg|);
      for n := 0 to |msg|
        invariant line.output == old(line.output) + Bytes(PRINT_STRING) + Bytes(|msg|) + Ascii(msg)[..n]
      {
        line.PutUint8(Ascii(msg)[n]);
      }
      assert Ascii(msg)[..|msg|] == Ascii(msg);
    }

    /** wait_for_data, when data shows up after `timeouts` timeouts */
    method WaitForData(timeouts: nat)
      modifies line`output
      ensures line.output == old(line.output) + Repeat(GET_PROG_INFO, timeouts + 1)
    {
      hide Bytes;
      line.PutUint32(GET_PROG_INFO);
      var left := timeouts;
      assert line.output + Repeat(GET_PROG_INFO, left) == old(line.output) + Repeat(GET_PROG_INFO, timeouts + 1);
      while left > 0
        invariant left >= 0
        invariant line.output + Repeat(GET_PROG_INFO, left) == old(line.output) + Repeat(GET_PROG_INFO, timeouts + 1)
      {
        line.PutUint32(GET_PROG_INFO);
        left := left - 1;
      }
    }

    method Fail(msg: string)
      requires |msg| < TWO_32
      modifies line`output
      ensures line.output == old(line.output) + Failure(msg)
    {
      PutK(msg);
      line.PutUint32(BOOT_ERROR);
    }

    /** get_code */
    method GetCode(timeouts: nat, layout: Layout) returns (end: PiEnd)
      modifies this`mem, line
      ensures PiRun(end, line.output, mem)
              == var run := Pi(timeouts + 1, old(line.input), layout, old(mem));
                 run.(sent := old(line.output) + run.sent)
    {
      hide Bytes, GetWord, Repeat, Print, Failure, PiReceive;
      var ok, op, addr, nbytes, crc;
      WaitForData(timeouts);
      ok, op := line.GetUint32();
      if !ok {
        return Waiting;
      }
      if op != PUT_PROG_INFO {
        Fail(NO_INFO_MESSAGE);
        return Rebooted;
      }
      ok, addr := line.GetUint32();
      if !ok {
        return Waiting;
      }
      ok, nbytes := line.GetUint32();
      if !ok {
        return Waiting;
      }
      ok, crc := line.GetUint32();
      if !ok {
        return Waiting;
      }
      if Refused(layout, addr, nbytes) {
        Fail(COLLISION_MESSAGE);
        return Rebooted;
      }
      end := Receive(addr, nbytes, crc);
    }

    /** Steps 4 to 7 of get_code */
    method Receive(addr: uint32, nbytes: uint32, crc: uint32) returns (end: PiEnd)
      modifies this`mem, line
      ensures PiRun(end, line.output, mem)
              == var run := PiReceive(old(line.input), addr, nbytes, crc, old(mem));
                 run.(sent := old(line.output) + run.sent)
    {
      hide Bytes, GetWord, Print, Failure, Checksum;
      var ok, op, byte;
      ghost var out := line.output;
      line.PutUint32(GET_CODE);
      line.PutUint32(crc);
      ok, op := line.GetUint32();
      if !ok {
        return Waiting;
      }
      if op != PUT_CODE {
        Fail(NO_CODE_MESSAGE);
        return Rebooted;
      }
      ghost var code := line.input;
      for i := 0 to nbytes
        invariant i <= |code| && line.input == code[i..]
        invariant line.output == out + (Bytes(GET_CODE) + Bytes(crc))
        invariant mem == Stored(old(mem), addr, code[..i])
      {
        ok, byte := line.GetUint8();
        if !ok {
          assert code[..i] == code;
          return Waiting;
        }
        mem := mem[Unsigned(addr + i) := byte];
        assert code[..i + 1][..i] == code[..i];
      }
      if Checksum(ReadBack(mem, addr, nbytes)) != crc {
        Fail(CHECKSUM_MESSAGE);
        return Rebooted;
      }
      PutK(SUCCESS_MESSAGE);
      line.PutUint32(BOOT_SUCCESS);
      return Booted(addr);
    }
  }
}
