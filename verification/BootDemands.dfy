/**
 What either side of the boot protocol demands of the words it is sent, whoever sends
 them. In particular a program damaged on the way is not run.
 */
module BootDemands {
  import opened Words
  import opened Boot
  import opened BootRuns
  import Crc

  // ----- the Pi

  function FiveWords(a: uint32, b: uint32, c: uint32, d: uint32, e: uint32, rest: Stream): Stream {
    Bytes(a) + (Bytes(b) + (Bytes(c) + (Bytes(d) + (Bytes(e) + rest))))
  }

  /** The last word of what has been sent. */
  predicate EndsIn(sent: Stream, v: uint32) {
    |sent| >= 4 && sent[|sent| - 4..] == Bytes(v)
  }

  lemma WordLast(front: Stream, v: uint32)
    ensures EndsIn(front + Bytes(v), v)
  {}

  lemma FailureEnds(front: Stream, msg: string)
    requires |msg| < TWO_32
    ensures EndsIn(front + Failure(msg), BOOT_ERROR)
    ensures EndsIn(Failure(msg), BOOT_ERROR)
  {
    hide Bytes, Print, EndsIn;
    WordLast(Print(msg), BOOT_ERROR);
    WordLast(front + Print(msg), BOOT_ERROR);
    assert front + Failure(msg) == front + Print(msg) + Bytes(BOOT_ERROR);
  }

  /**
   Given five words and as many bytes as the third one announces, the Pi runs the bytes
   at the announced address if and only if both opcodes are right, it does not refuse
   the place, and the bytes have the announced checksum. Otherwise it reports an error.
   */
  lemma PiAccepts(op: uint32, addr: uint32, n: uint32, crc: uint32, op2: uint32, d: Stream, layout: Layout, mem: Memory)
    requires |d| == n
    ensures var run := PiAnswer(FiveWords(op, addr, n, crc, op2, d), layout, mem);
      if op == PUT_PROG_INFO && !Refused(layout, addr, n) && op2 == PUT_CODE && Checksum(d) == crc
      then run.end == Booted(addr) && ReadBack(run.mem, addr, n) == d && EndsIn(run.sent, BOOT_SUCCESS)
      else run.end == Rebooted && EndsIn(run.sent, BOOT_ERROR)
  {
    hide Bytes, Checksum, Failure, Print, PiReceive, GetWord, Refused, EndsIn, ReadBack;
    var s5 := Bytes(op2) + d;
    var s4 := Bytes(crc) + s5;
    var s3 := Bytes(n) + s4;
    var s2 := Bytes(addr) + s3;
    GetWordOf(op, s2);
    GetWordOf(addr, s3);
    GetWordOf(n, s4);
    GetWordOf(crc, s5);
    FailureEnds([], NO_INFO_MESSAGE);
    FailureEnds([], COLLISION_MESSAGE);
    PiAcceptsCode(addr, n, crc, op2, d, mem);
  }

  lemma PiAcceptsCode(addr: uint32, n: uint32, crc: uint32, op2: uint32, d: Stream, mem: Memory)
    requires |d| == n
    ensures var run := PiReceive(Bytes(op2) + d, addr, n, crc, mem);
      if op2 == PUT_CODE && Checksum(d) == crc
      then run.end == Booted(addr) && ReadBack(run.mem, addr, n) == d && EndsIn(run.sent, BOOT_SUCCESS)
      else run.end == Rebooted && EndsIn(run.sent, BOOT_ERROR)
  {
    hide Bytes, Checksum, Failure, Print, GetWord, EndsIn, ReadBack, Stored;
    GetWordOf(op2, d);
    assert d[..n] == d;
    ReadBackStored(mem, addr, d);
    var echo := Bytes(GET_CODE) + Bytes(crc);
    FailureEnds(echo, NO_CODE_MESSAGE);
    FailureEnds(echo, CHECKSUM_MESSAGE);
    WordLast(echo + Print(SUCCESS_MESSAGE), BOOT_SUCCESS);
  }

  // ----- memory

  /** Receiving a program changes no address outside the announced range. */
  lemma {:induction false} StoredElsewhere(mem: Memory, addr: uint32, bytes: Stream, a: uint32)
    requires Unsigned(a - addr) >= |bytes|
    ensures a in Stored(mem, addr, bytes) <==> a in mem
    ensures a in mem ==> Stored(mem, addr, bytes)[a] == mem[a]
    decreases |bytes|
  {
    if bytes != [] {
      var n := |bytes| - 1;
      var at: int := addr;
      ModAdd(at + n, -at, TWO_32);
      ModUnique(n, TWO_32, 0, n);
      assert Unsigned(addr + n) != a;
      StoredElsewhere(mem, addr, bytes[..n], a);
    }
  }

  // ----- damage

  /** The bits of a byte are its binary digits. */
  lemma BitsAreDigits(x: uint8)
    ensures Crc.ByteBits(ToByte(x)) ==
      [Digit(x, 0), Digit(x, 1), Digit(x, 2), Digit(x, 3), Digit(x, 4), Digit(x, 5), Digit(x, 6), Digit(x, 7)]
  {
    hide Digit;
  }

  function PowerOfTwo(n: nat): nat {
    if n == 0 then 1 else 2 * PowerOfTwo(n - 1)
  }

  /** Numbers below 2^n with the same n digits are the same. */
  lemma {:induction false} SameDigits(x: nat, y: nat, n: nat)
    requires x < PowerOfTwo(n) && y < PowerOfTwo(n)
    requires forall k :: 0 <= k < n ==> Digit(x, k) == Digit(y, k)
    ensures x == y
    decreases n
  {
    if n > 0 {
      assert Digit(x, 0) == Digit(y, 0);
      forall k | 0 <= k < n - 1
        ensures Digit(x / 2, k) == Digit(y / 2, k)
      {
        assert Digit(x, k + 1) == Digit(y, k + 1);
      }
      SameDigits(x / 2, y / 2, n - 1);
    }
  }

  lemma ByteRange()
    ensures PowerOfTwo(8) == 256
  {}

  lemma SameByte(x: uint8, y: uint8)
    requires ToByte(x) == ToByte(y)
    ensures x == y
  {
    hide ToByte, Digit, Crc.ByteBits, PowerOfTwo;
    ByteRange();
    BitsAreDigits(x);
    BitsAreDigits(y);
    var b, c := Crc.ByteBits(ToByte(x)), Crc.ByteBits(ToByte(y));
    assert forall k :: 0 <= k < 8 ==> b[k] == Digit(x, k) && c[k] == Digit(y, k);
    SameDigits(x, y, 8);
  }

  lemma SameWord(x: bv32, y: bv32)
    requires x as int == y as int
    ensures x == y
  {
    assert (x as int) as bv32 == x && (y as int) as bv32 == y;
  }

  lemma ToBitsInjective(a: seq<uint8>, b: seq<uint8>)
    requires |a| == |b| && ToBits(a) == ToBits(b)
    ensures a == b
  {
    forall i | 0 <= i < |a|
      ensures a[i] == b[i]
    {
      assert ToByte(a[i]) == ToBits(a)[i] == ToBits(b)[i] == ToByte(b[i]);
      hide ToByte;
      SameByte(a[i], b[i]);
    }
  }

  /** Two programs that differ only inside a window of at most 32 bits, wherever it begins. */
  ghost predicate BurstApart(a: seq<uint8>, b: seq<uint8>) {
    exists prefix, w1, w2, suffix :: |w1| == |w2| <= 32
      && Crc.Bits(ToBits(a)) == prefix + w1 + suffix && Crc.Bits(ToBits(b)) == prefix + w2 + suffix
  }

  /** The checksum notices any such difference, anywhere in the program. */
  lemma ChecksumDetects(a: seq<uint8>, b: seq<uint8>)
    requires |a| == |b| && BurstApart(a, b)
    ensures Checksum(a) == Checksum(b) <==> a == b
  {
    hide ToBits;
    var prefix, w1, w2, suffix :| |w1| == |w2| <= 32
      && Crc.Bits(ToBits(a)) == prefix + w1 + suffix && Crc.Bits(ToBits(b)) == prefix + w2 + suffix;
    Crc.BurstDetected(ToBits(a), ToBits(b), prefix, w1, w2, suffix, 0);
    if Checksum(a) == Checksum(b) {
      SameWord(Crc.Crc32(ToBits(a)), Crc.Crc32(ToBits(b)));
      ToBitsInjective(a, b);
    }
  }

  /** A program damaged on the way inside such a window is run if and only if it is not damaged at all. */
  lemma DamageDetected(buf: seq<uint8>, d: seq<uint8>, layout: Layout, mem: Memory)
    requires |buf| == |d| < TWO_32 && BurstApart(d, buf) && !Refused(layout, ARMBASE, |buf|)
    ensures var run := PiAnswer(Offer(buf) + Code(d), layout, mem);
      if d == buf then run.end == Booted(ARMBASE) && EndsIn(run.sent, BOOT_SUCCESS)
      else run.end == Rebooted && EndsIn(run.sent, BOOT_ERROR)
  {
    hide Bytes, Checksum, Refused, EndsIn, BurstApart, PiAnswer;
    ChecksumDetects(d, buf);
    PiAccepts(PUT_PROG_INFO, ARMBASE, |buf|, Checksum(buf), PUT_CODE, d, layout, mem);
    assert Offer(buf) + Code(d) == FiveWords(PUT_PROG_INFO, ARMBASE, |buf|, Checksum(buf), PUT_CODE, d);
  }

  // ----- the Unix side

  /**
   Given three words that are neither strings nor, for the first, a further request, the
   Unix side sends the code if and only if the first two are a request for it and the
   checksum of its program, and succeeds if and only if the third reports success too.
   */
  lemma UnixAccepts(a: uint32, b: uint32, c: uint32, rest: Stream, buf: seq<uint8>)
    requires |buf| < TWO_32 && a != PRINT_STRING && a != GET_PROG_INFO && c != PRINT_STRING
    ensures var run := UnixAfterSync(Bytes(a) + (Bytes(b) + (Bytes(c) + rest)), buf);
      var asked := a == GET_CODE && b == Checksum(buf);
      && run.sent == Offer(buf) + (if asked then Code(buf) else [])
      && (run.ok <==> asked && c == BOOT_SUCCESS)
  {
    hide Bytes, Checksum, GetOp, GetWord, Drain, Offer, Code;
    DrainOther(a, Bytes(b) + (Bytes(c) + rest));
    GetWordOf(b, Bytes(c) + rest);
    GetOpOf(c, rest);
    assert Offer(buf) + [] == Offer(buf);
  }

  /**
   get_op skips exactly the strings of 1 to 511 characters. A longer one ends the
   program, and an empty one makes it skip 2^32 characters.
   */
  lemma GetOpPrinted(msg: string, rest: Stream)
    requires |msg| < TWO_32
    ensures GetOp(Print(msg) + rest) ==
      if 0 < |msg| < 512 then GetOp(rest)
      else if msg == "" && |rest| >= TWO_32 then GetOp(rest[TWO_32..])
      else Died
  {
    hide Bytes, GetOp, Ascii;
    var tail := Ascii(msg) + rest;
    assert Print(msg) + rest == Bytes(PRINT_STRING) + (Bytes(|msg|) + tail);
    GetOpString(|msg|, tail);
    if 0 < |msg| < 512 {
      assert tail[|msg|..] == rest;
    } else if msg == "" {
      assert tail == rest;
    }
  }

  lemma GetOpString(n: uint32, tail: Stream)
    ensures GetOp(Bytes(PRINT_STRING) + (Bytes(n) + tail)) ==
      if n >= 512 || |tail| < StringBytes(n) then Died else GetOp(tail[StringBytes(n)..])
  {
    hide Bytes, GetWord;
    GetWordOf(PRINT_STRING, Bytes(n) + tail);
    GetWordOf(n, tail);
  }
}
