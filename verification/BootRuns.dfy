/**
 The two programs together, over byte links that deliver in order. A joint run is seen
 as a snapshot: each side has been given some prefix of what the other has sent.
 */
module BootRuns {
  import opened Words
  import opened Boot

  // ----- reading words

  lemma GetWordOf(v: uint32, rest: Stream)
    ensures GetWord(Bytes(v) + rest) == Got(v, rest)
  {
    BytesRoundTrip(v);
    assert (Bytes(v) + rest)[..4] == Bytes(v) && (Bytes(v) + rest)[4..] == rest;
  }

  lemma GetOpOf(v: uint32, rest: Stream)
    requires v != PRINT_STRING
    ensures GetOp(Bytes(v) + rest) == Got(v, rest)
  {
    GetWordOf(v, rest);
  }

  /** get_op skips a string that is short enough and not empty. */
  lemma GetOpSkips(msg: string, rest: Stream)
    requires 0 < |msg| < 512
    ensures GetOp(Print(msg) + rest) == GetOp(rest)
  {
    var tail := Ascii(msg) + rest;
    assert Print(msg) + rest == Bytes(PRINT_STRING) + (Bytes(|msg|) + tail);
    GetWordOf(PRINT_STRING, Bytes(|msg|) + tail);
    GetWordOf(|msg|, tail);
    assert tail[|msg|..] == rest;
  }

  /** More input never changes what has been read. */
  lemma GetWordMore(input: Stream, more: Stream)
    requires GetWord(input).Got?
    ensures GetWord(input + more) == Got(GetWord(input).op, GetWord(input).rest + more)
  {
    assert (input + more)[..4] == input[..4] && (input + more)[4..] == input[4..] + more;
  }

  lemma {:induction false} GetOpMore(input: Stream, more: Stream)
    requires GetOp(input).Got?
    ensures GetOp(input + more) == Got(GetOp(input).op, GetOp(input).rest + more)
    decreases |input|
  {
    GetWordMore(input, more);
    var g := GetWord(input);
    if g.op == PRINT_STRING {
      GetWordMore(g.rest, more);
      var length := GetWord(g.rest);
      var n := StringBytes(length.op);
      assert (length.rest + more)[n..] == length.rest[n..] + more;
      GetOpMore(length.rest[n..], more);
    }
  }

  lemma {:induction false} SyncMore(input: Stream, more: Stream)
    requires Sync(input).Got?
    ensures Sync(input + more) == Got(Sync(input).op, Sync(input).rest + more)
    decreases |input|
  {
    hide GetOp;
    GetOpMore(input, more);
    var g := GetOp(input);
    if g.op != GET_PROG_INFO {
      assert (g.rest + more)[1..] == g.rest[1..] + more;
      SyncMore(g.rest[1..], more);
    }
  }

  lemma {:induction false} DrainMore(input: Stream, more: Stream)
    requires Drain(input).Got?
    ensures Drain(input + more) == Got(Drain(input).op, Drain(input).rest + more)
    decreases |input|
  {
    hide GetOp, GetWord;
    GetOpMore(input, more);
    var g := GetOp(input);
    if g.op == GET_PROG_INFO {
      GetWordMore(g.rest, more);
      DrainMore(GetWord(g.rest).rest, more);
    }
  }

  lemma UnixAfterSyncMore(input: Stream, more: Stream, buf: seq<uint8>)
    requires |buf| < TWO_32 && UnixAfterSync(input, buf).ok
    ensures UnixAfterSync(input + more, buf) == UnixAfterSync(input, buf)
  {
    hide GetWord, GetOp, Drain, Checksum;
    DrainMore(input, more);
    var request := Drain(input);
    GetWordMore(request.rest, more);
    GetOpMore(GetWord(request.rest).rest, more);
  }

  /** A Unix side that has succeeded stays where it is when more bytes arrive. */
  lemma UnixMore(input: Stream, more: Stream, buf: seq<uint8>)
    requires |buf| < TWO_32 && Unix(input, buf).ok
    ensures Unix(input + more, buf) == Unix(input, buf)
  {
    hide Sync, UnixAfterSync;
    SyncMore(input, more);
    UnixAfterSyncMore(Sync(input).rest, more, buf);
  }

  // ----- draining

  /** Each extra GET_PROG_INFO takes the following word with it, so a whole number of pairs disappears. */
  lemma {:induction false} DrainPairs(n: nat, tail: Stream)
    ensures Drain(Repeat(GET_PROG_INFO, 2 * n) + tail) == Drain(tail)
  {
    hide Bytes, GetOp, GetWord;
    if n == 0 {
      assert [] + tail == tail;
    } else {
      var rest := Repeat(GET_PROG_INFO, 2 * (n - 1)) + tail;
      assert Repeat(GET_PROG_INFO, 2 * n) + tail == Bytes(GET_PROG_INFO) + (Bytes(GET_PROG_INFO) + rest);
      GetOpOf(GET_PROG_INFO, Bytes(GET_PROG_INFO) + rest);
      GetWordOf(GET_PROG_INFO, rest);
      DrainPairs(n - 1, tail);
    }
  }

  /** One left over swallows the first word of what follows. */
  lemma DrainOdd(n: nat, tail: Stream)
    ensures var g := GetWord(tail);
            Drain(Repeat(GET_PROG_INFO, 2 * n + 1) + tail) == if g.Died? then Died else Drain(g.rest)
  {
    RepeatSplit(2 * n, 1);
    assert Repeat(GET_PROG_INFO, 1) == Bytes(GET_PROG_INFO) + [];
    assert Repeat(GET_PROG_INFO, 2 * n + 1) + tail == Repeat(GET_PROG_INFO, 2 * n) + (Bytes(GET_PROG_INFO) + tail);
    DrainPairs(n, Bytes(GET_PROG_INFO) + tail);
    GetOpOf(GET_PROG_INFO, tail);
  }

  lemma {:induction false} RepeatSplit(m: nat, n: nat)
    ensures Repeat(GET_PROG_INFO, m + n) == Repeat(GET_PROG_INFO, m) + Repeat(GET_PROG_INFO, n)
  {
    if m > 0 {
      RepeatSplit(m - 1, n);
    }
  }

  lemma DrainOther(v: uint32, rest: Stream)
    requires v != PRINT_STRING && v != GET_PROG_INFO
    ensures Drain(Bytes(v) + rest) == Got(v, rest)
  {
    GetOpOf(v, rest);
  }

  // ----- memory

  lemma {:induction false} StoredAt(mem: Memory, addr: uint32, bytes: Stream, i: nat)
    requires i < |bytes| <= TWO_32
    ensures Unsigned(addr + i) in Stored(mem, addr, bytes) && Stored(mem, addr, bytes)[Unsigned(addr + i)] == bytes[i]
    decreases |bytes|
  {
    var n := |bytes| - 1;
    if i < n {
      StoredAt(mem, addr, bytes[..n], i);
      ModApart(addr + i, addr + n, TWO_32);
    }
  }

  /** Reading back from where a program was stored gives the program. */
  lemma ReadBackStored(mem: Memory, addr: uint32, bytes: Stream)
    requires |bytes| <= TWO_32
    ensures ReadBack(Stored(mem, addr, bytes), addr, |bytes|) == bytes
  {
    forall i | 0 <= i < |bytes|
      ensures ReadBack(Stored(mem, addr, bytes), addr, |bytes|)[i] == bytes[i]
    {
      StoredAt(mem, addr, bytes, i);
    }
  }

  // ----- what the Pi answers to a prefix of what the Unix side sends

  lemma GetWordPrefix(v: uint32, rest: Stream, input: Stream)
    requires input <= Bytes(v) + rest
    ensures GetWord(input).Died? || (GetWord(input) == Got(v, input[4..]) && input[4..] <= rest)
  {
    if |input| >= 4 {
      BytesRoundTrip(v);
      assert input[..4] == (Bytes(v) + rest)[..4] == Bytes(v);
      assert input[4..] <= (Bytes(v) + rest)[4..] == rest;
    }
  }

  /** Something printed, then a word. */
  ghost predicate Report(s: Stream, v: uint32) {
    exists msg :: 0 < |msg| < 512 && s == Print(msg) + Bytes(v)
  }

  /**
   The possible answers: nothing yet, an error, or the request for the code and then
   nothing yet, an error, or success.
   */
  ghost predicate Answer(run: PiRun, buf: seq<uint8>, mem: Memory)
    requires |buf| < TWO_32
  {
    var echo := Bytes(GET_CODE) + Bytes(Checksum(buf));
    || (!run.end.Booted? && (run.sent == [] || Report(run.sent, BOOT_ERROR)))
    || (!run.end.Booted? && run.sent == echo)
    || (run.end == Booted(ARMBASE) && run.mem == Stored(mem, ARMBASE, buf)
        && exists r :: Report(r, BOOT_SUCCESS) && run.sent == echo + r)
  }

  lemma PiAnswers(input: Stream, layout: Layout, mem: Memory, buf: seq<uint8>)
    requires |buf| < TWO_32 && input <= Offer(buf) + Code(buf)
    ensures Answer(PiAnswer(input, layout, mem), buf, mem)
    ensures PiAnswer(input, layout, mem).end.Booted? ==> !Refused(layout, ARMBASE, |buf|)
  {
    hide Bytes, Checksum, Failure, PiReceive, Answer, GetWord, Refused;
    var code := Code(buf);
    var s3 := Bytes(Checksum(buf)) + code;
    var s2 := Bytes(|buf|) + s3;
    var s1 := Bytes(ARMBASE) + s2;
    assert Offer(buf) + code == Bytes(PUT_PROG_INFO) + s1;
    SilentAnswer(mem, buf);
    GetWordPrefix(PUT_PROG_INFO, s1, input);
    if GetWord(input).Got? {
      GetWordPrefix(ARMBASE, s2, input[4..]);
      if GetWord(input[4..]).Got? {
        GetWordPrefix(|buf|, s3, input[4..][4..]);
        if GetWord(input[4..][4..]).Got? {
          GetWordPrefix(Checksum(buf), code, input[4..][4..][4..]);
          if GetWord(input[4..][4..][4..]).Got? {
            RefusalAnswer(mem, buf);
            PiReceives(input[4..][4..][4..][4..], mem, buf);
          }
        }
      }
    }
  }

  lemma SilentAnswer(mem: Memory, buf: seq<uint8>)
    requires |buf| < TWO_32
    ensures Answer(PiRun(Waiting, [], mem), buf, mem)
  {}

  lemma RefusalAnswer(mem: Memory, buf: seq<uint8>)
    requires |buf| < TWO_32
    ensures Answer(PiRun(Rebooted, Failure(COLLISION_MESSAGE), mem), buf, mem)
  {
    hide Bytes, Print;
    assert Report(Failure(COLLISION_MESSAGE), BOOT_ERROR);
  }

  lemma PiReceives(input: Stream, mem: Memory, buf: seq<uint8>)
    requires |buf| < TWO_32 && input <= Code(buf)
    ensures Answer(PiReceive(input, ARMBASE, |buf|, Checksum(buf), mem), buf, mem)
  {
    hide Bytes, Checksum, Print, Stored, ReadBack, Failure, GetWord, Answer;
    EchoAnswer(mem, buf);
    GetWordPrefix(PUT_CODE, buf, input);
    var op := GetWord(input);
    if op.Got? && |op.rest| >= |buf| {
      assert op.rest[..|buf|] == buf;
      ReadBackStored(mem, ARMBASE, buf);
      SuccessAnswers(Stored(mem, ARMBASE, buf), mem, buf);
    }
  }

  lemma EchoAnswer(mem: Memory, buf: seq<uint8>)
    requires |buf| < TWO_32
    ensures forall m :: Answer(PiRun(Waiting, Bytes(GET_CODE) + Bytes(Checksum(buf)), m), buf, mem)
  {}

  lemma SuccessAnswers(after: Memory, mem: Memory, buf: seq<uint8>)
    requires |buf| < TWO_32 && after == Stored(mem, ARMBASE, buf)
    ensures var echo := Bytes(GET_CODE) + Bytes(Checksum(buf));
            Answer(PiRun(Booted(ARMBASE), echo + Print(SUCCESS_MESSAGE) + Bytes(BOOT_SUCCESS), after), buf, mem)
  {
    hide Bytes, Checksum, Print, Stored;
    var echo := Bytes(GET_CODE) + Bytes(Checksum(buf));
    var r := Print(SUCCESS_MESSAGE) + Bytes(BOOT_SUCCESS);
    assert Report(r, BOOT_SUCCESS);
    assert echo + Print(SUCCESS_MESSAGE) + Bytes(BOOT_SUCCESS) == echo + r;
  }

  // ----- what the Unix side makes of it

  lemma GetOpReport(r: Stream, v: uint32)
    requires Report(r, v) && v != PRINT_STRING
    ensures GetOp(r) == Got(v, [])
  {
    var msg :| 0 < |msg| < 512 && r == Print(msg) + Bytes(v);
    GetOpSkips(msg, Bytes(v));
    assert Bytes(v) == Bytes(v) + [];
    GetOpOf(v, []);
  }

  /** Read as a word, a report begins with the opcode of a string and then a small number. */
  lemma WordsOfReport(r: Stream, v: uint32)
    requires Report(r, v)
    ensures var g := GetWord(r);
            g.Got? && g.op == PRINT_STRING && Drain(g.rest).Got? && Drain(g.rest).op < 512
  {
    var msg :| 0 < |msg| < 512 && r == Print(msg) + Bytes(v);
    var tail := Ascii(msg) + Bytes(v);
    assert r == Bytes(PRINT_STRING) + (Bytes(|msg|) + tail);
    GetWordOf(PRINT_STRING, Bytes(|msg|) + tail);
    DrainOther(|msg|, tail);
  }

  /** With the requests before the answer read in pairs, success means the answer says so. */
  lemma EvenCase(run: PiRun, buf: seq<uint8>, mem: Memory)
    requires |buf| < TWO_32 && Answer(run, buf, mem)
    ensures UnixAfterSync(run.sent, buf).ok <==> run.end.Booted?
  {
    hide Bytes, Checksum, GetOp, GetWord, Drain, Report;
    var c := Checksum(buf);
    if run.end.Booted? {
      var r :| Report(r, BOOT_SUCCESS) && run.sent == Bytes(GET_CODE) + Bytes(c) + r;
      assert run.sent == Bytes(GET_CODE) + (Bytes(c) + r);
      DrainOther(GET_CODE, Bytes(c) + r);
      GetWordOf(c, r);
      GetOpReport(r, BOOT_SUCCESS);
    } else if run.sent == [] {
      NothingRead();
    } else if Report(run.sent, BOOT_ERROR) {
      GetOpReport(run.sent, BOOT_ERROR);
      DrainIsOp(run.sent);
    } else {
      assert run.sent == Bytes(GET_CODE) + (Bytes(c) + []);
      DrainOther(GET_CODE, Bytes(c) + []);
      GetWordOf(c, []);
      NothingRead();
    }
  }

  lemma NothingRead()
    ensures GetWord([]).Died? && GetOp([]).Died? && Drain([]).Died?
  {}

  lemma DrainIsOp(input: Stream)
    requires GetOp(input).Got? && GetOp(input).op != GET_PROG_INFO
    ensures Drain(input) == GetOp(input)
  {}

  /** With one request left over, the first word of the answer is swallowed and the run cannot succeed. */
  lemma OddCase(run: PiRun, buf: seq<uint8>, mem: Memory, input: Stream)
    requires |buf| < TWO_32 && Answer(run, buf, mem)
    requires Drain(input) == (if GetWord(run.sent).Died? then Died else Drain(GetWord(run.sent).rest))
    ensures !UnixAfterSync(input, buf).ok
  {
    hide Bytes, Checksum, GetOp, GetWord, Drain, Report;
    var c := Checksum(buf);
    var echo := Bytes(GET_CODE) + Bytes(c);
    if run.sent == [] {
      NothingRead();
    } else if Report(run.sent, BOOT_ERROR) {
      WordsOfReport(run.sent, BOOT_ERROR);
    } else if run.sent == echo {
      GetWordOf(GET_CODE, Bytes(c));
      assert Bytes(c) == Bytes(c) + [];
      ChecksumAsOp(c, []);
      NothingRead();
    } else {
      var r :| Report(r, BOOT_SUCCESS) && run.sent == echo + r;
      assert run.sent == Bytes(GET_CODE) + (Bytes(c) + r);
      GetWordOf(GET_CODE, Bytes(c) + r);
      ChecksumAsOp(c, r);
      WordsOfReport(r, BOOT_SUCCESS);
    }
  }

  /** The echoed checksum, read where an opcode is expected. */
  lemma ChecksumAsOp(c: uint32, r: Stream)
    requires r == [] || Report(r, BOOT_SUCCESS)
    ensures var g := Drain(Bytes(c) + r);
            || g.Died?
            || g.op < 512
            || (g == Got(c, r) && c != GET_PROG_INFO)
  {
    hide Bytes, Report;
    if c == PRINT_STRING {
      GetWordOf(c, r);
      if r != [] {
        WordsOfReport(r, BOOT_SUCCESS);
      }
    } else if c == GET_PROG_INFO {
      GetOpOf(c, r);
      if r != [] {
        WordsOfReport(r, BOOT_SUCCESS);
      }
    } else {
      DrainOther(c, r);
    }
  }

  /**
   However many requests are still unread when the Unix side has synchronised, it
   succeeds only on an even number and a booted Pi.
   */
  lemma AfterRequests(n: nat, run: PiRun, buf: seq<uint8>, mem: Memory)
    requires |buf| < TWO_32 && Answer(run, buf, mem)
    ensures UnixAfterSync(Repeat(GET_PROG_INFO, n) + run.sent, buf).ok <==> n % 2 == 0 && run.end.Booted?
  {
    hide Bytes, Checksum, GetOp, GetWord, Drain, Answer, Repeat;
    var m := n / 2;
    var input := Repeat(GET_PROG_INFO, n) + run.sent;
    if n == 2 * m {
      DrainPairs(m, run.sent);
      SameDrain(input, run.sent, buf);
      EvenCase(run, buf, mem);
    } else {
      assert n == 2 * m + 1;
      DrainOdd(m, run.sent);
      OddCase(run, buf, mem, input);
    }
  }

  lemma SameDrain(x: Stream, y: Stream, buf: seq<uint8>)
    requires |buf| < TWO_32 && Drain(x) == Drain(y)
    ensures UnixAfterSync(x, buf) == UnixAfterSync(y, buf)
  {}

  // ----- joint runs

  /** Each side has been given a prefix of what the other has sent; the Pi sent `asked` requests before it saw data. */
  ghost predicate Joint(asked: nat, toUnix: Stream, toPi: Stream, buf: seq<uint8>, layout: Layout, mem: Memory)
    requires |buf| < TWO_32
  {
    asked > 0 && toUnix <= Pi(asked, toPi, layout, mem).sent && toPi <= Unix(toUnix, buf).sent
  }

  lemma SyncAtOnce(n: nat, rest: Stream)
    requires n > 0
    ensures Sync(Repeat(GET_PROG_INFO, n) + rest) == Got(GET_PROG_INFO, Repeat(GET_PROG_INFO, n - 1) + rest)
  {
    var tail := Repeat(GET_PROG_INFO, n - 1) + rest;
    assert Repeat(GET_PROG_INFO, n) + rest == Bytes(GET_PROG_INFO) + tail;
    GetOpOf(GET_PROG_INFO, tail);
  }

  /**
   Whenever the Unix side passes its last check, the Pi has booted: memory holds the
   program from the announced address on, and that is the address get_code returns.
   It can only happen after an odd number of requests.
   */
  lemma BootSafety(asked: nat, toUnix: Stream, toPi: Stream, buf: seq<uint8>, layout: Layout, mem: Memory)
    requires |buf| < TWO_32 && Joint(asked, toUnix, toPi, buf, layout, mem) && Unix(toUnix, buf).ok
    ensures var run := Pi(asked, toPi, layout, mem);
            run.end == Booted(ARMBASE) && ReadBack(run.mem, ARMBASE, |buf|) == buf
    ensures asked % 2 == 1
  {
    hide Bytes, Checksum, Sync, UnixAfterSync, PiAnswer, Stored, Repeat;
    var run := PiAnswer(toPi, layout, mem);
    var sent := Repeat(GET_PROG_INFO, asked) + run.sent;
    UnixSent(toUnix, buf);
    PiAnswers(toPi, layout, mem, buf);
    UnixMore(toUnix, sent[|toUnix|..], buf);
    assert toUnix + sent[|toUnix|..] == sent;
    SyncAtOnce(asked, run.sent);
    AfterRequests(asked - 1, run, buf, mem);
    ReadBackStored(mem, ARMBASE, buf);
  }

  lemma UnixSent(input: Stream, buf: seq<uint8>)
    requires |buf| < TWO_32 && Unix(input, buf).ok
    ensures Unix(input, buf).sent == Offer(buf) + Code(buf)
  {}

  lemma PiBoots(layout: Layout, mem: Memory, buf: seq<uint8>)
    requires |buf| < TWO_32 && !Refused(layout, ARMBASE, |buf|)
    ensures PiAnswer(Offer(buf) + Code(buf), layout, mem).end.Booted?
  {
    hide Bytes, Checksum, Print, PiReceive;
    var code := Code(buf);
    var s3 := Bytes(Checksum(buf)) + code;
    var s2 := Bytes(|buf|) + s3;
    var s1 := Bytes(ARMBASE) + s2;
    assert Offer(buf) + code == Bytes(PUT_PROG_INFO) + s1;
    GetWordOf(PUT_PROG_INFO, s1);
    GetWordOf(ARMBASE, s2);
    GetWordOf(|buf|, s3);
    GetWordOf(Checksum(buf), code);
    PiReceivesAll(mem, buf);
  }

  lemma PiReceivesAll(mem: Memory, buf: seq<uint8>)
    requires |buf| < TWO_32
    ensures PiReceive(Code(buf), ARMBASE, |buf|, Checksum(buf), mem).end.Booted?
  {
    hide Bytes, Checksum, Print, Stored;
    GetWordOf(PUT_CODE, buf);
    assert buf[..|buf|] == buf;
    ReadBackStored(mem, ARMBASE, buf);
  }

  /**
   The collision test adds in 32 bits. Of the programs that do not fit between the start
   of the code area and the bootloader, it accepts exactly those whose end wraps around
   to an address below both of its limits.
   */
  lemma CollisionTestExact(layout: Layout, addr: uint32, nbytes: uint32)
    ensures var fits := layout.codeStart <= addr && addr + nbytes < layout.put32 && addr + nbytes < layout.progEnd;
            && (fits ==> !Refused(layout, addr, nbytes))
            && (!Refused(layout, addr, nbytes) && !fits <==>
                layout.codeStart <= addr && addr + nbytes >= TWO_32
                && addr + nbytes - TWO_32 < layout.put32 && addr + nbytes - TWO_32 < layout.progEnd)
  {
    if addr + nbytes >= TWO_32 {
      ModUnique(addr + nbytes, TWO_32, 1, addr + nbytes - TWO_32);
    } else {
      ModUnique(addr + nbytes, TWO_32, 0, addr + nbytes);
    }
  }

  // ----- resynchronisation

  /** The word a reader at position p sees. */
  function WordAt(s: Stream, p: nat): uint32
    requires p + 4 <= |s|
  {
    LittleEndian(s[p..p + 4])
  }

  predicate IsOp(w: uint32) {
    w == GET_PROG_INFO || w == PRINT_STRING
  }

  /** A failed round drops five bytes. */
  lemma RoundFails(s: Stream, p: nat)
    requires p + 5 <= |s| && !IsOp(WordAt(s, p))
    ensures Sync(s[p..]) == Sync(s[p + 5..])
  {
    assert s[p..][..4] == s[p..p + 4];
    assert s[p..][4..][1..] == s[p + 5..];
  }

  lemma RoundSucceeds(s: Stream, p: nat)
    requires p + 4 <= |s| && WordAt(s, p) == GET_PROG_INFO
    ensures Sync(s[p..]) == Got(GET_PROG_INFO, s[p + 4..])
  {
    assert s[p..][..4] == s[p..p + 4];
    assert s[p..][4..] == s[p + 4..];
  }

  lemma {:induction false} RepeatAt(n: nat, i: nat)
    requires i < 4 * n
    ensures Repeat(GET_PROG_INFO, n)[i] == Bytes(GET_PROG_INFO)[i % 4]
  {
    if i >= 4 {
      RepeatAt(n - 1, i - 4);
    }
  }

  /** The request read from the k-th of its four bytes on. */
  function Turned(k: nat): (w: Stream)
    ensures |w| == 4
  {
    var b := Bytes(GET_PROG_INFO);
    [b[k % 4], b[(k + 1) % 4], b[(k + 2) % 4], b[(k + 3) % 4]]
  }

  lemma OnlyAlignedIsOp(k: nat)
    ensures LittleEndian(Turned(k)) == GET_PROG_INFO <==> k % 4 == 0
    ensures IsOp(LittleEndian(Turned(k))) <==> k % 4 == 0
  {
    RequestBytes();
    hide Bytes;
    var r := k % 4;
    assert (k + 1) % 4 == (r + 1) % 4 && (k + 2) % 4 == (r + 2) % 4 && (k + 3) % 4 == (r + 3) % 4;
    if r == 0 {
      assert Turned(k) == [0x22, 0x22, 0x11, 0x11];
    } else if r == 1 {
      assert Turned(k) == [0x22, 0x11, 0x11, 0x22];
    } else if r == 2 {
      assert Turned(k) == [0x11, 0x11, 0x22, 0x22];
    } else {
      assert Turned(k) == [0x11, 0x22, 0x22, 0x11];
    }
  }

  lemma RequestBytes()
    ensures Bytes(GET_PROG_INFO) == [0x22, 0x22, 0x11, 0x11]
  {}

  /** Inside the repeated words, only aligned positions read as an opcode. */
  lemma AlignedOrNot(g: Stream, m: nat, tail: Stream, p: nat)
    requires |g| <= p && p + 4 <= |g| + 4 * m
    ensures var s := g + Repeat(GET_PROG_INFO, m) + tail;
            && ((p - |g|) % 4 == 0 ==> WordAt(s, p) == GET_PROG_INFO)
            && ((p - |g|) % 4 != 0 ==> !IsOp(WordAt(s, p)))
  {
    hide Repeat, Bytes, IsOp, LittleEndian;
    var s := g + Repeat(GET_PROG_INFO, m) + tail;
    var d := p - |g|;
    RepeatAt(m, d);
    RepeatAt(m, d + 1);
    RepeatAt(m, d + 2);
    RepeatAt(m, d + 3);
    assert s[p..p + 4] == Turned(d);
    OnlyAlignedIsOp(d);
  }

  /** Discards still needed from a position in the repeated part. */
  function Discards(d: nat): (r: nat)
    ensures r <= 3
  {
    (4 - d % 4) % 4
  }

  lemma DiscardsStep(d: nat)
    ensures d % 4 == 0 <==> Discards(d) == 0
    ensures d % 4 != 0 ==> Discards(d + 5) == Discards(d) - 1
    ensures (d + 5 * Discards(d)) % 4 == 0
  {}

  /** In the repeated part at most three discards lead to a word boundary. */
  lemma {:induction false} SyncInside(g: Stream, m: nat, tail: Stream, p: nat)
    requires |g| <= p && p + 5 * Discards(p - |g|) + 4 <= |g| + 4 * m
    ensures var s := g + Repeat(GET_PROG_INFO, m) + tail;
            var stop := p + 5 * Discards(p - |g|);
            (stop - |g|) % 4 == 0 && Sync(s[p..]) == Got(GET_PROG_INFO, s[stop + 4..])
    decreases Discards(p - |g|)
  {
    hide Repeat, Sync, WordAt, IsOp, Discards;
    var s := g + Repeat(GET_PROG_INFO, m) + tail;
    AlignedOrNot(g, m, tail, p);
    DiscardsStep(p - |g|);
    if (p - |g|) % 4 == 0 {
      RoundSucceeds(s, p);
    } else {
      RoundFails(s, p);
      SyncInside(g, m, tail, p + 5);
    }
  }

  /** Where rounds of five bytes first leave the garbage. */
  function Entry(garbage: nat): (p: nat)
    ensures garbage <= p < garbage + 5 && p % 5 == 0
  {
    (garbage + 4) / 5 * 5
  }

  /** No word the discard loop looks at, from position p on and overlapping the garbage, reads as an opcode. */
  ghost predicate Quiet(s: Stream, garbage: nat, p: nat) {
    forall q :: p <= q < garbage && q % 5 == p % 5 && q + 4 <= |s| ==> !IsOp(WordAt(s, q))
  }

  /** Where the discard loop stops, given enough requests: at most three discards after leaving the garbage. */
  function Stop(garbage: nat): (p: nat)
    ensures garbage <= p <= garbage + 16 && (p - garbage) % 4 == 0
  {
    DiscardsStep(Entry(garbage) - garbage);
    Entry(garbage) + 5 * Discards(Entry(garbage) - garbage)
  }

  /** Garbage, then enough requests: the discard loop ends on a word boundary of the requests. */
  lemma {:induction false} Resynchronises(g: Stream, m: nat, tail: Stream, p: nat)
    requires Stop(|g|) + 4 <= |g| + 4 * m && p % 5 == 0 && p <= Entry(|g|)
    requires Quiet(g + Repeat(GET_PROG_INFO, m) + tail, |g|, p)
    ensures var s := g + Repeat(GET_PROG_INFO, m) + tail;
            Sync(s[p..]) == Got(GET_PROG_INFO, s[Stop(|g|) + 4..])
    decreases Entry(|g|) - p
  {
    hide Repeat, Sync, WordAt, IsOp;
    var s := g + Repeat(GET_PROG_INFO, m) + tail;
    if p == Entry(|g|) {
      SyncInside(g, m, tail, p);
    } else {
      assert p < |g|;
      RoundFails(s, p);
      Resynchronises(g, m, tail, p + 5);
    }
  }

  /** Among requests alone the loop needs those discards and one more word. */
  lemma {:induction false} SyncInsideNeeds(g: Stream, m: nat, p: nat)
    requires |g| <= p <= |g| + 4 * m && Sync((g + Repeat(GET_PROG_INFO, m))[p..]).Got?
    ensures p + 5 * Discards(p - |g|) + 4 <= |g| + 4 * m
    decreases Discards(p - |g|)
  {
    hide Repeat, Sync, WordAt, IsOp, Discards;
    var s := g + Repeat(GET_PROG_INFO, m);
    SyncNeeds(s, p);
    assert s + [] == s;
    AlignedOrNot(g, m, [], p);
    DiscardsStep(p - |g|);
    if (p - |g|) % 4 != 0 {
      RoundFails(s, p);
      SyncInsideNeeds(g, m, p + 5);
    }
  }

  lemma {:induction false} SyncNeedsStop(g: Stream, m: nat, p: nat)
    requires p % 5 == 0 && p <= Entry(|g|) && p <= |g| + 4 * m
    requires Quiet(g + Repeat(GET_PROG_INFO, m), |g|, 0)
    requires Sync((g + Repeat(GET_PROG_INFO, m))[p..]).Got?
    ensures Stop(|g|) + 4 <= |g| + 4 * m
    decreases Entry(|g|) - p
  {
    hide Repeat, Sync, WordAt, IsOp, Quiet;
    var s := g + Repeat(GET_PROG_INFO, m);
    if p == Entry(|g|) {
      SyncInsideNeeds(g, m, p);
    } else {
      SyncNeeds(s, p);
      QuietAt(s, |g|, p);
      RoundFails(s, p);
      SyncNeedsStop(g, m, p + 5);
    }
  }

  /** The discard loop ends on garbage and requests if and only if the requests reach beyond its stop. */
  lemma ResynchronisesExactly(g: Stream, m: nat)
    requires Quiet(g + Repeat(GET_PROG_INFO, m), |g|, 0)
    ensures Sync(g + Repeat(GET_PROG_INFO, m)).Got? <==> Stop(|g|) + 4 <= |g| + 4 * m
  {
    hide Repeat, Sync, Quiet, Stop;
    var s := g + Repeat(GET_PROG_INFO, m);
    assert s + [] == s && s[0..] == s;
    if Sync(s).Got? {
      SyncNeedsStop(g, m, 0);
    } else if Stop(|g|) + 4 <= |g| + 4 * m {
      Resynchronises(g, m, [], 0);
    }
  }

  /** Five requests are enough for every length of garbage, and four are not. */
  lemma FiveRequestsSuffice(m: nat)
    ensures (forall garbage: nat :: Stop(garbage) + 4 <= garbage + 4 * m) <==> m >= 5
  {
    assert Stop(4) == 20;
  }

  /** Requests that are left to read when the discard loop has stopped. */
  function Left(garbage: nat, m: nat): int {
    (garbage + 4 * m - Stop(garbage) - 4) / 4
  }

  /**
   However few the requests behind the garbage are: if the discard loop ends on garbage
   and requests alone, it ends on a word boundary, with a whole number of requests left.
   */
  lemma SyncLeaves(g: Stream, m: nat) returns (n: nat)
    requires Quiet(g + Repeat(GET_PROG_INFO, m), |g|, 0) && Sync(g + Repeat(GET_PROG_INFO, m)).Got?
    ensures n < m && n == Left(|g|, m) && Stop(|g|) + 4 <= |g| + 4 * m
    ensures Sync(g + Repeat(GET_PROG_INFO, m)) == Got(GET_PROG_INFO, Repeat(GET_PROG_INFO, n))
  {
    hide Repeat, Sync, Quiet, Stop;
    var s := g + Repeat(GET_PROG_INFO, m);
    ResynchronisesExactly(g, m);
    assert s + [] == s && s[0..] == s;
    Resynchronises(g, m, [], 0);
    n := RequestsBehind(g, m, Stop(|g|) + 4);
  }

  lemma QuietAt(s: Stream, garbage: nat, p: nat)
    requires Quiet(s, garbage, 0) && p < garbage && p % 5 == 0 && p + 4 <= |s|
    ensures !IsOp(WordAt(s, p))
  {}

  /** From a word boundary on there is a whole number of requests. */
  lemma RequestsBehind(g: Stream, m: nat, p: nat) returns (n: nat)
    requires |g| < p <= |g| + 4 * m && (p - |g|) % 4 == 0
    ensures n == m - (p - |g|) / 4 && n < m && (g + Repeat(GET_PROG_INFO, m))[p..] == Repeat(GET_PROG_INFO, n)
  {
    hide Repeat;
    var read := (p - |g|) / 4;
    n := m - read;
    RepeatSplit(read, n);
    assert (g + Repeat(GET_PROG_INFO, m))[p..] == Repeat(GET_PROG_INFO, m)[4 * read..];
  }

  /** To go on, the discard loop needs a word, and after one that is no opcode a byte to drop. */
  lemma SyncNeeds(s: Stream, p: nat)
    requires p <= |s| && Sync(s[p..]).Got?
    ensures p + 4 <= |s| && (IsOp(WordAt(s, p)) || p + 5 <= |s|)
  {
    if p + 4 <= |s| {
      assert s[p..][..4] == s[p..p + 4];
    }
  }

  /**
   Boot safety when the line starts with garbage that does not read as an opcode, given
   that the Unix side can synchronise on garbage and requests alone.
   */
  lemma SafeOnceSynchronised(g: Stream, asked: nat, toUnix: Stream, toPi: Stream,
                             buf: seq<uint8>, layout: Layout, mem: Memory)
    requires |buf| < TWO_32
    requires Quiet(g + Repeat(GET_PROG_INFO, asked), |g|, 0) && Sync(g + Repeat(GET_PROG_INFO, asked)).Got?
    requires toUnix <= g + Pi(asked, toPi, layout, mem).sent && toPi <= Unix(toUnix, buf).sent
    requires Unix(toUnix, buf).ok
    ensures var run := Pi(asked, toPi, layout, mem);
            run.end == Booted(ARMBASE) && ReadBack(run.mem, ARMBASE, |buf|) == buf
  {
    hide Bytes, Checksum, Sync, UnixAfterSync, PiAnswer, Stored, Repeat, Quiet;
    var run := PiAnswer(toPi, layout, mem);
    var start := g + Repeat(GET_PROG_INFO, asked);
    var s := start + run.sent;
    assert s == g + (Repeat(GET_PROG_INFO, asked) + run.sent);
    UnixSent(toUnix, buf);
    PiAnswers(toPi, layout, mem, buf);
    UnixMore(toUnix, s[|toUnix|..], buf);
    assert toUnix + s[|toUnix|..] == s;
    var n := SyncLeaves(g, asked);
    SyncMore(start, run.sent);
    AfterRequests(n, run, buf, mem);
    ReadBackStored(mem, ARMBASE, buf);
  }
}
