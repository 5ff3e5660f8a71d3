/**
 Runs of the boot protocol byte by byte: at each turn one link delivers the next byte
 that has been sent on it, if there is one. Either side sends what its program sends on
 the bytes it has been given so far.
 */
module BootLinks {
  import opened Words
  import opened Boot
  import opened BootRuns

  /** Garbage on the line, the number of requests the Pi sends before it sees data, and what is to be loaded where. */
  datatype Session = Session(garbage: Stream, asked: nat, buf: seq<uint8>, layout: Layout, mem: Memory) {
    predicate Valid() {
      asked > 0 && |buf| < TWO_32
    }

    function Requests(): Stream {
      garbage + Repeat(GET_PROG_INFO, asked)
    }

    function PiSends(toPi: Stream): Stream {
      garbage + Pi(asked, toPi, layout, mem).sent
    }

    function UnixSends(toUnix: Stream): Stream
      requires Valid()
    {
      Unix(toUnix, buf).sent
    }
  }

  datatype Turn = ToUnix | ToPi

  /** The bytes delivered so far. */
  datatype Links = Links(toUnix: Stream, toPi: Stream)

  function Deliver(s: Session, d: Links, turn: Turn): Links
    requires s.Valid()
  {
    match turn
    case ToUnix =>
      var sent := s.PiSends(d.toPi);
      if |d.toUnix| < |sent| then d.(toUnix := d.toUnix + [sent[|d.toUnix|]]) else d
    case ToPi =>
      var sent := s.UnixSends(d.toUnix);
      if |d.toPi| < |sent| then d.(toPi := d.toPi + [sent[|d.toPi|]]) else d
  }

  function After(s: Session, turns: seq<Turn>): Links
    requires s.Valid()
    decreases |turns|
  {
    if turns == [] then Links([], [])
    else
      var n := |turns| - 1;
      Deliver(s, After(s, turns[..n]), turns[n])
  }

  predicate Succeeded(s: Session, turns: seq<Turn>)
    requires s.Valid()
  {
    Unix(After(s, turns).toUnix, s.buf).ok
  }

  // ----- more input only leads to more output

  lemma PiSendsMore(input: Stream, more: Stream, layout: Layout, mem: Memory)
    ensures PiAnswer(input, layout, mem).sent <= PiAnswer(input + more, layout, mem).sent
  {
    hide GetWord, PiReceive, Bytes, Print, Failure, Refused;
    var op := GetWord(input);
    if op.Got? && op.op == PUT_PROG_INFO {
      GetWordMore(input, more);
      var addr := GetWord(op.rest);
      if addr.Got? {
        GetWordMore(op.rest, more);
        var nbytes := GetWord(addr.rest);
        if nbytes.Got? {
          GetWordMore(addr.rest, more);
          var crc := GetWord(nbytes.rest);
          if crc.Got? {
            GetWordMore(nbytes.rest, more);
            PiReceivesMore(crc.rest, more, addr.op, nbytes.op, crc.op, mem);
          }
        }
      }
    } else if op.Got? {
      GetWordMore(input, more);
    }
  }

  lemma PiReceivesMore(input: Stream, more: Stream, addr: uint32, nbytes: uint32, crc: uint32, mem: Memory)
    ensures PiReceive(input, addr, nbytes, crc, mem).sent <= PiReceive(input + more, addr, nbytes, crc, mem).sent
  {
    hide GetWord, Bytes, Print, Failure, Stored, ReadBack, Checksum;
    var op := GetWord(input);
    if op.Got? {
      GetWordMore(input, more);
      if |op.rest| >= nbytes {
        assert (op.rest + more)[..nbytes] == op.rest[..nbytes];
      }
    }
  }

  lemma UnixSendsMore(input: Stream, more: Stream, buf: seq<uint8>)
    requires |buf| < TWO_32
    ensures Unix(input, buf).sent <= Unix(input + more, buf).sent
  {
    hide Sync, UnixAfterSync;
    if Sync(input).Got? {
      SyncMore(input, more);
      AfterSyncSendsMore(Sync(input).rest, more, buf);
    }
  }

  lemma AfterSyncSendsMore(input: Stream, more: Stream, buf: seq<uint8>)
    requires |buf| < TWO_32
    ensures Offer(buf) <= UnixAfterSync(input, buf).sent <= UnixAfterSync(input + more, buf).sent
  {
    hide GetWord, GetOp, Drain, Checksum, Offer, Code;
    var request := Drain(input);
    if request.Got? {
      DrainMore(input, more);
      if GetWord(request.rest).Got? {
        GetWordMore(request.rest, more);
      }
    }
  }

  // ----- every run

  /** Links deliver a prefix of what has been sent, and the Pi gets nothing before the Unix side has synchronised. */
  ghost predicate InOrder(s: Session, d: Links)
    requires s.Valid()
  {
    && d.toUnix <= s.PiSends(d.toPi) && d.toPi <= s.UnixSends(d.toUnix)
    && (d.toPi != [] ==> Sync(s.Requests()).Got?)
  }

  lemma SilentAtFirst(s: Session)
    requires s.Valid()
    ensures s.PiSends([]) == s.Requests()
  {}

  lemma SynchronisedFirst(s: Session, d: Links)
    requires s.Valid() && InOrder(s, d) && Sync(d.toUnix).Got?
    ensures Sync(s.Requests()).Got?
  {
    hide Sync, Session.PiSends, Session.UnixSends, Session.Requests;
    if d.toPi == [] {
      SilentAtFirst(s);
      var rest := s.Requests()[|d.toUnix|..];
      SyncMore(d.toUnix, rest);
      assert d.toUnix + rest == s.Requests();
    }
  }

  lemma NothingBeforeSync(input: Stream, buf: seq<uint8>)
    requires |buf| < TWO_32 && (Unix(input, buf).sent != [] || Unix(input, buf).ok)
    ensures Sync(input).Got?
  {}

  lemma DeliverKeepsOrder(s: Session, d: Links, turn: Turn)
    requires s.Valid() && InOrder(s, d)
    ensures InOrder(s, Deliver(s, d, turn))
  {
    hide Sync, Unix, PiAnswer;
    var e := Deliver(s, d, turn);
    match turn
    case ToUnix =>
      if e != d {
        UnixSendsMore(d.toUnix, e.toUnix[|d.toUnix|..], s.buf);
        assert e.toUnix == d.toUnix + e.toUnix[|d.toUnix|..];
      }
    case ToPi =>
      if e != d {
        PiSendsMore(d.toPi, e.toPi[|d.toPi|..], s.layout, s.mem);
        assert e.toPi == d.toPi + e.toPi[|d.toPi|..];
        NothingBeforeSync(d.toUnix, s.buf);
        SynchronisedFirst(s, d);
      }
  }

  lemma {:induction false} RunsInOrder(s: Session, turns: seq<Turn>)
    requires s.Valid()
    ensures InOrder(s, After(s, turns))
    decreases |turns|
  {
    hide Sync, Deliver, Session.PiSends, Session.UnixSends;
    if turns != [] {
      RunsInOrder(s, turns[..|turns| - 1]);
      DeliverKeepsOrder(s, After(s, turns[..|turns| - 1]), turns[|turns| - 1]);
    }
  }

  /**
   Boot safety in every run, with any number of requests, on a line that starts with any
   garbage that does not read as an opcode: if the Unix side has passed its last check,
   the Pi has booted buf.
   */
  lemma BootSafetyAfterGarbage(s: Session, turns: seq<Turn>)
    requires s.Valid() && Quiet(s.Requests(), |s.garbage|, 0) && Succeeded(s, turns)
    ensures var run := Pi(s.asked, After(s, turns).toPi, s.layout, s.mem);
            run.end == Booted(ARMBASE) && ReadBack(run.mem, ARMBASE, |s.buf|) == s.buf
  {
    hide Sync, Unix, Pi, Quiet, Repeat, After, ReadBack;
    var d := After(s, turns);
    RunsInOrder(s, turns);
    NothingBeforeSync(d.toUnix, s.buf);
    SynchronisedFirst(s, d);
    SafeOnceSynchronised(s.garbage, s.asked, d.toUnix, d.toPi, s.buf, s.layout, s.mem);
  }

  // ----- when everything has been delivered

  /** Nothing is left to deliver. */
  predicate Still(s: Session, d: Links)
    requires s.Valid()
  {
    |d.toUnix| == |s.PiSends(d.toPi)| && |d.toPi| == |s.UnixSends(d.toUnix)|
  }

  /** The Unix side can synchronise, the requests left pair up, and the Pi does not refuse the program. */
  predicate Boots(s: Session)
    requires s.Valid()
  {
    && Stop(|s.garbage|) + 4 <= |s.garbage| + 4 * s.asked
    && Left(|s.garbage|, s.asked) % 2 == 0
    && !Refused(s.layout, ARMBASE, |s.buf|)
  }

  /** Without garbage: an odd number of requests, and a program that is not refused. */
  lemma BootsCleanly(s: Session)
    requires s.Valid() && s.garbage == []
    ensures Boots(s) <==> s.asked % 2 == 1 && !Refused(s.layout, ARMBASE, |s.buf|)
  {
    hide Refused, Stop;
    StopClean();
    assert Left(0, s.asked) == s.asked - 1;
  }

  lemma StopClean()
    ensures Stop(0) == 0
  {}

  lemma PiEchoes(layout: Layout, mem: Memory, buf: seq<uint8>)
    requires |buf| < TWO_32 && !Refused(layout, ARMBASE, |buf|)
    ensures PiAnswer(Offer(buf), layout, mem).sent == Bytes(GET_CODE) + Bytes(Checksum(buf))
  {
    hide Bytes, Checksum, Refused, Print, Failure;
    var s3 := Bytes(Checksum(buf)) + [];
    var s2 := Bytes(|buf|) + s3;
    var s1 := Bytes(ARMBASE) + s2;
    assert Offer(buf) == Bytes(PUT_PROG_INFO) + s1;
    GetWordOf(PUT_PROG_INFO, s1);
    GetWordOf(ARMBASE, s2);
    GetWordOf(|buf|, s3);
    GetWordOf(Checksum(buf), []);
  }

  /** The echo makes the Unix side send the code, when the requests before it pair up. */
  lemma EchoAnswered(n: nat, buf: seq<uint8>)
    requires |buf| < TWO_32 && n % 2 == 0
    ensures var echo := Bytes(GET_CODE) + Bytes(Checksum(buf));
            UnixAfterSync(Repeat(GET_PROG_INFO, n) + echo, buf).sent == Offer(buf) + Code(buf)
  {
    hide Bytes, Checksum, Repeat, Offer, Code, Drain, UnixAfterSync;
    var echo := Bytes(GET_CODE) + Bytes(Checksum(buf));
    assert n == 2 * (n / 2);
    DrainPairs(n / 2, echo);
    SameDrain(Repeat(GET_PROG_INFO, n) + echo, echo, buf);
    EchoRead(buf);
  }

  lemma EchoRead(buf: seq<uint8>)
    requires |buf| < TWO_32
    ensures UnixAfterSync(Bytes(GET_CODE) + Bytes(Checksum(buf)), buf).sent == Offer(buf) + Code(buf)
  {
    hide Bytes, Checksum, Offer, Code, Drain, GetWord, GetOp;
    var c := Checksum(buf);
    DrainOther(GET_CODE, Bytes(c));
    assert Bytes(c) == Bytes(c) + [];
    GetWordOf(c, []);
  }

  lemma SentAfterSync(input: Stream, buf: seq<uint8>)
    requires |buf| < TWO_32
    ensures UnixAfterSync(input, buf).sent == Offer(buf) || UnixAfterSync(input, buf).sent == Offer(buf) + Code(buf)
    ensures UnixAfterSync(input, buf).ok ==> UnixAfterSync(input, buf).sent == Offer(buf) + Code(buf)
    ensures Offer(buf) <= Offer(buf) + Code(buf) && |Code(buf)| > 0
  {}

  /** The Unix side with everything delivered that the Pi sends on what the Unix side sends. */
  lemma StillAfterSync(n: nat, toPi: Stream, buf: seq<uint8>, layout: Layout, mem: Memory)
    requires |buf| < TWO_32
    requires toPi == UnixAfterSync(Repeat(GET_PROG_INFO, n) + PiAnswer(toPi, layout, mem).sent, buf).sent
    ensures UnixAfterSync(Repeat(GET_PROG_INFO, n) + PiAnswer(toPi, layout, mem).sent, buf).ok
            <==> n % 2 == 0 && !Refused(layout, ARMBASE, |buf|)
  {
    hide UnixAfterSync, PiAnswer, Repeat, Offer, Code, Refused, Answer;
    var run := PiAnswer(toPi, layout, mem);
    SentAfterSync(Repeat(GET_PROG_INFO, n) + run.sent, buf);
    PiAnswers(toPi, layout, mem, buf);
    AfterRequests(n, run, buf, mem);
    if n % 2 == 0 && !Refused(layout, ARMBASE, |buf|) {
      if toPi == Offer(buf) {
        PiEchoes(layout, mem, buf);
        EchoAnswered(n, buf);
        assert |Offer(buf) + Code(buf)| > |Offer(buf)|;
      } else {
        PiBoots(layout, mem, buf);
      }
    }
  }

  /** A run that has delivered everything has succeeded if and only if the session is one that boots. */
  lemma StillExactly(s: Session, turns: seq<Turn>)
    requires s.Valid() && Quiet(s.Requests(), |s.garbage|, 0) && Still(s, After(s, turns))
    ensures Succeeded(s, turns) <==> Boots(s)
  {
    hide Sync, UnixAfterSync, PiAnswer, Quiet, Repeat, After, Stop, Refused;
    var d := After(s, turns);
    RunsInOrder(s, turns);
    var run := PiAnswer(d.toPi, s.layout, s.mem);
    var start := s.Requests();
    assert d.toUnix == s.PiSends(d.toPi) == start + run.sent && d.toPi == s.UnixSends(d.toUnix);
    ResynchronisesExactly(s.garbage, s.asked);
    if Sync(start).Got? {
      var n := SyncLeaves(s.garbage, s.asked);
      SyncMore(start, run.sent);
      StillAfterSync(n, d.toPi, s.buf, s.layout, s.mem);
    } else if Succeeded(s, turns) {
      NothingBeforeSync(d.toUnix, s.buf);
      SynchronisedFirst(s, d);
    }
  }

  // ----- every run can be completed

  lemma PiSendsLittle(input: Stream, layout: Layout, mem: Memory)
    ensures |PiAnswer(input, layout, mem).sent| <= 100
  {
    hide GetWord, Refused, Stored, ReadBack, Checksum, Bytes;
  }

  lemma UnixSendsLittle(input: Stream, buf: seq<uint8>)
    requires |buf| < TWO_32
    ensures |Unix(input, buf).sent| <= 20 + |buf|
  {
    hide Sync, Drain, GetWord, GetOp, Checksum, Bytes;
  }

  /** Bytes that may still be delivered. */
  ghost function Room(s: Session, d: Links): int
    requires s.Valid()
  {
    |s.garbage| + 4 * s.asked + 120 + |s.buf| - |d.toUnix| - |d.toPi|
  }

  lemma RoomLeft(s: Session, d: Links)
    requires s.Valid() && InOrder(s, d)
    ensures Room(s, d) >= 0
  {
    hide PiAnswer, Unix, Sync;
    PiSendsLittle(d.toPi, s.layout, s.mem);
    UnixSendsLittle(d.toUnix, s.buf);
  }

  lemma {:induction false} Settles(s: Session, turns: seq<Turn>) returns (all: seq<Turn>)
    requires s.Valid()
    ensures turns <= all && Still(s, After(s, all)) && After(s, turns).toUnix <= After(s, all).toUnix
    decreases Room(s, After(s, turns))
  {
    hide Session.PiSends, Session.UnixSends, InOrder;
    var d := After(s, turns);
    RunsInOrder(s, turns);
    if Still(s, d) {
      all := turns;
    } else {
      InOrderLengths(s, d);
      var turn := if |d.toUnix| < |s.PiSends(d.toPi)| then ToUnix else ToPi;
      var longer := turns + [turn];
      assert longer[..|longer| - 1] == turns;
      RunsInOrder(s, longer);
      RoomLeft(s, After(s, longer));
      all := Settles(s, longer);
    }
  }

  lemma InOrderLengths(s: Session, d: Links)
    requires s.Valid() && InOrder(s, d)
    ensures |d.toUnix| <= |s.PiSends(d.toPi)| && |d.toPi| <= |s.UnixSends(d.toUnix)|
  {}

  /** The run can go on to a success. */
  ghost predicate Completable(s: Session, turns: seq<Turn>)
    requires s.Valid()
  {
    exists all :: turns <= all && Succeeded(s, all)
  }

  /**
   A boot can succeed in some run if and only if the session is one that boots, and
   then every run can go on to a success.
   */
  lemma BootPossible(s: Session)
    requires s.Valid() && Quiet(s.Requests(), |s.garbage|, 0)
    ensures (exists turns :: Succeeded(s, turns)) <==> Boots(s)
    ensures Boots(s) ==> forall turns :: Completable(s, turns)
  {
    hide Quiet, Boots, Succeeded, Completable;
    forall turns
      ensures Boots(s) ==> Completable(s, turns)
      ensures Succeeded(s, turns) ==> Boots(s)
    {
      Completes(s, turns);
    }
    if Boots(s) {
      SomeSuccess(s, []);
    }
  }

  lemma SomeSuccess(s: Session, turns: seq<Turn>)
    requires s.Valid() && Completable(s, turns)
    ensures exists all :: Succeeded(s, all)
  {
    hide Succeeded;
  }

  lemma Completes(s: Session, turns: seq<Turn>)
    requires s.Valid() && Quiet(s.Requests(), |s.garbage|, 0)
    ensures Boots(s) ==> Completable(s, turns)
    ensures Succeeded(s, turns) ==> Boots(s)
  {
    hide Unix, After, Quiet, Still, Boots;
    var all := Settles(s, turns);
    StillExactly(s, all);
    var d, e := After(s, turns), After(s, all);
    if Succeeded(s, turns) {
      UnixMore(d.toUnix, e.toUnix[|d.toUnix|..], s.buf);
      assert d.toUnix + e.toUnix[|d.toUnix|..] == e.toUnix;
    }
  }
}
