/**
 The receiving side: one descriptor per sender, each rebuilding the message whose
 packets are arriving, with a queue of the finished ones.
 */
module Reassembly {
  import opened Words
  import opened Packets

  const MAXFILES: nat := 16
  const NONE: uint8 := 0xf

  /** A message under construction or finished; before its command packet it has no buffer. */
  datatype Msg = Msg(hasCmd: bool, totPckts: nat, curPckts: nat, data: seq<uint8>)

  const EMPTY: Msg := Msg(false, 0, 0, [])

  /** The message queue is listed front first. */
  datatype Desc = Desc(cur: Msg, queue: seq<Msg>, status: uint8) {
    predicate Idle() {
      cur == EMPTY
    }
  }

  /** What handling a packet led to. */
  datatype Outcome = StatusSet | Restarted | Started | NoCommand | Stored | Completed | OutOfBounds

  /** memcpy into the message buffer. */
  function Copied(buf: seq<uint8>, at: nat, d: seq<uint8>): (b: seq<uint8>)
    requires at + |d| <= |buf|
    ensures |b| == |buf|
  {
    buf[..at] + d + buf[at + |d|..]
  }

  /** The copy stays inside the packet it reads and the buffer it writes. */
  predicate CopyFits(m: Msg, p: Packet) {
    NumBytes(p) <= DATA_NBYTES && 30 * m.curPckts + NumBytes(p) <= |m.data|
  }

  /** The message with the packet's payload behind that of the packets before. */
  function Extended(m: Msg, p: Packet): Msg
    requires CopyFits(m, p)
  {
    m.(data := Copied(m.data, 30 * m.curPckts, Data(p)), curPckts := m.curPckts + 1)
  }

  /**
   recieveMsgHandler for a packet that is not addressed to the system descriptor. A
   copy that runs outside its buffers is undefined in the source; it is reported and
   changes nothing here.
   */
  function Handle(d: Desc, p: Packet): (r: (Desc, Outcome)) {
    if IsCmd(p) then
      if Cmnd(p) == ESP_ACK || Cmnd(p) == ESP_NOACK then (d.(status := Cmnd(p)), StatusSet)
      else if d.cur.hasCmd then (d.(cur := EMPTY), Restarted)
      else
        var n := NumPackets(PayloadSize(p));
        (d.(cur := Msg(true, n, 0, Zeros(30 * n))), Started)
    else if !d.cur.hasCmd then (d.(cur := EMPTY), NoCommand)
    else if !CopyFits(d.cur, p) then (d, OutOfBounds)
    else
      var m := Extended(d.cur, p);
      if m.curPckts == m.totPckts then (Desc(EMPTY, [m] + d.queue, d.status), Completed)
      else (d.(cur := m), Stored)
  }

  type Table = t: seq<Desc> | |t| == 17 witness seq(17, i => Desc(EMPTY, [], NONE))

  predicate ToSystem(p: Packet) {
    From(p) == SELF && To(p) == SELF
  }

  /** recieveMsgHandler: packets from and to 0xf only set the status of the descriptor behind the others. */
  function Receive(t: Table, p: Packet): (r: (Table, Outcome)) {
    if ToSystem(p) then (t[MAXFILES := t[MAXFILES].(status := Cmnd(p))], StatusSet)
    else
      var (d, o) := Handle(t[From(p)], p);
      (t[From(p) := d], o)
  }

  function ReceiveAll(t: Table, ps: seq<Packet>): Table
    decreases |ps|
  {
    if ps == [] then t else ReceiveAll(Receive(t, ps[0]).0, ps[1..])
  }

  function HandleAll(d: Desc, ps: seq<Packet>): Desc
    decreases |ps|
  {
    if ps == [] then d else HandleAll(Handle(d, ps[0]).0, ps[1..])
  }

  lemma {:induction false} HandleAllConcat(d: Desc, ps: seq<Packet>, qs: seq<Packet>)
    ensures HandleAll(d, ps + qs) == HandleAll(HandleAll(d, ps), qs)
    decreases |ps|
  {
    if ps == [] {
      assert ps + qs == qs;
    } else {
      assert (ps + qs)[1..] == ps[1..] + qs;
      HandleAllConcat(Handle(d, ps[0]).0, ps[1..], qs);
    }
  }

  // ----- status

  /** The packets that set the status of descriptor f. */
  predicate SetsStatus(p: Packet, f: nat) {
    if ToSystem(p) then f == MAXFILES
    else f == From(p) && IsCmd(p) && (Cmnd(p) == ESP_ACK || Cmnd(p) == ESP_NOACK)
  }

  /** The status is the command of the last packet that set it, number k counted from one, or what it was before. */
  lemma {:induction false} StatusIsLast(t: Table, ps: seq<Packet>, f: nat, k: nat)
    requires f <= MAXFILES && k <= |ps|
    requires k > 0 ==> SetsStatus(ps[k - 1], f)
    requires forall i :: k <= i < |ps| ==> !SetsStatus(ps[i], f)
    ensures ReceiveAll(t, ps)[f].status == if k == 0 then t[f].status else Cmnd(ps[k - 1])
    decreases |ps|
  {
    hide NumPackets;
    if ps != [] {
      StatusIsLast(Receive(t, ps[0]).0, ps[1..], f, if k == 0 then 0 else k - 1);
    }
  }

  predicate Acknowledgement(p: Packet) {
    IsCmd(p) && (Cmnd(p) == ESP_ACK || Cmnd(p) == ESP_NOACK)
  }

  function WithoutAcks(ps: seq<Packet>): seq<Packet> {
    if ps == [] then []
    else if Acknowledgement(ps[0]) then WithoutAcks(ps[1..])
    else [ps[0]] + WithoutAcks(ps[1..])
  }

  /** The status has no part in what other packets do. */
  lemma HandleStatus(d: Desc, s: uint8, p: Packet)
    requires !Acknowledgement(p)
    ensures Handle(d.(status := s), p) == (Handle(d, p).0.(status := s), Handle(d, p).1)
    ensures Handle(d, p).0.status == d.status
  {}

  /** Acknowledgements, anywhere between other packets, do not disturb the messages. */
  lemma {:induction false} AcksAside(d: Desc, s: uint8, ps: seq<Packet>)
    ensures HandleAll(d.(status := s), WithoutAcks(ps)) == HandleAll(d, ps).(status := s)
    decreases |ps|
  {
    hide NumPackets;
    if ps != [] {
      var p, rest := ps[0], ps[1..];
      AcksAside(Handle(d, p).0, s, rest);
      if !Acknowledgement(p) {
        HandleStatus(d, s, p);
        hide Handle;
        assert ([p] + WithoutAcks(rest))[1..] == WithoutAcks(rest);
      }
    }
  }

  // ----- one sender

  /** The message that a send of `bytes` becomes: the payload, zero-filled to whole packets. */
  function Message(bytes: seq<uint8>): (m: Msg)
    ensures |bytes| <= |m.data| && m.data[..|bytes|] == bytes
  {
    var n := NumPackets(|bytes|);
    Msg(true, n, n, bytes + Zeros(30 * n - |bytes|))
  }

  /** A send that makes the receiver collect a message. */
  predicate CarriesMessage(cmd: uint8, bytes: seq<uint8>) {
    cmd != ESP_ACK && cmd != ESP_NOACK && bytes != [] && |bytes| < TWO_32
  }

  /** A message of n packets, the payload `done` already in place. */
  function Partial(n: nat, k: nat, done: seq<uint8>): Msg
    requires |done| <= 30 * n
  {
    Msg(true, n, k, done + Zeros(30 * n - |done|))
  }

  /** One data packet extends what is already in place, and the last one completes the message. */
  lemma DataExtends(d: Desc, p: Packet, n: nat, k: nat, done: seq<uint8>)
    requires !IsCmd(p) && NumBytes(p) <= DATA_NBYTES && k < n && |done| == 30 * k
    requires d.cur == Partial(n, k, done)
    ensures Handle(d, p).0 == if k + 1 == n then Desc(EMPTY, [Partial(n, n, done + Data(p))] + d.queue, d.status)
                              else d.(cur := Partial(n, k + 1, done + Data(p)))
  {
    var c := NumBytes(p);
    assert Copied(d.cur.data, 30 * k, Data(p)) == done + Data(p) + Zeros(30 * n - |done| - c);
  }

  /** Data packets, after their command packet, fill the buffer front to back and complete the message. */
  lemma {:induction false} DataFills(d: Desc, to: uint8, from: uint8, bytes: seq<uint8>,
                                     n: nat, k: nat, done: seq<uint8>)
    requires bytes != [] && |done| == 30 * k && n == k + NumPackets(|bytes|) && |done + bytes| <= 30 * n
    requires d.cur == Partial(n, k, done)
    ensures HandleAll(d, DataPackets(to, from, bytes)) == Desc(EMPTY, [Partial(n, n, done + bytes)] + d.queue, d.status)
    decreases |bytes|
  {
    hide DataPacket, NumPackets, Handle, Partial;
    var c := SendSize(|bytes|);
    var p := DataPacket(to, from, bytes[..c]);
    DataPacketFields(to, from, bytes[..c]);
    var ps := DataPackets(to, from, bytes);
    assert ps[0] == p && ps[1..] == DataPackets(to, from, bytes[c..]);
    NumPacketsEnough(|bytes|);
    DataExtends(d, p, n, k, done);
    if c == |bytes| {
      NumPacketsEnough(0);
      assert bytes[..c] == bytes;
    } else {
      NumPacketsEnough(|bytes| - c);
      SendSizeFull(|bytes|);
      assert done + bytes[..c] + bytes[c..] == done + bytes;
      DataFills(Handle(d, p).0, to, from, bytes[c..], n, k + 1, done + bytes[..c]);
    }
  }

  lemma NumPacketsEnough(size: nat)
    ensures size <= 30 * NumPackets(size) < size + 30
    ensures NumPackets(size) == 0 <==> size == 0
  {}

  lemma SendSizeFull(size: nat)
    requires size > 0 && SendSize(size) < size
    ensures SendSize(size) == 30
  {}

  /** An idle descriptor turns one whole send into one message, and is idle again. */
  lemma SendCompletes(d: Desc, cmd: uint8, to: uint8, from: uint8, bytes: seq<uint8>, cksum: uint32)
    requires d.Idle() && CarriesMessage(cmd, bytes)
    ensures HandleAll(d, Sent(cmd, to, from, bytes, cksum)) == Desc(EMPTY, [Message(bytes)] + d.queue, d.status)
  {
    hide CmdPacket, DataPackets, NumPackets;
    var n := NumPackets(|bytes|);
    var c := CmdPacket(cmd, to, from, |bytes|, cksum);
    CmdPacketFields(cmd, to, from, |bytes|, cksum);
    NumPacketsEnough(|bytes|);
    var ps := Sent(cmd, to, from, bytes, cksum);
    assert ps[0] == c && ps[1..] == DataPackets(to, from, bytes);
    assert [] + Zeros(30 * n) == Zeros(30 * n);
    DataFills(Handle(d, c).0, to, from, bytes, n, 0, []);
    assert [] + bytes == bytes;
  }

  // ----- many senders

  datatype Send = Send(cmd: uint8, to: uint8, bytes: seq<uint8>, cksum: uint32) {
    predicate Valid() {
      CarriesMessage(cmd, bytes)
    }
  }

  function WireOf(from: uint8, s: Send): (ps: seq<Packet>)
    requires s.Valid()
    ensures |ps| == 1 + NumPackets(|s.bytes|)
  {
    Sent(s.cmd, s.to, from, s.bytes, s.cksum)
  }

  /** All the packets of one sender, send after send. */
  function StreamOf(from: uint8, sends: seq<Send>): seq<Packet>
    requires forall s :: s in sends ==> s.Valid()
  {
    if sends == [] then [] else WireOf(from, sends[0]) + StreamOf(from, sends[1..])
  }

  /** The messages of a list of sends, newest first, as the queue holds them. */
  function Newest(sends: seq<Send>): seq<Msg> {
    if sends == [] then [] else Newest(sends[1..]) + [Message(sends[0].bytes)]
  }

  /** One message per send, in the order of the sends, each beginning with the payload sent. */
  lemma {:induction false} NewestAre(sends: seq<Send>)
    ensures |Newest(sends)| == |sends|
    ensures forall i :: 0 <= i < |sends| ==> Newest(sends)[|sends| - 1 - i] == Message(sends[i].bytes)
  {
    hide Message;
    if sends != [] {
      NewestAre(sends[1..]);
      var rest := Newest(sends[1..]);
      forall i | 0 <= i < |sends|
        ensures Newest(sends)[|sends| - 1 - i] == Message(sends[i].bytes)
      {
        if i > 0 {
          assert rest[|sends| - 1 - i] == Message(sends[1..][i - 1].bytes);
        }
      }
    }
  }

  lemma NothingHandled(d: Desc)
    ensures HandleAll(d, []) == d
  {}

  lemma {:induction false} SendsComplete(d: Desc, from: uint8, sends: seq<Send>)
    requires d.Idle() && forall s :: s in sends ==> s.Valid()
    ensures HandleAll(d, StreamOf(from, sends)) == Desc(EMPTY, Newest(sends) + d.queue, d.status)
    decreases sends
  {
    hide Handle, Message, Sent, HandleAll, NumPackets;
    if sends != [] {
      var s := sends[0];
      HandleAllConcat(d, WireOf(from, s), StreamOf(from, sends[1..]));
      SendCompletes(d, s.cmd, s.to, from, s.bytes, s.cksum);
      hide CarriesMessage;
      SendsComplete(Desc(EMPTY, [Message(s.bytes)] + d.queue, d.status), from, sends[1..]);
      assert Newest(sends[1..]) + ([Message(s.bytes)] + d.queue) == Newest(sends) + d.queue;
    } else {
      NothingHandled(d);
      assert Newest(sends) + d.queue == d.queue;
    }
  }

  /** The packets that reach descriptor f. */
  function OfSender(ps: seq<Packet>, f: nat): seq<Packet> {
    if ps == [] then []
    else if !ToSystem(ps[0]) && From(ps[0]) == f then [ps[0]] + OfSender(ps[1..], f)
    else OfSender(ps[1..], f)
  }

  /** Descriptors do not disturb each other: each sees only its own sender's packets, in order. */
  lemma {:induction false} DescriptorsApart(t: Table, ps: seq<Packet>, f: nat)
    requires f < MAXFILES
    ensures ReceiveAll(t, ps)[f] == HandleAll(t[f], OfSender(ps, f))
    decreases |ps|
  {
    hide Handle;
    if ps != [] {
      DescriptorsApart(Receive(t, ps[0]).0, ps[1..], f);
      if !ToSystem(ps[0]) && From(ps[0]) == f {
        assert OfSender(ps, f)[1..] == OfSender(ps[1..], f);
      }
    }
  }

  /**
   However the packets of sixteen senders are interleaved, each descriptor ends idle
   with exactly its own sender's messages, one per send, whole.
   */
  lemma InterleavedSendsComplete(t: Table, ps: seq<Packet>, sends: seq<seq<Send>>)
    requires |sends| == MAXFILES
    requires forall f :: 0 <= f < MAXFILES ==> t[f].Idle() && (forall s :: s in sends[f] ==> s.Valid())
    requires forall f :: 0 <= f < MAXFILES ==> OfSender(ps, f) == StreamOf(f, sends[f])
    ensures forall f :: 0 <= f < MAXFILES ==>
      ReceiveAll(t, ps)[f] == Desc(EMPTY, Newest(sends[f]) + t[f].queue, t[f].status)
  {
    forall f | 0 <= f < MAXFILES
      ensures ReceiveAll(t, ps)[f] == Desc(EMPTY, Newest(sends[f]) + t[f].queue, t[f].status)
    {
      DescriptorsApart(t, ps, f);
      SendsComplete(t[f], f, sends[f]);
    }
  }

  // ----- retrieval

  datatype Event = Arrival(p: Packet) | Take(f: nat)

  /** get_msg on the table's own descriptor panics when there is nothing to take. */
  predicate Possible(t: Table, e: Event) {
    e.Take? ==> e.f < MAXFILES && t[e.f].queue != []
  }

  function After(t: Table, e: Event): Table
    requires Possible(t, e)
  {
    match e
    case Arrival(p) => Receive(t, p).0
    case Take(f) => t[f := t[f].(queue := t[f].queue[1..])]
  }

  ghost predicate PossibleRun(t: Table, es: seq<Event>)
    decreases |es|
  {
    es != [] ==> Possible(t, es[0]) && PossibleRun(After(t, es[0]), es[1..])
  }

  ghost function AfterAll(t: Table, es: seq<Event>): Table
    requires PossibleRun(t, es)
    decreases |es|
  {
    if es == [] then t else AfterAll(After(t, es[0]), es[1..])
  }

  /** The message an event completes at descriptor f, if any: the one in the making, with the packet's payload. */
  function Completes(t: Table, e: Event, f: nat): multiset<Msg>
    requires f < MAXFILES
  {
    if Own(e, f) && Handle(t[f], e.p).1 == Completed
    then multiset{Extended(t[f].cur, e.p)} else multiset{}
  }

  /** The message an event takes from descriptor f, if any. */
  function Takes(t: Table, e: Event, f: nat): multiset<Msg>
    requires Possible(t, e) && f < MAXFILES
  {
    if e == Take(f) then multiset{t[f].queue[0]} else multiset{}
  }

  ghost function CompletedAt(t: Table, es: seq<Event>, f: nat): multiset<Msg>
    requires PossibleRun(t, es) && f < MAXFILES
    decreases |es|
  {
    if es == [] then multiset{} else Completes(t, es[0], f) + CompletedAt(After(t, es[0]), es[1..], f)
  }

  ghost function TakenFrom(t: Table, es: seq<Event>, f: nat): multiset<Msg>
    requires PossibleRun(t, es) && f < MAXFILES
    decreases |es|
  {
    if es == [] then multiset{} else Takes(t, es[0], f) + TakenFrom(After(t, es[0]), es[1..], f)
  }

  lemma EventConserves(t: Table, e: Event, f: nat)
    requires Possible(t, e) && f < MAXFILES
    ensures multiset(t[f].queue) + Completes(t, e, f) == multiset(After(t, e)[f].queue) + Takes(t, e, f)
  {
    hide Handle, Extended;
    match e
    case Take(g) =>
      if g == f {
        assert t[f].queue == [t[f].queue[0]] + After(t, e)[f].queue;
      }
    case Arrival(p) => HandleQueue(t[f], t[f].queue, p);
  }

  /** Every completed message is taken once or still queued, whatever arrives in between. */
  lemma {:induction false} MessagesConserved(t: Table, es: seq<Event>, f: nat)
    requires PossibleRun(t, es) && f < MAXFILES
    ensures multiset(t[f].queue) + CompletedAt(t, es, f) == multiset(AfterAll(t, es)[f].queue) + TakenFrom(t, es, f)
    decreases |es|
  {
    hide Completes, Takes, After;
    if es != [] {
      var t' := After(t, es[0]);
      EventConserves(t, es[0], f);
      MessagesConserved(t', es[1..], f);
      Balance(multiset(t[f].queue), multiset(t'[f].queue), multiset(AfterAll(t, es)[f].queue),
              Completes(t, es[0], f), CompletedAt(t', es[1..], f), Takes(t, es[0], f), TakenFrom(t', es[1..], f));
    }
  }

  lemma Balance(before: multiset<Msg>, mid: multiset<Msg>, end: multiset<Msg>,
                in1: multiset<Msg>, in2: multiset<Msg>, out1: multiset<Msg>, out2: multiset<Msg>)
    requires before + in1 == mid + out1 && mid + in2 == end + out2
    ensures before + (in1 + in2) == end + (out1 + out2)
  {
    assert before + (in1 + in2) == (before + in1) + in2;
    assert end + (out1 + out2) == (end + out2) + out1;
  }

  /** The queue has no part in what a packet does; it gains the message the packet completes. */
  lemma HandleQueue(d: Desc, q: seq<Msg>, p: Packet)
    ensures var (e, o) := Handle(d, p);
            var q' := if o == Completed then [Extended(d.cur, p)] + q else q;
            Handle(d.(queue := q), p) == (e.(queue := q'), o)
  {}

  function Arrivals(es: seq<Event>): seq<Packet> {
    if es == [] then []
    else if es[0].Arrival? then [es[0].p] + Arrivals(es[1..])
    else Arrivals(es[1..])
  }

  /**
   Retrieving messages meanwhile changes neither which messages a sender's packets
   complete nor what is in the making.
   */
  lemma {:induction false} CompletedAreHandled(t: Table, es: seq<Event>, f: nat, d: Desc)
    requires PossibleRun(t, es) && f < MAXFILES
    requires d == t[f].(queue := d.queue)
    ensures var e := HandleAll(d, OfSender(Arrivals(es), f));
            && multiset(e.queue) == multiset(d.queue) + CompletedAt(t, es, f)
            && AfterAll(t, es)[f] == e.(queue := AfterAll(t, es)[f].queue)
    decreases |es|
  {
    hide Handle, Extended, After, Possible;
    if es != [] {
      var rest := OfSender(Arrivals(es[1..]), f);
      var t' := After(t, es[0]);
      AfterAt(t, es[0], f);
      if Own(es[0], f) {
        var p := es[0].p;
        HandleQueue(t[f], d.queue, p);
        HandleQueue(t[f], t[f].queue, p);
        CompletedAreHandled(t', es[1..], f, Handle(d, p).0);
        assert Arrivals(es)[1..] == Arrivals(es[1..]);
        assert ([p] + rest)[1..] == rest;
      } else {
        CompletedAreHandled(t', es[1..], f, d);
        if es[0].Arrival? {
          assert Arrivals(es)[1..] == Arrivals(es[1..]);
        }
      }
    }
  }

  /** The arrival of a packet for descriptor f. */
  predicate Own(e: Event, f: nat) {
    e.Arrival? && !ToSystem(e.p) && From(e.p) == f
  }

  lemma AfterAt(t: Table, e: Event, f: nat)
    requires Possible(t, e) && f < MAXFILES
    ensures if Own(e, f) then After(t, e)[f] == Handle(t[f], e.p).0
            else After(t, e)[f] == t[f].(queue := After(t, e)[f].queue)
  {
    hide Handle;
  }

  /**
   However the packets of a sender are mixed with those of others and with retrievals,
   its sends complete one message each, and each of these is retrieved once or still queued.
   */
  lemma EachSendTakenOnce(t: Table, es: seq<Event>, f: nat, sends: seq<Send>)
    requires PossibleRun(t, es) && f < MAXFILES && t[f].Idle()
    requires (forall s :: s in sends ==> s.Valid()) && OfSender(Arrivals(es), f) == StreamOf(f, sends)
    ensures CompletedAt(t, es, f) == multiset(Newest(sends))
    ensures multiset(t[f].queue) + multiset(Newest(sends)) == multiset(AfterAll(t, es)[f].queue) + TakenFrom(t, es, f)
    ensures AfterAll(t, es)[f].Idle()
  {
    hide HandleAll, Newest, StreamOf, OfSender, CompletedAt, TakenFrom, AfterAll, PossibleRun, Arrivals;
    CompletedAreHandled(t, es, f, t[f]);
    SendsComplete(t[f], f, sends);
    MessagesConserved(t, es, f);
    var q := t[f].queue;
    assert multiset(q) + CompletedAt(t, es, f) == multiset(Newest(sends) + q) == multiset(q) + multiset(Newest(sends));
    Cancel(multiset(q), CompletedAt(t, es, f), multiset(Newest(sends)));
  }

  lemma Cancel(q: multiset<Msg>, x: multiset<Msg>, y: multiset<Msg>)
    requires q + x == q + y
    ensures x == y
  {
    assert x == (q + x) - q && y == (q + y) - q;
  }

  // ----- retrieval through copies of a descriptor

  /** get_msg on a copy of the descriptor: the table stays as it is. */
  function AfterCopied(t: Table, e: Event): Table {
    match e
    case Arrival(p) => Receive(t, p).0
    case Take(_) => t
  }

  ghost predicate PossibleCopied(t: Table, es: seq<Event>)
    decreases |es|
  {
    es != [] ==> Possible(t, es[0]) && PossibleCopied(AfterCopied(t, es[0]), es[1..])
  }

  /** The table after a run, and the messages handed out for descriptor f. */
  ghost function RunCopied(t: Table, es: seq<Event>, f: nat): (r: (Table, seq<Msg>))
    requires PossibleCopied(t, es)
    decreases |es|
  {
    if es == [] then (t, [])
    else
      var (last, out) := RunCopied(AfterCopied(t, es[0]), es[1..], f);
      (last, (if es[0] == Take(f) then [t[f].queue[0]] else []) + out)
  }

  /**
   Through copies nothing is ever retrieved: the table ends as if there had been only
   arrivals, and no message leaves a queue.
   */
  lemma {:induction false} CopiesNeverTake(t: Table, es: seq<Event>, f: nat)
    requires PossibleCopied(t, es) && f < MAXFILES
    ensures var last := RunCopied(t, es, f).0;
            && last == ReceiveAll(t, Arrivals(es))
            && EndsWith(last[f].queue, t[f].queue)
    decreases |es|
  {
    hide Handle, Extended, EndsWith, Receive;
    if es == [] {
      EndsWithMore(t[f].queue, [], t[f].queue);
      assert [] + t[f].queue == t[f].queue;
    } else {
      var t' := AfterCopied(t, es[0]);
      CopiesNeverTake(t', es[1..], f);
      if es[0].Arrival? {
        ArrivalKeeps(t, es[0].p, f);
        assert Arrivals(es)[1..] == Arrivals(es[1..]);
        EndsWithin(RunCopied(t, es, f).0[f].queue, t'[f].queue, t[f].queue);
      }
    }
  }

  predicate EndsWith(l: seq<Msg>, q: seq<Msg>) {
    |q| <= |l| && l[|l| - |q|..] == q
  }

  lemma EndsWithMore(l: seq<Msg>, front: seq<Msg>, q: seq<Msg>)
    requires l == front + q
    ensures EndsWith(l, q)
  {}

  lemma EndsWithin(l: seq<Msg>, q': seq<Msg>, q: seq<Msg>)
    requires EndsWith(l, q') && EndsWith(q', q)
    ensures EndsWith(l, q)
  {
    assert l[|l| - |q|..] == l[|l| - |q'|..][|q'| - |q|..];
  }

  lemma ArrivalKeeps(t: Table, p: Packet, f: nat)
    requires f < MAXFILES
    ensures EndsWith(Receive(t, p).0[f].queue, t[f].queue)
  {
    hide Handle, Extended, EndsWith;
    var q, q' := t[f].queue, Receive(t, p).0[f].queue;
    HandleQueue(t[f], q, p);
    assert [] + q == q;
    EndsWithMore(q', if q' == q then [] else q'[..1], q);
  }

  /** Until a packet from f arrives, every retrieval from f hands out the same message once more. */
  lemma {:induction false} CopiesRepeat(t: Table, es: seq<Event>, f: nat)
    requires PossibleCopied(t, es) && f < MAXFILES && OfSender(Arrivals(es), f) == []
    ensures forall m :: m in RunCopied(t, es, f).1 ==> t[f].queue != [] && m == t[f].queue[0]
    ensures |RunCopied(t, es, f).1| == multiset(es)[Take(f)]
    decreases |es|
  {
    hide Handle;
    if es != [] {
      var t' := AfterCopied(t, es[0]);
      assert es == [es[0]] + es[1..];
      if es[0].Arrival? {
        assert Arrivals(es)[1..] == Arrivals(es[1..]);
      }
      assert t'[f] == t[f] && OfSender(Arrivals(es[1..]), f) == [];
      hide Possible, Receive, OfSender;
      CopiesRepeat(t', es[1..], f);
    }
  }

  // ----- loss

  /** A descriptor is idle or in the middle of a message, and in the middle its buffer fits. */
  ghost predicate Sound(d: Desc) {
    d.Idle() || (d.cur.hasCmd && |d.cur.data| == 30 * d.cur.totPckts && d.cur.curPckts < d.cur.totPckts)
  }

  /**
   Of a sound descriptor, a copy leaves its buffers exactly for a data packet of a
   message that claims more than 30 bytes, and soundness is lost exactly to a command
   that starts an empty message.
   */
  lemma HandleSound(d: Desc, p: Packet)
    requires Sound(d)
    ensures Handle(d, p).1 == OutOfBounds <==> !IsCmd(p) && !d.Idle() && NumBytes(p) > DATA_NBYTES
    ensures !Sound(Handle(d, p).0) <==> StartsEmpty(d, p)
  {
    if IsCmd(p) {
      NumPacketsEnough(PayloadSize(p));
    }
  }

  /** A command that starts an empty message. */
  predicate StartsEmpty(d: Desc, p: Packet) {
    IsCmd(p) && d.Idle() && PayloadSize(p) == 0 && Cmnd(p) != ESP_ACK && Cmnd(p) != ESP_NOACK
  }

  ghost predicate StaysSound(d: Desc, ps: seq<Packet>)
    decreases |ps|
  {
    Sound(d) && (ps != [] ==> StaysSound(Handle(d, ps[0]).0, ps[1..]))
  }

  predicate StartsEmptyIn(d: Desc, ps: seq<Packet>)
    decreases |ps|
  {
    ps != [] && (StartsEmpty(d, ps[0]) || StartsEmptyIn(Handle(d, ps[0]).0, ps[1..]))
  }

  /** Whatever is lost, duplicated or mixed up, the descriptor stays sound unless an empty message is started. */
  lemma {:induction false} HandleAllSound(d: Desc, ps: seq<Packet>)
    requires Sound(d)
    ensures StaysSound(d, ps) <==> !StartsEmptyIn(d, ps)
    decreases |ps|
  {
    hide Handle, Sound, StartsEmpty;
    if ps != [] {
      HandleSound(d, ps[0]);
      var e := Handle(d, ps[0]).0;
      if Sound(e) {
        HandleAllSound(e, ps[1..]);
      } else {
        assert !StaysSound(e, ps[1..]);
      }
    }
  }

  /** Without a command packet, data packets change nothing. */
  lemma {:induction false} DataIgnored(d: Desc, ps: seq<Packet>)
    requires d.Idle() && forall p :: p in ps ==> !IsCmd(p)
    ensures HandleAll(d, ps) == d
    decreases |ps|
  {
    if ps != [] {
      DataIgnored(d, ps[1..]);
    }
  }

  /** Fewer data packets than announced leave the message unfinished. */
  lemma {:induction false} DataShort(d: Desc, ps: seq<Packet>)
    requires Sound(d) && d.cur.hasCmd && d.cur.curPckts + |ps| < d.cur.totPckts
    requires forall p :: p in ps ==> !IsCmd(p) && NumBytes(p) <= DATA_NBYTES
    ensures var e := HandleAll(d, ps);
            Sound(e) && e.cur.hasCmd && e.queue == d.queue && e.status == d.status
    decreases |ps|
  {
    if ps != [] {
      DataShort(Handle(d, ps[0]).0, ps[1..]);
    }
  }

  /** What one whole send does to any descriptor: a message if it was idle, otherwise a reset. */
  lemma WholeSend(d: Desc, from: uint8, s: Send)
    requires Sound(d) && s.Valid()
    ensures HandleAll(d, WireOf(from, s)) ==
            Desc(EMPTY, (if d.Idle() then [Message(s.bytes)] else []) + d.queue, d.status)
  {
    hide CmdPacket, DataPackets, Message;
    if d.Idle() {
      SendCompletes(d, s.cmd, s.to, from, s.bytes, s.cksum);
    } else {
      var ps := WireOf(from, s);
      CmdPacketFields(s.cmd, s.to, from, |s.bytes|, s.cksum);
      DataPacketsJoin(s.to, from, s.bytes);
      var e := d.(cur := EMPTY);
      assert Handle(d, ps[0]).0 == e;
      assert ps[1..] == DataPackets(s.to, from, s.bytes);
      DataIgnored(e, ps[1..]);
      assert [] + d.queue == d.queue;
    }
  }

  /**
   From every state, of two whole sends in a row the second is delivered; the first is
   unless it met an unfinished message.
   */
  lemma TwoSendsRecover(d: Desc, from: uint8, b: Send, c: Send)
    requires Sound(d) && b.Valid() && c.Valid()
    ensures HandleAll(d, WireOf(from, b) + WireOf(from, c)) ==
            Desc(EMPTY, [Message(c.bytes)] + (if d.Idle() then [Message(b.bytes)] else []) + d.queue, d.status)
  {
    hide Handle, Message, Sent;
    HandleAllConcat(d, WireOf(from, b), WireOf(from, c));
    WholeSend(d, from, b);
    WholeSend(HandleAll(d, WireOf(from, b)), from, c);
    var first := if d.Idle() then [Message(b.bytes)] else [];
    assert [Message(c.bytes)] + (first + d.queue) == [Message(c.bytes)] + first + d.queue;
  }

  /** The packets that get through, marked true. */
  function Arrived(ps: seq<Packet>, mask: seq<bool>): (qs: seq<Packet>)
    requires |ps| == |mask|
    ensures |qs| <= |ps|
  {
    if ps == [] then [] else (if mask[0] then [ps[0]] else []) + Arrived(ps[1..], mask[1..])
  }

  lemma {:induction false} ArrivedFrom(ps: seq<Packet>, mask: seq<bool>)
    requires |ps| == |mask|
    ensures forall p :: p in Arrived(ps, mask) ==> p in ps
    ensures false !in mask ==> Arrived(ps, mask) == ps
    ensures false in mask ==> |Arrived(ps, mask)| < |ps|
  {
    if ps != [] {
      ArrivedFrom(ps[1..], mask[1..]);
      assert mask == [mask[0]] + mask[1..];
      assert ps == [ps[0]] + ps[1..];
    }
  }

  /** What is left of a send of which some packets were dropped. */
  lemma PartialSend(d: Desc, from: uint8, a: Send, mask: seq<bool>)
    requires d.Idle() && a.Valid() && |mask| == |WireOf(from, a)|
    ensures var e := HandleAll(d, Arrived(WireOf(from, a), mask));
            && Sound(e) && e.status == d.status
            && (e.Idle() <==> !mask[0] || false !in mask)
            && e.queue == (if false in mask then [] else [Message(a.bytes)]) + d.queue
  {
    hide CmdPacket, DataPackets, Message, Handle;
    var ps := WireOf(from, a);
    CmdPacketFields(a.cmd, a.to, from, |a.bytes|, a.cksum);
    DataPacketsJoin(a.to, from, a.bytes);
    assert ps[1..] == DataPackets(a.to, from, a.bytes);
    ArrivedFrom(ps, mask);
    ArrivedFrom(ps[1..], mask[1..]);
    assert mask == [mask[0]] + mask[1..];
    assert [] + d.queue == d.queue;
    if false !in mask {
      SendCompletes(d, a.cmd, a.to, from, a.bytes, a.cksum);
    } else if !mask[0] {
      DataIgnored(d, Arrived(ps[1..], mask[1..]));
      assert [] + Arrived(ps[1..], mask[1..]) == Arrived(ps[1..], mask[1..]);
    } else {
      var rest := Arrived(ps[1..], mask[1..]);
      CommandStarts(d, ps[0]);
      DataShort(Handle(d, ps[0]).0, rest);
      assert Arrived(ps, mask)[0] == ps[0] && Arrived(ps, mask)[1..] == rest;
    }
  }

  lemma CommandStarts(d: Desc, p: Packet)
    requires d.Idle() && IsCmd(p) && Cmnd(p) != ESP_ACK && Cmnd(p) != ESP_NOACK && PayloadSize(p) > 0
    ensures var e := Handle(d, p).0;
            Sound(e) && e.cur.hasCmd && e.cur.totPckts == NumPackets(PayloadSize(p)) && e.cur.curPckts == 0
            && e.queue == d.queue && e.status == d.status
  {
    NumPacketsEnough(PayloadSize(p));
  }

  /**
   Some packets of A are dropped, B and C arrive whole: C is always delivered; B is
   lost exactly when A's command packet got through but A as a whole did not; A is
   delivered exactly when nothing of it was dropped.
   */
  lemma LossRecovery(d: Desc, from: uint8, a: Send, mask: seq<bool>, b: Send, c: Send)
    requires d.Idle() && a.Valid() && b.Valid() && c.Valid() && |mask| == |WireOf(from, a)|
    ensures HandleAll(d, Arrived(WireOf(from, a), mask) + (WireOf(from, b) + WireOf(from, c))) ==
            Desc(EMPTY,
                 [Message(c.bytes)]
                 + (if mask[0] && false in mask then [] else [Message(b.bytes)])
                 + ((if false in mask then [] else [Message(a.bytes)]) + d.queue),
                 d.status)
  {
    hide Handle, Message, Sent, Sound;
    HandleAllConcat(d, Arrived(WireOf(from, a), mask), WireOf(from, b) + WireOf(from, c));
    PartialSend(d, from, a, mask);
    TwoSendsRecover(HandleAll(d, Arrived(WireOf(from, a), mask)), from, b, c);
  }

  /**
   Without B's command packet there is no such guarantee: if the second packet of a
   two-packet message and then the command packet of a one-packet message are lost,
   a message is delivered that nobody sent.
   */
  lemma LossCanMix(d: Desc, from: uint8, to: uint8, cmd: uint8, a: seq<uint8>, b: seq<uint8>, cksum: uint32)
    requires d.Idle() && cmd != ESP_ACK && cmd != ESP_NOACK && 30 < |a| <= 60 && 0 < |b| <= 30
    ensures var sentA := Sent(cmd, to, from, a, cksum);
            HandleAll(d, sentA[..2] + DataPackets(to, from, b)) ==
            Desc(EMPTY, [Partial(2, 2, a[..30] + b)] + d.queue, d.status)
  {
    hide CmdPacket, DataPacket;
    var ps := DataPackets(to, from, a);
    var c := CmdPacket(cmd, to, from, |a|, cksum);
    CmdPacketFields(cmd, to, from, |a|, cksum);
    DataPacketFields(to, from, a[..30]);
    var p := DataPacket(to, from, a[..30]);
    assert ps[0] == p;
    assert [] + Zeros(60) == Zeros(60);
    var d1 := Handle(d, c).0;
    assert d1 == d.(cur := Partial(2, 0, []));
    hide Handle, Partial;
    DataExtends(d1, p, 2, 0, []);
    assert [] + a[..30] == a[..30];
    DataFills(Handle(d1, p).0, to, from, b, 2, 1, a[..30]);
    var all := Sent(cmd, to, from, a, cksum)[..2] + DataPackets(to, from, b);
    assert all[0] == c && all[1..][0] == p && all[1..][1..] == DataPackets(to, from, b);
  }

  // ----- allocation of the first messages

  const SIZEOF_MSG: nat := 20      // msg_t: two bytes, padding, two counters and two pointers
  const SIZEOF_POINTER: nat := 4

  /** Where an allocator that hands out consecutive multiples of `unit` puts request number i. */
  function Address(base: nat, unit: nat, size: nat, i: nat): nat
    requires unit > 0
  {
    base + i * (unit * ((size + unit - 1) / unit))
  }

  /**
   init_fileTable asks for the size of a pointer, not of a message. The first messages
   of neighbouring descriptors do not overlap exactly when the allocator happens to
   round that up to a whole message.
   */
  lemma FirstMessagesApart(base: nat, unit: nat)
    requires unit > 0
    ensures (forall i, j :: 0 <= i < j <= MAXFILES ==>
               Address(base, unit, SIZEOF_POINTER, i) + SIZEOF_MSG <= Address(base, unit, SIZEOF_POINTER, j))
            <==> unit >= SIZEOF_MSG
  {
    var step := unit * ((SIZEOF_POINTER + unit - 1) / unit);
    StepSize(unit);
    if unit >= SIZEOF_MSG {
      forall i, j | 0 <= i < j <= MAXFILES
        ensures base + i * step + SIZEOF_MSG <= base + j * step
      {
        MultipleAtLeast(j - i, step);
        assert j * step == i * step + (j - i) * step;
      }
    } else {
      assert Address(base, unit, SIZEOF_POINTER, 0) == base;
      assert Address(base, unit, SIZEOF_POINTER, 1) == base + step;
    }
  }

  lemma StepSize(unit: nat)
    requires unit > 0
    ensures var step := unit * ((SIZEOF_POINTER + unit - 1) / unit);
            if unit >= SIZEOF_POINTER then step == unit else step < SIZEOF_MSG
  {
    if unit >= SIZEOF_POINTER {
      ModUnique(SIZEOF_POINTER + unit - 1, unit, 1, SIZEOF_POINTER - 1);
    }
  }
}
