/**
 Lost packets, in general: what a descriptor makes of the remains of any number of
 sends, and when it mixes them up.
 */
module Losses {
  import opened Words
  import opened Packets
  import opened Reassembly

  /** A data packet's payload, zero-filled to the 30 bytes it is given in the message. */
  function Filled(p: Packet): (b: seq<uint8>)
    requires NumBytes(p) <= DATA_NBYTES
    ensures |b| == 30 && b[..NumBytes(p)] == Data(p)
  {
    Data(p) + Zeros(30 - NumBytes(p))
  }

  function Slots(ps: seq<Packet>): (b: seq<uint8>)
    requires forall p :: p in ps ==> NumBytes(p) <= DATA_NBYTES
    ensures |b| == 30 * |ps|
  {
    if ps == [] then [] else Filled(ps[0]) + Slots(ps[1..])
  }

  /** Packet number i of a message is in slot i. */
  lemma {:induction false} SlotAt(ps: seq<Packet>, i: nat)
    requires (forall p :: p in ps ==> NumBytes(p) <= DATA_NBYTES) && i < |ps|
    ensures Slots(ps)[30 * i..30 * i + 30] == Filled(ps[i])
  {
    hide Filled;
    if i > 0 {
      SlotAt(ps[1..], i - 1);
      assert Slots(ps)[30 * i..30 * i + 30] == Slots(ps[1..])[30 * (i - 1)..30 * (i - 1) + 30];
    }
  }

  predicate AllData(ps: seq<Packet>) {
    forall p :: p in ps ==> !IsCmd(p) && NumBytes(p) <= DATA_NBYTES
  }

  /** Data packet number k of n, wherever it comes from, fills slot k. */
  lemma SlotFilled(d: Desc, p: Packet, n: nat, k: nat, done: seq<uint8>)
    requires AllData([p]) && k < n && |done| == 30 * k && d.cur == Partial(n, k, done)
    ensures !IsCmd(p) && NumBytes(p) <= DATA_NBYTES && |done + Filled(p)| == 30 * (k + 1)
    ensures Handle(d, p).0 == if k + 1 == n then Desc(EMPTY, [Partial(n, n, done + Filled(p))] + d.queue, d.status)
                              else d.(cur := Partial(n, k + 1, done + Filled(p)))
  {
    assert p in [p];
    DataExtends(d, p, n, k, done);
    assert done + Data(p) + Zeros(30 * n - |done + Data(p)|) == done + Filled(p) + Zeros(30 * n - |done + Filled(p)|);
  }

  /** Putting a packet's slot behind what is done, seen from before and from after. */
  lemma SlotsShift(ps: seq<Packet>, m: nat, done: seq<uint8>)
    requires AllData(ps) && 0 < m <= |ps|
    ensures NumBytes(ps[0]) <= DATA_NBYTES && AllData(ps[1..]) && AllData([ps[0]])
    ensures done + Filled(ps[0]) + Slots(ps[1..][..m - 1]) == done + Slots(ps[..m])
  {
    hide Filled;
    assert ps[..m][0] == ps[0] && ps[..m][1..] == ps[1..][..m - 1];
  }

  /** Any n - k data packets complete a message that has k of n; what follows them is ignored. */
  lemma {:induction false} SlotsFill(d: Desc, ps: seq<Packet>, n: nat, k: nat, done: seq<uint8>)
    requires AllData(ps) && k < n && |done| == 30 * k && d.cur == Partial(n, k, done)
    ensures var m := if k + |ps| < n then |ps| else n - k;
            var after := Partial(n, k + m, done + Slots(ps[..m]));
            HandleAll(d, ps) == if k + m < n then d.(cur := after) else Desc(EMPTY, [after] + d.queue, d.status)
    decreases |ps|
  {
    hide Handle, Partial, Filled, Slots;
    if ps == [] {
      NoSlots();
      assert done + [] == done && ps[..0] == [];
    } else {
      var p, rest := ps[0], ps[1..];
      var m := if k + |ps| < n then |ps| else n - k;
      SlotsShift(ps, m, done);
      SlotFilled(d, p, n, k, done);
      if k + 1 == n {
        DataIgnored(Handle(d, p).0, rest);
        NoSlots();
        assert done + Filled(p) + [] == done + Filled(p) && rest[..0] == [];
      } else {
        SlotsFill(Handle(d, p).0, rest, n, k + 1, done + Filled(p));
      }
    }
  }

  lemma NoSlots()
    ensures Slots([]) == []
  {}

  /** The data packets of a send that get through. */
  function DataArrived(from: uint8, s: Send, mask: seq<bool>): (ps: seq<Packet>)
    requires s.Valid() && |mask| == |WireOf(from, s)|
    ensures AllData(ps)
  {
    DataPacketsJoin(s.to, from, s.bytes);
    ArrivedFrom(DataPackets(s.to, from, s.bytes), mask[1..]);
    Arrived(DataPackets(s.to, from, s.bytes), mask[1..])
  }

  lemma ArrivedParts(from: uint8, s: Send, mask: seq<bool>)
    requires s.Valid() && |mask| == |WireOf(from, s)|
    ensures Arrived(WireOf(from, s), mask) ==
            (if mask[0] then WireOf(from, s)[..1] else []) + DataArrived(from, s, mask)
    ensures mask[0] ==> (|DataArrived(from, s, mask)| < NumPackets(|s.bytes|) <==> false in mask)
  {
    hide CmdPacket, DataPackets, NumPackets;
    var ps := WireOf(from, s);
    assert ps[1..] == DataPackets(s.to, from, s.bytes);
    ArrivedFrom(ps[1..], mask[1..]);
    assert mask == [mask[0]] + mask[1..];
  }

  // ----- any number of sends

  /** A send and which of its packets get through. */
  datatype Lossy = Lossy(send: Send, mask: seq<bool>) {
    predicate Valid() {
      send.Valid() && |mask| == 1 + NumPackets(|send.bytes|)
    }
  }

  predicate AllValid(xs: seq<Lossy>) {
    forall i :: 0 <= i < |xs| ==> xs[i].Valid()
  }

  /** All of the sends have lost their command packets. */
  predicate Headless(xs: seq<Lossy>) {
    AllValid(xs) && forall i :: 0 <= i < |xs| ==> !xs[i].mask[0]
  }

  function Remains(from: uint8, xs: seq<Lossy>): seq<Packet>
    requires AllValid(xs)
  {
    if xs == [] then [] else Arrived(WireOf(from, xs[0].send), xs[0].mask) + Remains(from, xs[1..])
  }

  function DataOf(from: uint8, x: Lossy): (ps: seq<Packet>)
    requires x.Valid()
    ensures AllData(ps)
  {
    DataArrived(from, x.send, x.mask)
  }

  /** Nothing under way, or a message of n packets of which fewer have come. */
  datatype Progress = Waiting | Collecting(n: nat, got: seq<Packet>) {
    predicate Valid() {
      Collecting? ==> |got| < n && AllData(got)
    }

    function Cur(): Msg
      requires Valid()
    {
      if Waiting? then EMPTY else Partial(n, |got|, Slots(got))
    }
  }

  /**
   What is left of one send takes the progress further. A command packet starts a
   message, or ends one that is under way and spoils its own; without one, data packets
   go to whatever message is under way. The second result lists the message delivered.
   */
  function Through(from: uint8, pr: Progress, x: Lossy): (r: (Progress, seq<Msg>))
    requires pr.Valid() && x.Valid()
    ensures r.0.Valid()
  {
    var n, q := NumPackets(|x.send.bytes|), DataOf(from, x);
    if x.mask[0] then
      if pr.Collecting? then (Waiting, [])
      else if false in x.mask then ArrivedParts(from, x.send, x.mask); (Collecting(n, q), [])
      else (Waiting, [Message(x.send.bytes)])
    else if pr.Waiting? then (Waiting, [])
    else
      AllDataJoined(pr.got, q);
      if |pr.got| + |q| < pr.n then (Collecting(pr.n, pr.got + q), [])
      else (Waiting, [Mixed(pr.got, q, pr.n)])
  }

  function ThroughAll(from: uint8, pr: Progress, xs: seq<Lossy>): (r: (Progress, seq<Msg>))
    requires pr.Valid() && AllValid(xs)
    ensures r.0.Valid()
    decreases xs
  {
    if xs == [] then (pr, [])
    else
      var (pr1, first) := Through(from, pr, xs[0]);
      var (pr2, rest) := ThroughAll(from, pr1, xs[1..]);
      (pr2, rest + first)
  }

  /** The data packets of one send, with another message under way. */
  lemma DataGoes(d: Desc, from: uint8, pr: Progress, x: Lossy)
    requires pr.Valid() && pr.Collecting? && x.Valid() && !x.mask[0] && d.cur == pr.Cur()
    ensures var (pr', out) := Through(from, pr, x);
            HandleAll(d, DataOf(from, x)) == Desc(pr'.Cur(), out + d.queue, d.status)
  {
    hide Handle, WireOf, DataArrived, Slots, NumPackets, Partial, Filled;
    var n, qa, qb := pr.n, pr.got, DataOf(from, x);
    SlotsFill(d, qb, n, |qa|, Slots(qa));
    var m := if |qa| + |qb| < n then |qb| else n - |qa|;
    SlotsConcat(qa, qb[..m]);
    assert [] + d.queue == d.queue;
    if |qa| + |qb| < n {
      assert qb[..m] == qb;
    } else {
      assert qa + qb[..m] == (qa + qb)[..n];
      PartialFull(n, Slots((qa + qb)[..n]));
    }
  }

  lemma ThroughOne(d: Desc, from: uint8, pr: Progress, x: Lossy)
    requires pr.Valid() && x.Valid() && d.cur == pr.Cur()
    ensures var (pr', out) := Through(from, pr, x);
            HandleAll(d, Arrived(WireOf(from, x.send), x.mask)) == Desc(pr'.Cur(), out + d.queue, d.status)
  {
    hide Handle, WireOf, DataArrived, Arrived, Slots, NumPackets, Partial, Message, HandleAll;
    var q := DataOf(from, x);
    ArrivedParts(from, x.send, x.mask);
    assert [] + d.queue == d.queue && [] + q == q;
    if x.mask[0] {
      if pr.Collecting? {
        PartialStarted(pr.n, |pr.got|, Slots(pr.got));
        Interruption(d, from, x.send, q);
      } else if false in x.mask {
        Unfinished(d, from, x.send, x.mask);
      } else {
        PartialSend(d, from, x.send, x.mask);
        IdleAgain(d, from, x);
      }
    } else if pr.Waiting? {
      DataIgnored(d, q);
    } else {
      DataGoes(d, from, pr, x);
    }
  }

  lemma IdleAgain(d: Desc, from: uint8, x: Lossy)
    requires x.Valid() && d.Idle() && false !in x.mask
    ensures HandleAll(d, Arrived(WireOf(from, x.send), x.mask)).Idle()
  {
    hide Handle, HandleAll, WireOf, Arrived;
    PartialSend(d, from, x.send, x.mask);
  }

  /**
   Any losses of any number of sends: the descriptor holds exactly the messages that
   running the counts along the sends gives, and is in the middle of the one it says.
   */
  lemma {:induction false} LossesExact(d: Desc, from: uint8, pr: Progress, xs: seq<Lossy>)
    requires pr.Valid() && AllValid(xs) && d.cur == pr.Cur()
    ensures var (last, out) := ThroughAll(from, pr, xs);
            HandleAll(d, Remains(from, xs)) == Desc(last.Cur(), out + d.queue, d.status)
    decreases xs
  {
    hide Handle, HandleAll, WireOf, Arrived, Through, Progress.Cur;
    if xs == [] {
      NothingHandled(d);
      assert [] + d.queue == d.queue;
    } else {
      var ps := Arrived(WireOf(from, xs[0].send), xs[0].mask);
      var (pr1, first) := Through(from, pr, xs[0]);
      HandleAllConcat(d, ps, Remains(from, xs[1..]));
      ThroughOne(d, from, pr, xs[0]);
      LossesExact(HandleAll(d, ps), from, pr1, xs[1..]);
      var rest := ThroughAll(from, pr1, xs[1..]).1;
      assert rest + (first + d.queue) == rest + first + d.queue;
    }
  }

  function AllDataOf(from: uint8, xs: seq<Lossy>): (ps: seq<Packet>)
    requires AllValid(xs)
    ensures AllData(ps)
  {
    if xs == [] then []
    else
      AllDataJoined(DataOf(from, xs[0]), AllDataOf(from, xs[1..]));
      DataOf(from, xs[0]) + AllDataOf(from, xs[1..])
  }

  /**
   Data packets of any number of sends that lost their command packets complete an
   unfinished message, and then it alone, exactly when there are enough of them; the
   message consists of the first n packets, whoever sent them.
   */
  lemma {:induction false} SplicedExactly(from: uint8, pr: Progress, xs: seq<Lossy>)
    requires pr.Valid() && pr.Collecting?
    requires Headless(xs)
    ensures var more := AllDataOf(from, xs);
            ThroughAll(from, pr, xs) ==
            if |pr.got| + |more| < pr.n then (Collecting(pr.n, pr.got + more), [])
            else (Waiting, [Mixed(pr.got, more, pr.n)])
    decreases xs
  {
    hide DataArrived, Slots, NumPackets;
    if xs == [] {
      assert pr.got + [] == pr.got;
    } else {
      var q, rest := DataOf(from, xs[0]), AllDataOf(from, xs[1..]);
      assert pr.got + (q + rest) == pr.got + q + rest;
      var (pr1, first) := Through(from, pr, xs[0]);
      var last := ThroughAll(from, pr1, xs[1..]).1;
      if |pr.got| + |q| < pr.n {
        AllDataJoined(pr.got, q);
        SplicedExactly(from, Collecting(pr.n, pr.got + q), xs[1..]);
        assert last + first == last;
      } else {
        NoneWaiting(from, xs[1..]);
        assert last + first == first;
        assert (pr.got + q + rest)[..pr.n] == (pr.got + q)[..pr.n];
      }
    }
  }

  lemma {:induction false} NoneWaiting(from: uint8, xs: seq<Lossy>)
    requires Headless(xs)
    ensures ThroughAll(from, Waiting, xs) == (Waiting, [])
  {
    if xs != [] {
      NoneWaiting(from, xs[1..]);
      var (pr, out) := Through(from, Waiting, xs[0]);
      assert pr == Waiting && out == [];
      assert ThroughAll(from, Waiting, xs).1 == [] + out == [];
    }
  }

  /** The case of two sends: which of them are delivered, and when a message spliced from both is. */
  predicate Spliced(from: uint8, a: Lossy, b: Lossy)
    requires a.Valid() && b.Valid()
  {
    var n := NumPackets(|a.send.bytes|);
    a.mask[0] && !b.mask[0] && |DataOf(from, a)| < n <= |DataOf(from, a)| + |DataOf(from, b)|
  }

  /**
   Whatever is lost of two sends A and B to an idle descriptor: a message spliced from
   both is delivered, and then it alone, exactly when A's command packet got through and
   B's did not, A is incomplete, and the data packets of both together are enough for A.
   Otherwise A is delivered exactly when all of it arrived, and B exactly when all of it
   arrived and A left nothing unfinished.
   */
  lemma LossMixes(d: Desc, from: uint8, a: Lossy, b: Lossy)
    requires d.Idle() && a.Valid() && b.Valid()
    ensures HandleAll(d, Remains(from, [a, b])).queue ==
            (if Spliced(from, a, b) then [Mixed(DataOf(from, a), DataOf(from, b), NumPackets(|a.send.bytes|))]
             else (if false in b.mask || (a.mask[0] && false in a.mask) then [] else [Message(b.send.bytes)])
                  + (if false in a.mask then [] else [Message(a.send.bytes)]))
            + d.queue
  {
    hide Handle, HandleAll, Message, DataArrived, Arrived, Slots, NumPackets, Remains;
    LossesExact(d, from, Waiting, [a, b]);
    ArrivedParts(from, a.send, a.mask);
    var (pr, first) := Through(from, Waiting, a);
    assert [a, b][1..] == [b] && [b][1..] == [];
    assert ThroughAll(from, pr, [b]) == (Through(from, pr, b).0, [] + Through(from, pr, b).1);
  }

  /** What an incomplete send leaves behind. */
  lemma Unfinished(d: Desc, from: uint8, a: Send, ma: seq<bool>)
    requires d.Idle() && a.Valid() && |ma| == |WireOf(from, a)| && ma[0] && false in ma
    ensures var n, qa := NumPackets(|a.bytes|), DataArrived(from, a, ma);
            |qa| < n && HandleAll(d, Arrived(WireOf(from, a), ma)) == d.(cur := Partial(n, |qa|, Slots(qa)))
  {
    hide Handle, WireOf, DataArrived, Arrived, Slots, NumPackets, Partial;
    var n, qa := NumPackets(|a.bytes|), DataArrived(from, a, ma);
    ArrivedParts(from, a, ma);
    Announced(d, from, a);
    var ps := WireOf(from, a)[..1] + qa;
    assert ps[0] == WireOf(from, a)[0] && ps[1..] == qa;
    SlotsFill(Handle(d, ps[0]).0, qa, n, 0, []);
    assert qa[..|qa|] == qa && [] + Slots(qa) == Slots(qa);
  }

  /** A command packet in the middle of a message throws the message away, and the data packets after it go with it. */
  lemma Interruption(e: Desc, from: uint8, b: Send, qb: seq<Packet>)
    requires e.cur.hasCmd && b.Valid() && AllData(qb)
    ensures HandleAll(e, WireOf(from, b)[..1] + qb) == e.(cur := EMPTY)
  {
    hide Handle, WireOf;
    var ps := WireOf(from, b)[..1] + qb;
    assert ps[0] == WireOf(from, b)[0] && ps[1..] == qb;
    Restart(e, from, b);
    DataIgnored(e.(cur := EMPTY), qb);
  }

  lemma AllDataJoined(ps: seq<Packet>, qs: seq<Packet>)
    requires AllData(ps) && AllData(qs)
    ensures AllData(ps + qs)
    ensures forall n :: 0 <= n <= |ps + qs| ==> AllData((ps + qs)[..n])
  {}

  /** The first n of the packets, as a message. */
  function Mixed(ps: seq<Packet>, qs: seq<Packet>, n: nat): Msg
    requires AllData(ps) && AllData(qs) && n <= |ps| + |qs|
  {
    AllDataJoined(ps, qs);
    Msg(true, n, n, Slots((ps + qs)[..n]))
  }

  lemma {:induction false} SlotsConcat(ps: seq<Packet>, qs: seq<Packet>)
    requires AllData(ps) && AllData(qs)
    ensures AllData(ps + qs) && Slots(ps + qs) == Slots(ps) + Slots(qs)
  {
    hide Filled;
    if ps == [] {
      assert ps + qs == qs && Slots(ps) + Slots(qs) == Slots(qs);
    } else {
      assert (ps + qs)[0] == ps[0] && (ps + qs)[1..] == ps[1..] + qs;
      SlotsConcat(ps[1..], qs);
    }
  }

  lemma Announced(d: Desc, from: uint8, a: Send)
    requires d.Idle() && a.Valid()
    ensures var n := NumPackets(|a.bytes|);
            n > 0 && Handle(d, WireOf(from, a)[0]).0 == d.(cur := Partial(n, 0, []))
  {
    hide CmdPacket, NumPackets;
    NumPacketsEnough(|a.bytes|);
    CmdPacketFields(a.cmd, a.to, from, |a.bytes|, a.cksum);
    var n := NumPackets(|a.bytes|);
    assert [] + Zeros(30 * n) == Zeros(30 * n);
  }

  lemma Restart(d: Desc, from: uint8, b: Send)
    requires d.cur.hasCmd && b.Valid()
    ensures Handle(d, WireOf(from, b)[0]).0 == d.(cur := EMPTY)
  {
    hide CmdPacket, NumPackets;
    CmdPacketFields(b.cmd, b.to, from, |b.bytes|, b.cksum);
  }

  lemma PartialStarted(n: nat, k: nat, done: seq<uint8>)
    requires |done| <= 30 * n
    ensures Partial(n, k, done).hasCmd
  {}

  lemma PartialFull(n: nat, done: seq<uint8>)
    requires |done| == 30 * n
    ensures Partial(n, n, done) == Msg(true, n, n, done)
  {
    assert done + Zeros(0) == done;
  }
}
