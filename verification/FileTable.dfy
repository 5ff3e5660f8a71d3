/**
 The descriptor table on its real data structures: message blocks linked into one
 queue per descriptor. Each operation is proved to do what Reassembly says.
 */
module FileTable {
  import opened Words
  import opened Packets
  import opened Reassembly
  import opened LinkedQueue

  type Block = Node<Msg>

  ghost function Payloads(nodes: seq<Block>): (s: seq<Msg>)
    reads nodes`data
    ensures |s| == |nodes| && forall i :: 0 <= i < |s| ==> s[i] == nodes[i].data
  {
    if nodes == [] then [] else [nodes[0].data] + Payloads(nodes[1..])
  }

  class Descriptor {
    var curMsg: Block
    const msgQ: Queue<Msg>
    var status: uint8

    /** The objects the descriptor consists of. */
    ghost var Repr: set<object>

    ghost predicate Valid()
      reads this, Repr
      ensures Valid() ==> this in Repr
    {
      && this in Repr && msgQ in Repr && curMsg in Repr
      && (forall n :: n in msgQ.Nodes ==> n in Repr)
      && msgQ.Valid() && curMsg !in msgQ.Nodes
    }

    ghost function View(): Desc
      requires Valid()
      reads this, Repr
    {
      Desc(curMsg.data, Payloads(msgQ.Nodes), status)
    }

    /** One turn of the loop in init_fileTable. */
    constructor ()
      ensures Valid() && fresh(Repr) && View() == Desc(EMPTY, [], NONE)
    {
      curMsg := new Node<Msg>(EMPTY);
      msgQ := new Queue<Msg>();
      status := NONE;
      new;
      Repr := {this, msgQ, curMsg};
    }

    /** get_fd: assignment of the whole struct, which shares the message blocks. */
    constructor CopyOf(d: Descriptor)
      requires d.Valid()
      ensures Valid() && fresh(this) && fresh(msgQ) && View() == d.View()
    {
      curMsg := d.curMsg;
      msgQ := new Queue<Msg>.CopyOf(d.msgQ);
      status := d.status;
      new;
      Repr := d.Repr + {this, msgQ};
    }

    /** has_msg */
    method HasMsg() returns (b: bool)
      requires Valid()
      ensures b <==> View().queue != []
    {
      var empty := msgQ.Empty();
      b := !empty;
    }

    /** get_msg; an empty queue is a panic in the source. */
    method GetMsg() returns (m: Block)
      requires Valid() && View().queue != []
      modifies msgQ
      ensures Valid() && m.data == old(View()).queue[0]
      ensures View() == old(View()).(queue := old(View()).queue[1..])
    {
      hide Queue.Valid;
      var popped := msgQ.Pop();
      m := popped;
    }

    /** has_status */
    predicate HasStatus()
      reads this
    {
      status != NONE
    }

    /** get_status, which also clears it */
    method GetStatus() returns (s: uint8)
      requires Valid()
      modifies this`status
      ensures Valid() && s == old(View()).status && !HasStatus()
      ensures View() == old(View()).(status := NONE)
    {
      s := status;
      status := NONE;
    }

    /** add_msg */
    method AddMsg()
      requires Valid()
      modifies Repr
      ensures Valid() && fresh(Repr - old(Repr))
      ensures View() == Desc(EMPTY, [old(View()).cur] + old(View()).queue, old(View()).status)
    {
      hide Queue.Valid;
      var nxtMsg := new Node<Msg>(EMPTY);
      msgQ.Push(curMsg);
      curMsg := nxtMsg;
      Repr := Repr + {nxtMsg};
    }

    /** The part of recieveMsgHandler that follows the choice of the descriptor. */
    method Receive(p: Packet) returns (o: Outcome)
      requires Valid()
      modifies Repr
      ensures Valid() && fresh(Repr - old(Repr))
      ensures (View(), o) == Handle(old(View()), p)
    {
      hide NumPackets, Queue.Valid;
      var msg := curMsg;
      if IsCmd(p) {
        if Cmnd(p) == ESP_ACK || Cmnd(p) == ESP_NOACK {
          status := Cmnd(p);
          return StatusSet;
        }
        if msg.data.hasCmd {
          msg.data := EMPTY;
          return Restarted;
        }
        var n := NumPackets(PayloadSize(p));
        msg.data := Msg(true, n, 0, Zeros(30 * n));
        return Started;
      }
      if !msg.data.hasCmd {
        msg.data := EMPTY;
        return NoCommand;
      }
      if !CopyFits(msg.data, p) {
        return OutOfBounds;
      }
      msg.data := msg.data.(data := Copied(msg.data.data, 30 * msg.data.curPckts, Data(p)));
      msg.data := msg.data.(curPckts := msg.data.curPckts + 1);
      if msg.data.curPckts == msg.data.totPckts {
        AddMsg();
        return Completed;
      }
      return Stored;
    }
  }

  /** The global file table. */
  class Files {
    const fds: seq<Descriptor>
    ghost var Repr: set<object>

    ghost predicate Closed()
      reads this, Repr
    {
      && |fds| == MAXFILES + 1 && this !in Repr
      && forall i :: 0 <= i < |fds| ==> fds[i] in Repr && fds[i].Repr <= Repr && fds[i].Valid()
    }

    /** No object belongs to two descriptors. */
    ghost predicate Valid()
      reads this, Repr
    {
      Closed() && forall i, j :: 0 <= i < |fds| && 0 <= j < |fds| && i != j ==> fds[i].Repr !! fds[j].Repr
    }

    ghost function View(): (t: Table)
      requires Closed()
      reads this, Repr
    {
      seq(17, i requires 0 <= i < 17 && Closed() reads this, Repr => fds[i].View())
    }

    /** init_fileTable */
    constructor ()
      ensures Valid() && fresh(Repr)
      ensures forall i :: 0 <= i < 17 ==> View()[i] == Desc(EMPTY, [], NONE)
    {
      var made: seq<Descriptor> := [];
      ghost var repr: set<object> := {};
      while |made| < MAXFILES + 1
        invariant |made| <= MAXFILES + 1 && fresh(repr)
        invariant forall i :: 0 <= i < |made| ==> made[i].Repr <= repr && made[i].Valid()
        invariant forall i :: 0 <= i < |made| ==> made[i].View() == Desc(EMPTY, [], NONE)
        invariant forall i, j :: 0 <= i < |made| && 0 <= j < |made| && i != j ==> made[i].Repr !! made[j].Repr
      {
        var d := new Descriptor();
        made := made + [d];
        repr := repr + d.Repr;
      }
      fds := made;
      Repr := repr;
    }

    /** recieveMsgHandler, from a complete packet on */
    method ReceiveMsg(p: Packet) returns (o: Outcome)
      requires Valid()
      modifies this`Repr, Repr
      ensures Valid() && fresh(Repr - old(Repr)) && (View(), o) == Receive(old(View()), p)
    {
      hide Handle;
      if ToSystem(p) {
        SetSystemStatus(Cmnd(p));
        o := StatusSet;
      } else {
        o := ReceiveAt(From(p), p);
      }
    }

    method SetSystemStatus(status: uint8)
      requires Valid()
      modifies Repr
      ensures Valid() && Repr == old(Repr)
      ensures View() == old(View())[MAXFILES := old(View())[MAXFILES].(status := status)]
    {
      fds[MAXFILES].status := status;
    }

    method ReceiveAt(f: nat, p: Packet) returns (o: Outcome)
      requires Valid() && f < MAXFILES
      modifies this`Repr, Repr
      ensures Valid() && fresh(Repr - old(Repr))
      ensures View() == old(View())[f := Handle(old(View())[f], p).0] && o == Handle(old(View())[f], p).1
    {
      hide Handle, Descriptor.Valid, Descriptor.View;
      ghost var before := View();
      assert forall i :: 0 <= i < 17 && i != f ==> fds[i] !in fds[f].Repr;
      o := fds[f].Receive(p);
      Repr := Repr + fds[f].Repr;
      assert forall i :: 0 <= i < 17 && i != f ==> fds[i].View() == before[i];
    }

    /** get_fd, then get_msg on the copy it returns, as every caller of the two does. */
    method TakeThroughCopy(fnum: nat) returns (m: Block)
      requires Valid() && fnum <= MAXFILES && View()[fnum].queue != []
      ensures Valid() && View() == old(View())
      ensures m.data == View()[fnum].queue[0]
    {
      hide Descriptor.Valid, Descriptor.View;
      var copy := new Descriptor.CopyOf(fds[fnum]);
      m := copy.GetMsg();
    }

    /** get_fd, then get_status on the copy it returns: the table keeps the status. */
    method StatusThroughCopy(fnum: nat) returns (s: uint8)
      requires Valid() && fnum <= MAXFILES
      ensures Valid() && View() == old(View()) && s == View()[fnum].status
    {
      hide Descriptor.Valid, Descriptor.View;
      var copy := new Descriptor.CopyOf(fds[fnum]);
      s := copy.GetStatus();
    }

    /** get_msg on the table's own descriptor. */
    method TakeFromTable(fnum: nat) returns (m: Block)
      requires Valid() && fnum < MAXFILES && View()[fnum].queue != []
      modifies Repr
      ensures Valid() && View() == After(old(View()), Take(fnum))
      ensures m.data == old(View())[fnum].queue[0]
    {
      hide Descriptor.View;
      ghost var before := View();
      m := fds[fnum].GetMsg();
      assert forall i :: 0 <= i < 17 && i != fnum ==> fds[i].View() == before[i];
    }
  }
}
