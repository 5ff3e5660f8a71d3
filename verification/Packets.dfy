/**
 The 32-byte packets exchanged with the wireless chip, and the sender that cuts a
 payload into them: one command packet that announces the size, then data packets of
 at most 30 bytes.
 */
module Packets {
  import opened Words

  const DATA_NBYTES: nat := 30
  const CMD_NBYTES: nat := 9
  const ESP_ACK: uint8 := 8
  const ESP_NOACK: uint8 := 9
  const SELF: uint8 := 0xf

  type Packet = p: seq<uint8> | |p| == 32 witness Zeros(32)

  function Zeros(n: nat): (z: seq<uint8>)
    ensures |z| == n
    ensures forall i :: 0 <= i < n ==> z[i] == 0
  {
    seq(n, i => 0)
  }

  // ----- fields, in the layout the compiler gives the bit-field structs

  /** Byte 0 holds sbz:2, nbytes:5 and isCmd:1; byte 1 holds from:4 and to:4. */
  function HeaderBytes(nbytes: nat, isCmd: bool, from: uint8, to: uint8): (h: seq<uint8>)
    requires nbytes < 32
    ensures |h| == 2
  {
    [nbytes * 4 + (if isCmd then 128 else 0), from % 16 + 16 * (to % 16)]
  }

  function NumBytes(p: Packet): (n: nat)
    ensures n < 32
  {
    p[0] / 4 % 32
  }

  predicate IsCmd(p: Packet) {
    p[0] / 128 == 1
  }

  function From(p: Packet): (f: nat)
    ensures f < 16
  {
    p[1] % 16
  }

  function To(p: Packet): (t: nat)
    ensures t < 16
  {
    p[1] / 16
  }

  function Cmnd(p: Packet): uint8 {
    p[8]
  }

  /** The size field of a command packet. */
  function PayloadSize(p: Packet): uint32 {
    LittleEndian(p[12..16])
  }

  /** The first nbytes bytes of a data packet's payload. */
  function Data(p: Packet): (d: seq<uint8>)
    requires NumBytes(p) <= DATA_NBYTES
    ensures |d| == NumBytes(p)
  {
    p[2..2 + NumBytes(p)]
  }

  // ----- packets as the sender builds them

  function CmdPacket(cmd: uint8, to: uint8, from: uint8, size: uint32, cksum: uint32): Packet {
    HeaderBytes(CMD_NBYTES, true, from, to) + [0, 0] + Bytes(cksum) + [cmd, 0, 0, 0] + Bytes(size) + Zeros(16)
  }

  function DataPacket(to: uint8, from: uint8, chunk: seq<uint8>): Packet
    requires |chunk| <= DATA_NBYTES
  {
    HeaderBytes(|chunk|, false, from, to) + chunk + Zeros(DATA_NBYTES - |chunk|)
  }

  /** The first two bytes, as one 16-bit word: sbz in bits 0 and 1, then nbytes, isCmd, from and to. */
  lemma HeaderWord(p: Packet)
    ensures p[0] as int + 256 * p[1] as int ==
            p[0] as int % 4 + 4 * NumBytes(p) + (if IsCmd(p) then 128 else 0) + 256 * From(p) + 4096 * To(p)
  {}

  /** Each field of a command packet is what the sender put in, in its place, and all other bytes are zero. */
  lemma CmdPacketFields(cmd: uint8, to: uint8, from: uint8, size: uint32, cksum: uint32)
    ensures var p := CmdPacket(cmd, to, from, size, cksum);
            && IsCmd(p) && From(p) == from % 16 && To(p) == to % 16 && Cmnd(p) == cmd && PayloadSize(p) == size
            && NumBytes(p) == CMD_NBYTES && p[0] as int % 4 == 0
            && p[4..8] == Bytes(cksum) && p[8] == cmd && p[12..16] == Bytes(size)
            && forall i :: 2 <= i < 4 || 9 <= i < 12 || 16 <= i < 32 ==> p[i] == 0
  {
    var p := CmdPacket(cmd, to, from, size, cksum);
    BytesRoundTrip(size);
    assert p[4..8] == Bytes(cksum);
    assert p[12..16] == Bytes(size);
  }

  lemma DataPacketFields(to: uint8, from: uint8, chunk: seq<uint8>)
    requires |chunk| <= DATA_NBYTES
    ensures var p := DataPacket(to, from, chunk);
            && !IsCmd(p) && From(p) == from % 16 && To(p) == to % 16 && NumBytes(p) == |chunk| && Data(p) == chunk
            && p[0] as int % 4 == 0 && p[2..] == chunk + Zeros(DATA_NBYTES - |chunk|)
  {
    var p := DataPacket(to, from, chunk);
    assert NumBytes(p) == |chunk|;
    assert p[2..] == chunk + Zeros(DATA_NBYTES - |chunk|);
    assert p[2..2 + |chunk|] == chunk;
  }

  function NumPackets(size: nat): nat {
    size / DATA_NBYTES + if size % DATA_NBYTES > 0 then 1 else 0
  }

  /** Payload bytes of the next packet, with `left` still to send. */
  function SendSize(left: nat): (n: nat)
    requires left > 0
    ensures 0 < n <= left && n <= DATA_NBYTES
    ensures NumPackets(left) == 1 + NumPackets(left - n)
  {
    if left >= 30 then 30 else left % 30
  }

  /** Every packet full except perhaps the last. */
  function DataPackets(to: uint8, from: uint8, bytes: seq<uint8>): (ps: seq<Packet>)
    ensures |ps| == NumPackets(|bytes|)
  {
    if bytes == [] then []
    else
      var n := SendSize(|bytes|);
      [DataPacket(to, from, bytes[..n])] + DataPackets(to, from, bytes[n..])
  }

  /** Everything one send puts on the wire. */
  function Sent(cmd: uint8, to: uint8, from: uint8, bytes: seq<uint8>, cksum: uint32): seq<Packet>
    requires |bytes| < TWO_32
  {
    [CmdPacket(cmd, to, from, |bytes|, cksum)] + DataPackets(to, from, bytes)
  }

  function Joined(ps: seq<Packet>): seq<uint8>
    requires forall p :: p in ps ==> NumBytes(p) <= DATA_NBYTES
  {
    if ps == [] then [] else Data(ps[0]) + Joined(ps[1..])
  }

  /** Nothing of the payload is lost or reordered by cutting it up. */
  lemma {:induction false} DataPacketsJoin(to: uint8, from: uint8, bytes: seq<uint8>)
    ensures var ps := DataPackets(to, from, bytes);
            && (forall p :: p in ps ==>
                  NumBytes(p) <= DATA_NBYTES && !IsCmd(p) && From(p) == from % 16 && To(p) == to % 16)
            && Joined(ps) == bytes
  {
    if bytes != [] {
      var n := SendSize(|bytes|);
      DataPacketFields(to, from, bytes[..n]);
      DataPacketsJoin(to, from, bytes[n..]);
      assert bytes[..n] + bytes[n..] == bytes;
    }
  }

  /** The transmit side of the serial line: packets in the order they were written. */
  class Line {
    var sent: seq<Packet>

    /** sw_uart_putPckt */
    method PutPacket(p: Packet)
      modifies this
      ensures sent == old(sent) + [p]
    {
      sent := sent + [p];
    }
  }

  /** send_cmd; `cksum` stands for the hash the source computes over the packets. */
  method SendCmd(u: Line, cmd: uint8, to: uint8, from: uint8, bytes: seq<uint8>, cksum: uint32)
    requires |bytes| < TWO_32
    modifies u
    ensures u.sent == old(u.sent) + Sent(cmd, to, from, bytes, cksum)
  {
    hide DataPackets, CmdPacket;
    var header := CmdPacket(cmd, to, from, |bytes|, cksum);
    var pckts := Fragment(to, from, bytes);
    u.PutPacket(header);
    ghost var before := u.sent;
    for i := 0 to pckts.Length
      invariant u.sent == before + pckts[..i]
      invariant pckts[..] == DataPackets(to, from, bytes)
    {
      u.PutPacket(pckts[i]);
      assert pckts[..i + 1] == pckts[..i] + [pckts[i]];
    }
    assert pckts[..pckts.Length] == pckts[..];
  }

  /** The loop of send_cmd that fills the array of data packets. */
  method Fragment(to: uint8, from: uint8, bytes: seq<uint8>) returns (pckts: array<Packet>)
    ensures fresh(pckts) && pckts[..] == DataPackets(to, from, bytes)
  {
    hide DataPacket, DataPackets, SendSize, NumPackets;
    pckts := new Packet[NumPackets(|bytes|)];
    var bytesLeft, data, currPkt := |bytes|, 0, 0;
    assert bytes[0..] == bytes;
    while bytesLeft > 0
      invariant 0 <= bytesLeft && 0 <= data && data + bytesLeft == |bytes| && currPkt <= pckts.Length
      invariant pckts[..currPkt] + DataPackets(to, from, bytes[data..]) == DataPackets(to, from, bytes)
    {
      var sendSize := SendSize(bytesLeft);
      FirstDataPacket(to, from, bytes, data, sendSize);
      pckts[currPkt] := DataPacket(to, from, bytes[data..data + sendSize]);
      bytesLeft := bytesLeft - sendSize;
      data := data + sendSize;
      currPkt := currPkt + 1;
    }
    NoDataPackets(to, from);
    assert bytes[data..] == [];
  }

  lemma NoDataPackets(to: uint8, from: uint8)
    ensures DataPackets(to, from, []) == []
  {}

  lemma FirstDataPacket(to: uint8, from: uint8, bytes: seq<uint8>, at: nat, n: nat)
    requires at < |bytes| && n == SendSize(|bytes| - at)
    ensures DataPackets(to, from, bytes[at..]) ==
            [DataPacket(to, from, bytes[at..at + n])] + DataPackets(to, from, bytes[at + n..])
  {
    hide DataPacket, SendSize, NumPackets;
    assert bytes[at..][..n] == bytes[at..at + n];
    assert bytes[at..][n..] == bytes[at + n..];
  }
}
