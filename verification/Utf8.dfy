/** The UTF-8 encoder and decoder used for long file names. */
module Utf8 {
  import opened Options

  /** One row per sequence length: payload mask and marker of the first byte, range of code points, payload bits. */
  datatype Row = Row(mask: bv8, lead: bv8, beg: bv32, end: bv32, bitsStored: bv32)

  /** Row 0 is for continuation bytes; the row of zeros is meant to end the table. */
  function RowFor(i: nat): Row
    requires i < 6
  {
    match i
    case 0 => Row(0x3F, 0x80, 0, 0, 6)
    case 1 => Row(0x7F, 0x00, 0, 0x7F, 7)
    case 2 => Row(0x1F, 0xC0, 0x80, 0x7FF, 5)
    case 3 => Row(0x0F, 0xE0, 0x800, 0xFFFF, 4)
    case 4 => Row(0x07, 0xF0, 0x1_0000, 0x10_FFFF, 3)
    case _ => Row(0, 0, 0, 0, 0)
  }

  // ----- the encoding, as section 3 of RFC 3629 lays it out

  function Length(cp: bv32): (n: nat)
    ensures n <= 4
  {
    if cp == 0 then 0 else if cp <= 0x7F then 1 else if cp <= 0x7FF then 2 else if cp <= 0xFFFF then 3 else 4
  }

  /** The length a first byte announces; 0 for a continuation byte, none for a byte that begins nothing. */
  function LeadLength(b: bv8): (n: Option<nat>)
    ensures n.Some? ==> n.value <= 4
  {
    if b & 0xC0 == 0x80 then Some(0)
    else if b & 0x80 == 0x00 then Some(1)
    else if b & 0xE0 == 0xC0 then Some(2)
    else if b & 0xF0 == 0xE0 then Some(3)
    else if b & 0xF8 == 0xF0 then Some(4)
    else None
  }

  /** A code point that has an encoding. */
  predicate Encodable(cp: bv32) {
    0 < cp <= 0x10_FFFF
  }

  /** The shift that brings the k-th group of six bits down. */
  function Six(k: nat): bv32
    requires k <= 3
  {
    match k case 0 => 0 case 1 => 6 case 2 => 12 case _ => 18
  }

  /** The k-th group of six bits of the code point, counted from the low end. */
  function Continuation(cp: bv32, k: nat): bv8
    requires k <= 2
  {
    match k
    case 0 => ((cp & 0x3F) | 0x80) as bv8
    case 1 => (((cp >> 6) & 0x3F) | 0x80) as bv8
    case _ => (((cp >> 12) & 0x3F) | 0x80) as bv8
  }

  function First(cp: bv32): bv8 {
    if cp <= 0x7F then (cp & 0x7F) as bv8
    else if cp <= 0x7FF then (((cp >> 6) & 0x1F) | 0xC0) as bv8
    else if cp <= 0xFFFF then (((cp >> 12) & 0x0F) | 0xE0) as bv8
    else (((cp >> 18) & 0x07) | 0xF0) as bv8
  }

  function Encode(cp: bv32): (bytes: seq<bv8>)
    requires Encodable(cp)
    ensures |bytes| == Length(cp)
  {
    if cp <= 0x7F then [First(cp)]
    else if cp <= 0x7FF then [First(cp), Continuation(cp, 0)]
    else if cp <= 0xFFFF then [First(cp), Continuation(cp, 1), Continuation(cp, 0)]
    else [First(cp), Continuation(cp, 2), Continuation(cp, 1), Continuation(cp, 0)]
  }

  function Payload(b: bv8): bv32 {
    (b & 0x3F) as bv32
  }

  /** The code point at the front of the bytes. */
  function Decode(b: seq<bv8>): bv32
    requires b != [] && LeadLength(b[0]).Some? && 0 < LeadLength(b[0]).value <= |b|
  {
    match LeadLength(b[0]).value
    case 1 => Decode1(b[0])
    case 2 => Decode2(b[0], b[1])
    case 3 => Decode3(b[0], b[1], b[2])
    case _ => Decode4(b[0], b[1], b[2], b[3])
  }

  function Decode1(b0: bv8): bv32 {
    (b0 & 0x7F) as bv32
  }

  function Decode2(b0: bv8, b1: bv8): bv32 {
    ((b0 & 0x1F) as bv32 << 6) | Payload(b1)
  }

  function Decode3(b0: bv8, b1: bv8, b2: bv8): bv32 {
    ((b0 & 0x0F) as bv32 << 12) | (Payload(b1) << 6) | Payload(b2)
  }

  function Decode4(b0: bv8, b1: bv8, b2: bv8, b3: bv8): bv32 {
    ((b0 & 0x07) as bv32 << 18) | (Payload(b1) << 12) | (Payload(b2) << 6) | Payload(b3)
  }

  // ----- the program

  predicate Within(cp: bv32, beg: bv32, end: bv32) {
    cp >= beg && cp <= end
  }

  /** The tests the two searches make on a row. */
  predicate InRange(row: nat, cp: bv32)
    requires row < 6
  {
    Within(cp, RowFor(row).beg, RowFor(row).end)
  }

  predicate Leads(row: nat, ch: bv8)
    requires row < 6
  {
    ch & !RowFor(row).mask == RowFor(row).lead
  }

  /** codepoint_len. None stands for a search that runs past the end of the table; -1 is never the answer. */
  method CodepointLen(cp: bv32) returns (len: Option<int>)
    ensures len == if cp <= 0x10_FFFF then Some(Length(cp)) else None
  {
    hide InRange, Length;
    var u := 0;
    RowsOf(cp);
    while u < 6 && !InRange(u, cp)
      invariant u <= 6
      invariant forall i :: 0 <= i < u ==> !InRange(i, cp)
    {
      u := u + 1;
    }
    if u == 6 {
      return None;
    }
    return Some(if u > 4 then -1 else u);
  }

  /** The first row that takes a code point is the one for its length. */
  lemma RowsOf(cp: bv32)
    ensures cp <= 0x10_FFFF ==> InRange(Length(cp), cp) && forall i :: 0 <= i < Length(cp) ==> !InRange(i, cp)
    ensures cp > 0x10_FFFF ==> forall i :: 0 <= i < 6 ==> !InRange(i, cp)
  {
    hide InRange;
    forall i: nat | i < 6
      ensures InRange(i, cp) <==> Within(cp, Least(i), Greatest(i))
    {
      RowRange(i, cp);
    }
  }

  function Least(i: nat): bv32 {
    match i case 2 => 0x80 case 3 => 0x800 case 4 => 0x1_0000 case _ => 0
  }

  function Greatest(i: nat): bv32 {
    match i case 1 => 0x7F case 2 => 0x7FF case 3 => 0xFFFF case 4 => 0x10_FFFF case _ => 0
  }

  lemma RowRange(i: nat, cp: bv32)
    requires i < 6
    ensures InRange(i, cp) <==> Within(cp, Least(i), Greatest(i))
  {
    hide Within;
  }

  /** utf8_len, likewise */
  method Utf8Len(ch: bv8) returns (len: Option<int>)
    ensures len.None? <==> LeadLength(ch).None?
    ensures len.Some? ==> len.value == LeadLength(ch).value
  {
    hide Leads, LeadLength;
    var u := 0;
    RowsOfLead(ch);
    while u < 6 && !Leads(u, ch)
      invariant u <= 6
      invariant forall i :: 0 <= i < u ==> !Leads(i, ch)
    {
      u := u + 1;
    }
    if u == 6 {
      return None;
    }
    return Some(if u > 4 then -1 else u);
  }

  lemma RowsOfLead(ch: bv8)
    ensures LeadLength(ch).Some? ==>
      Leads(LeadLength(ch).value, ch) && forall i :: 0 <= i < LeadLength(ch).value ==> !Leads(i, ch)
    ensures LeadLength(ch).None? ==> forall i :: 0 <= i < 6 ==> !Leads(i, ch)
  {}

  /** Some bits of a code point under the mask and marker of a row. */
  function Marked(cp: bv32, shift: bv32, row: Row): bv8
    requires shift <= 32
  {
    (((cp >> shift) & row.mask as bv32) | row.lead as bv32) as bv8
  }

  lemma EncodableLength(cp: bv32)
    requires Encodable(cp)
    ensures cp <= 0x10_FFFF && 1 <= Length(cp)
  {}

  lemma TopShift(bytes: nat)
    requires 1 <= bytes <= 4
    ensures 6 * (bytes as bv32 - 1) == Six(bytes - 1)
  {
    assert bytes == 1 || bytes == 2 || bytes == 3 || bytes == 4;
  }

  lemma SixStep(k: nat)
    requires k <= 3
    ensures Six(k) <= 18 && (k > 0 ==> Six(k) - 6 == Six(k - 1))
  {}

  lemma MarkedFirst(cp: bv32)
    requires Encodable(cp)
    ensures 1 <= Length(cp) && Six(Length(cp) - 1) <= 32
    ensures Marked(cp, Six(Length(cp) - 1), RowFor(Length(cp))) == First(cp)
  {}

  lemma MarkedRest(cp: bv32, k: nat)
    requires k <= 2
    ensures Six(k) <= 32 && Marked(cp, Six(k), RowFor(0)) == Continuation(cp, k)
  {}

  lemma EncodeBytes(cp: bv32)
    requires Encodable(cp)
    ensures Encode(cp)[0] == First(cp)
    ensures forall j :: 1 <= j < Length(cp) ==> Encode(cp)[j] == Continuation(cp, Length(cp) - 1 - j)
  {
    hide First, Continuation;
  }

  /** to_utf8, into the static buffer it returns */
  method ToUtf8(cp: bv32, ret: array<bv8>) returns (bytes: nat)
    requires Encodable(cp) && ret.Length == 5
    modifies ret
    ensures bytes == Length(cp) && ret[..bytes] == Encode(cp) && ret[bytes] == 0
  {
    hide Length, First, Continuation, Six, Marked, Encode, Encodable, RowFor;
    var len := CodepointLen(cp);
    EncodableLength(cp);
    bytes := len.value;
    var shift: bv32 := 6 * (bytes as bv32 - 1);
    TopShift(bytes);
    MarkedFirst(cp);
    SixStep(bytes - 1);
    ret[0] := Marked(cp, shift, RowFor(bytes));
    shift := shift - 6;
    var i := 1;
    while i < bytes
      invariant 1 <= i <= bytes
      invariant i < bytes ==> shift == Six(bytes - 1 - i)
      invariant ret[0] == First(cp)
      invariant forall j :: 1 <= j < i ==> ret[j] == Continuation(cp, bytes - 1 - j)
    {
      MarkedRest(cp, bytes - 1 - i);
      SixStep(bytes - 1 - i);
      ret[i] := Marked(cp, shift, RowFor(0));
      shift := shift - 6;
      i := i + 1;
    }
    ret[bytes] := 0;
    EncodeBytes(cp);
    assert ret[..bytes] == Encode(cp);
  }

  /** Payload bits of one more byte, put in place. */
  function Added(codep: bv32, ch: bv8, row: Row, shift: bv32): bv32
    requires shift <= 32
  {
    codep | ((ch & row.mask) as bv32 << shift)
  }

  /** to_cp; the source reads as many bytes as the first one announces. */
  method ToCp(chr: array<bv8>, at: nat) returns (codep: bv32)
    requires at < chr.Length && LeadLength(chr[at]).Some? && 0 < LeadLength(chr[at]).value <= chr.Length - at
    ensures codep == Decode(chr[at..])
  {
    hide LeadLength, Six, RowFor, Gathered, Decode, Added;
    var len := Utf8Len(chr[at]);
    var bytes: nat := len.value;
    var shift: bv32 := 6 * (bytes as bv32 - 1);
    TopShift(bytes);
    SixStep(bytes - 1);
    codep := Added(0, chr[at], RowFor(bytes), shift);
    ghost var b := chr[at..];
    GatheredFirst(b, bytes, shift);
    var i := 1;
    while i < bytes
      invariant 1 <= i <= bytes
      invariant shift == Six(bytes - i)
      invariant codep == Gathered(b, i)
    {
      SixStep(bytes - i);
      shift := shift - 6;
      SixStep(bytes - 1 - i);
      codep := Added(codep, chr[at + i], RowFor(0), shift);
      GatheredNext(b, i, shift);
      i := i + 1;
    }
    GatheredAll(b);
  }

  /** What the first i bytes contribute to the code point. */
  function Gathered(b: seq<bv8>, i: nat): bv32
    requires b != [] && LeadLength(b[0]).Some? && 1 <= i <= LeadLength(b[0]).value <= |b|
  {
    var n := LeadLength(b[0]).value;
    SixStep(n - i);
    if i == 1 then Added(0, b[0], RowFor(n), Six(n - 1))
    else Added(Gathered(b, i - 1), b[i - 1], RowFor(0), Six(n - i))
  }

  lemma GatheredFirst(b: seq<bv8>, n: nat, shift: bv32)
    requires b != [] && LeadLength(b[0]).Some? && 1 <= n == LeadLength(b[0]).value <= |b| && shift == Six(n - 1) <= 32
    ensures Gathered(b, 1) == Added(0, b[0], RowFor(n), shift)
  {
    hide LeadLength, Six, RowFor, Added;
  }

  lemma GatheredNext(b: seq<bv8>, i: nat, shift: bv32)
    requires b != [] && LeadLength(b[0]).Some? && 1 <= i < LeadLength(b[0]).value <= |b|
    requires shift == Six(LeadLength(b[0]).value - 1 - i) <= 32
    ensures Gathered(b, i + 1) == Added(Gathered(b, i), b[i], RowFor(0), shift)
  {
    hide LeadLength, Six, RowFor, Added;
  }

  lemma GatheredAll(b: seq<bv8>)
    requires b != [] && LeadLength(b[0]).Some? && 1 <= LeadLength(b[0]).value <= |b|
    ensures Gathered(b, LeadLength(b[0]).value) == Decode(b)
  {
    hide LeadLength, Six, RowFor, Added, Gathered, Decode1, Decode2, Decode3, Decode4;
    var n := LeadLength(b[0]).value;
    SixValues();
    GatheredFirst(b, n, Six(n - 1));
    if n == 1 {
      Added1(b[0]);
    } else {
      GatheredNext(b, 1, Six(n - 2));
      if n == 2 {
        Added2(b[0], b[1]);
      } else {
        GatheredNext(b, 2, Six(n - 3));
        if n == 3 {
          Added3(b[0], b[1], b[2]);
        } else {
          GatheredNext(b, 3, Six(0));
          Added4(b[0], b[1], b[2], b[3]);
        }
      }
    }
  }

  lemma SixValues()
    ensures Six(0) == 0 && Six(1) == 6 && Six(2) == 12 && Six(3) == 18
  {}

  lemma Added1(b0: bv8)
    ensures Added(0, b0, RowFor(1), 0) == Decode1(b0)
  {}

  lemma Added2(b0: bv8, b1: bv8)
    ensures Added(Added(0, b0, RowFor(2), 6), b1, RowFor(0), 0) == Decode2(b0, b1)
  {}

  lemma Added3(b0: bv8, b1: bv8, b2: bv8)
    ensures Added(Added(Added(0, b0, RowFor(3), 12), b1, RowFor(0), 6), b2, RowFor(0), 0)
            == Decode3(b0, b1, b2)
  {}

  lemma Added4(b0: bv8, b1: bv8, b2: bv8, b3: bv8)
    ensures Added(Added(Added(Added(0, b0, RowFor(4), 18), b1, RowFor(0), 12),
                        b2, RowFor(0), 6), b3, RowFor(0), 0)
            == Decode4(b0, b1, b2, b3)
  {}

  // ----- what the two promise

  /** The first byte alone tells the length, and no byte is a terminator. */
  lemma EncodedShape(cp: bv32)
    requires Encodable(cp)
    ensures LeadLength(Encode(cp)[0]) == Some(Length(cp))
    ensures forall i :: 0 <= i < |Encode(cp)| ==> Encode(cp)[i] != 0
    ensures forall i :: 1 <= i < |Encode(cp)| ==> LeadLength(Encode(cp)[i]) == Some(0)
  {
    FirstLeads(cp);
    ContinuationsContinue(cp, 0);
    ContinuationsContinue(cp, 1);
    ContinuationsContinue(cp, 2);
    hide First, Continuation, LeadLength;
  }

  lemma FirstLeads(cp: bv32)
    requires Encodable(cp)
    ensures LeadLength(First(cp)) == Some(Length(cp)) && First(cp) != 0
  {}

  lemma ContinuationsContinue(cp: bv32, k: nat)
    requires k <= 2
    ensures LeadLength(Continuation(cp, k)) == Some(0) && Continuation(cp, k) != 0
  {}

  /** Decoding what was encoded gives the code point back, whatever follows. */
  lemma DecodeEncode(cp: bv32, rest: seq<bv8>)
    requires Encodable(cp)
    ensures var b := Encode(cp) + rest;
            LeadLength(b[0]) == Some(Length(cp)) && 0 < Length(cp) && Decode(b) == cp
  {
    EncodedShape(cp);
    EncodableLength(cp);
    var b := Encode(cp) + rest;
    assert forall i :: 0 <= i < |Encode(cp)| ==> b[i] == Encode(cp)[i];
    hide LeadLength, First, Continuation, Decode1, Decode2, Decode3, Decode4;
    if cp <= 0x7F {
      OneByte(cp);
    } else if cp <= 0x7FF {
      TwoBytes(cp);
    } else if cp <= 0xFFFF {
      ThreeBytes(cp);
    } else {
      FourBytes(cp);
    }
  }

  lemma OneByte(cp: bv32)
    requires cp <= 0x7F
    ensures Decode1(First(cp)) == cp
  {}

  lemma TwoBytes(cp: bv32)
    requires 0x7F < cp <= 0x7FF
    ensures Decode2(First(cp), Continuation(cp, 0)) == cp
  {}

  lemma ThreeBytes(cp: bv32)
    requires 0x7FF < cp <= 0xFFFF
    ensures Decode3(First(cp), Continuation(cp, 1), Continuation(cp, 0)) == cp
  {}

  lemma FourBytes(cp: bv32)
    requires 0xFFFF < cp <= 0x10_FFFF
    ensures Decode4(First(cp), Continuation(cp, 2), Continuation(cp, 1), Continuation(cp, 0)) == cp
  {}

  function EncodeAll(cps: seq<bv32>): (bytes: seq<bv8>)
    requires forall cp :: cp in cps ==> Encodable(cp)
  {
    if cps == [] then [] else Encode(cps[0]) + EncodeAll(cps[1..])
  }

  /** Repeatedly utf8_len and to_cp, up to a zero byte; nothing if the bytes are not encoded text. */
  function DecodeAll(bytes: seq<bv8>): Option<seq<bv32>> {
    if bytes == [] then None
    else if bytes[0] == 0 then Some([])
    else
      var len := LeadLength(bytes[0]);
      if len.None? || len.value == 0 || len.value > |bytes| then None
      else
        var rest := DecodeAll(bytes[len.value..]);
        if rest.None? then None else Some([Decode(bytes)] + rest.value)
  }

  lemma DecodeAllStep(cp: bv32, rest: seq<bv8>)
    requires Encodable(cp)
    ensures var r := DecodeAll(rest);
            DecodeAll(Encode(cp) + rest) == if r.None? then None else Some([cp] + r.value)
  {
    hide Decode, LeadLength, Encode, Encodable, Length;
    DecodeEncode(cp, rest);
    EncodedShape(cp);
    var all := Encode(cp) + rest;
    assert all[0] == Encode(cp)[0] && all[Length(cp)..] == rest;
  }

  /** Any text survives encoding and decoding, and what follows its terminator is not looked at. */
  lemma {:induction false} TextRoundTrip(cps: seq<bv32>, after: seq<bv8>)
    requires forall cp :: cp in cps ==> Encodable(cp)
    ensures DecodeAll(EncodeAll(cps) + [0] + after) == Some(cps)
  {
    hide Encode, Encodable, DecodeAll;
    if cps == [] {
      Terminated(after);
      assert [] + [0] + after == [0] + after;
    } else {
      var rest := EncodeAll(cps[1..]) + [0] + after;
      assert EncodeAll(cps) + [0] + after == Encode(cps[0]) + rest;
      DecodeAllStep(cps[0], rest);
      TextRoundTrip(cps[1..], after);
      assert cps == [cps[0]] + cps[1..];
    }
  }

  lemma Terminated(after: seq<bv8>)
    ensures DecodeAll([0] + after) == Some([])
  {}

  /** As many bytes as the first one announces. */
  predicate Announced(b: seq<bv8>) {
    b != [] && LeadLength(b[0]) == Some(|b|)
  }

  /** The bytes behind the first are marked as continuations, which to_cp does not look at. */
  predicate WellMarked(b: seq<bv8>) {
    Announced(b) && forall i :: 1 <= i < |b| ==> LeadLength(b[i]) == Some(0)
  }

  /** The shortest form of a code point from 1 to 0x10FFFF, told from the bytes alone. */
  predicate ShortestForm(b: seq<bv8>)
    requires 1 <= |b| <= 4
  {
    match |b|
    case 1 => b[0] != 0
    case 2 => b[0] >= 0xC2
    case 3 => b[0] != 0xE0 || b[1] >= 0xA0
    case _ => b[0] <= 0xF4 && (b[0] == 0xF0 ==> b[1] >= 0x90) && (b[0] == 0xF4 ==> b[1] <= 0x8F)
  }

  /**
   to_cp takes any bytes behind the first. The encodings among its inputs, those that
   to_utf8 gives back for the code point read, are exactly the correctly marked shortest
   forms.
   */
  lemma EncodeDecode(b: seq<bv8>)
    requires Announced(b)
    ensures 1 <= |b| <= 4
    ensures Encodable(Decode(b)) && Encode(Decode(b)) == b <==> WellMarked(b) && ShortestForm(b)
  {
    LengthRange(b);
    if WellMarked(b) {
      EncodeDecodeMarked(b);
    } else if Encodable(Decode(b)) {
      EncodedShape(Decode(b));
    }
  }

  lemma EncodeDecodeMarked(b: seq<bv8>)
    requires WellMarked(b)
    ensures 1 <= |b| <= 4
    ensures Encodable(Decode(b)) && Encode(Decode(b)) == b <==> ShortestForm(b)
  {
    LengthRange(b);
    ShortestLength(b);
    hide ShortestForm, Encode, Decode, LeadLength;
    if Encodable(Decode(b)) && Length(Decode(b)) == |b| {
      Reencode(b);
    }
  }

  /** The shortest forms are those whose code point has their length. */
  lemma ShortestLength(b: seq<bv8>)
    requires WellMarked(b) && 1 <= |b| <= 4
    ensures Encodable(Decode(b)) && Length(Decode(b)) == |b| <==> ShortestForm(b)
  {
    hide LeadLength, Decode1, Decode2, Decode3, Decode4;
    if |b| == 1 {
      Shortest1(b[0]);
    } else if |b| == 2 {
      Shortest2(b[0], b[1]);
    } else if |b| == 3 {
      Shortest3(b[0], b[1], b[2]);
    } else {
      Shortest4(b[0], b[1], b[2], b[3]);
    }
  }

  lemma Reencode(b: seq<bv8>)
    requires WellMarked(b) && 1 <= |b| <= 4 && Encodable(Decode(b)) && Length(Decode(b)) == |b|
    ensures Encode(Decode(b)) == b
  {
    hide LeadLength, First, Continuation, Decode1, Decode2, Decode3, Decode4, Encode, Length, Encodable;
    var cp := Decode(b);
    EncodeOfLength(cp);
    if |b| == 1 {
      Reencode1(b[0], cp);
    } else if |b| == 2 {
      Reencode2(b[0], b[1], cp);
    } else if |b| == 3 {
      Reencode3(b[0], b[1], b[2], cp);
    } else {
      Reencode4(b[0], b[1], b[2], b[3], cp);
    }
  }

  lemma EncodeOfLength(cp: bv32)
    requires Encodable(cp)
    ensures match Length(cp)
            case 1 => cp <= 0x7F && Encode(cp) == [First(cp)]
            case 2 => 0x7F < cp <= 0x7FF && Encode(cp) == [First(cp), Continuation(cp, 0)]
            case 3 => 0x7FF < cp <= 0xFFFF && Encode(cp) == [First(cp), Continuation(cp, 1), Continuation(cp, 0)]
            case _ => 0xFFFF < cp <= 0x10_FFFF
                      && Encode(cp) == [First(cp), Continuation(cp, 2), Continuation(cp, 1), Continuation(cp, 0)]
  {
    hide First, Continuation;
  }

  lemma LengthRange(b: seq<bv8>)
    requires Announced(b)
    ensures 1 <= |b| <= 4
  {}

  lemma Shortest1(b0: bv8)
    requires LeadLength(b0) == Some(1)
    ensures 0 < Decode1(b0) <= 0x7F <==> b0 != 0
  {}

  lemma Shortest2(b0: bv8, b1: bv8)
    requires LeadLength(b0) == Some(2) && LeadLength(b1) == Some(0)
    ensures 0x7F < Decode2(b0, b1) <= 0x7FF <==> b0 >= 0xC2
  {}

  lemma Shortest3(b0: bv8, b1: bv8, b2: bv8)
    requires LeadLength(b0) == Some(3) && LeadLength(b1) == Some(0) && LeadLength(b2) == Some(0)
    ensures 0x7FF < Decode3(b0, b1, b2) <= 0xFFFF <==> b0 != 0xE0 || b1 >= 0xA0
  {}

  lemma Shortest4(b0: bv8, b1: bv8, b2: bv8, b3: bv8)
    requires LeadLength(b0) == Some(4) && LeadLength(b1) == Some(0)
    requires LeadLength(b2) == Some(0) && LeadLength(b3) == Some(0)
    ensures 0xFFFF < Decode4(b0, b1, b2, b3) <= 0x10_FFFF <==>
      b0 <= 0xF4 && (b0 == 0xF0 ==> b1 >= 0x90) && (b0 == 0xF4 ==> b1 <= 0x8F)
  {}

  // ----- the value of the bytes, as a sum

  function Rest(b: bv8): bv32 {
    b as bv32 - 0x80
  }

  /** The value of a byte sequence, each byte counted from its marker on and the continuation bytes in base 64. */
  function ValueOf(b: seq<bv8>): bv32
    requires 1 <= |b| <= 4
  {
    match |b|
    case 1 => b[0] as bv32
    case 2 => Value2(b[0], b[1])
    case 3 => Value3(b[0], b[1], b[2])
    case _ => Value4(b[0], b[1], b[2], b[3])
  }

  function Value2(b0: bv8, b1: bv8): bv32 {
    (b0 as bv32 - 0xC0) * 0x40 + Rest(b1)
  }

  function Value3(b0: bv8, b1: bv8, b2: bv8): bv32 {
    (b0 as bv32 - 0xE0) * 0x1000 + Rest(b1) * 0x40 + Rest(b2)
  }

  function Value4(b0: bv8, b1: bv8, b2: bv8, b3: bv8): bv32 {
    (b0 as bv32 - 0xF0) * 0x4_0000 + Rest(b1) * 0x1000 + Rest(b2) * 0x40 + Rest(b3)
  }

  /** to_cp computes this sum from correctly marked bytes. */
  lemma DecodedValue(b: seq<bv8>)
    requires WellMarked(b)
    ensures 1 <= |b| <= 4 && Decode(b) == ValueOf(b)
  {
    hide Decode1, Decode2, Decode3, Decode4, Value2, Value3, Value4;
    LengthRange(b);
    hide LeadLength;
    if |b| == 1 {
      DecodedValue1(b[0]);
    } else if |b| == 2 {
      DecodedValue2(b[0], b[1]);
    } else if |b| == 3 {
      DecodedValue3(b[0], b[1], b[2]);
    } else {
      DecodedValue4(b[0], b[1], b[2], b[3]);
    }
  }

  /** The bytes to_utf8 writes add up to the code point. */
  lemma EncodedValue(cp: bv32)
    requires Encodable(cp)
    ensures 1 <= |Encode(cp)| <= 4 && ValueOf(Encode(cp)) == cp
  {
    hide Decode, Encode, LeadLength, ValueOf, Length;
    EncodedShape(cp);
    DecodeEncode(cp, []);
    assert Encode(cp) + [] == Encode(cp);
    DecodedValue(Encode(cp));
  }

  lemma DecodedValue1(b0: bv8)
    requires LeadLength(b0) == Some(1)
    ensures Decode1(b0) == b0 as bv32
  {}

  lemma DecodedValue2(b0: bv8, b1: bv8)
    requires LeadLength(b0) == Some(2) && LeadLength(b1) == Some(0)
    ensures Decode2(b0, b1) == Value2(b0, b1)
  {}

  lemma DecodedValue3(b0: bv8, b1: bv8, b2: bv8)
    requires LeadLength(b0) == Some(3) && LeadLength(b1) == Some(0) && LeadLength(b2) == Some(0)
    ensures Decode3(b0, b1, b2) == Value3(b0, b1, b2)
  {}

  lemma DecodedValue4(b0: bv8, b1: bv8, b2: bv8, b3: bv8)
    requires LeadLength(b0) == Some(4) && LeadLength(b1) == Some(0)
    requires LeadLength(b2) == Some(0) && LeadLength(b3) == Some(0)
    ensures Decode4(b0, b1, b2, b3) == Value4(b0, b1, b2, b3)
  {}

  // ----- surrogates

  /** The code points that UTF-8 forbids. */
  predicate Surrogate(cp: bv32) {
    0xD800 <= cp <= 0xDFFF
  }

  /** to_utf8 encodes surrogates like any other code point: to exactly the encodings that begin ED A0 or above. */
  lemma SurrogatesEncoded(cp: bv32)
    requires Encodable(cp)
    ensures Surrogate(cp) <==> Encode(cp)[0] == 0xED && Encode(cp)[1..] != [] && Encode(cp)[1] >= 0xA0
  {
    hide Length;
    SurrogateFirst(cp);
    if 0xD000 <= cp <= 0xDFFF {
      SurrogateSecond(cp);
    }
    hide First, Continuation;
  }

  lemma SurrogateFirst(cp: bv32)
    requires Encodable(cp)
    ensures First(cp) == 0xED <==> 0xD000 <= cp <= 0xDFFF
  {}

  lemma SurrogateSecond(cp: bv32)
    requires 0xD000 <= cp <= 0xDFFF
    ensures Continuation(cp, 1) >= 0xA0 <==> cp >= 0xD800
  {}

  /**
   to_cp reads these as surrogates: ED and a byte with bit 5 set, and the unnecessarily
   long F0, a byte with the low bits of 8D, and a byte with bit 5 set.
   */
  lemma SurrogatesDecoded(b: seq<bv8>)
    requires Announced(b)
    ensures Surrogate(Decode(b)) <==>
      || (|b| == 3 && b[0] == 0xED && b[1] & 0x20 != 0)
      || (|b| == 4 && b[0] == 0xF0 && b[1] & 0x3F == 0x0D && b[2] & 0x20 != 0)
  {
    hide Decode1, Decode2, Decode3, Decode4, Surrogate;
    LengthRange(b);
    hide LeadLength;
    if |b| == 1 {
      Surrogate1(b[0]);
    } else if |b| == 2 {
      Surrogate2(b[0], b[1]);
    } else if |b| == 3 {
      Surrogate3(b[0], b[1], b[2]);
    } else {
      Surrogate4(b[0], b[1], b[2], b[3]);
    }
  }

  /** Of the correctly marked sequences these are ED A0..BF xx and F0 8D A0..BF xx. */
  lemma SurrogatesMarked(b: seq<bv8>)
    requires WellMarked(b)
    ensures Surrogate(Decode(b)) <==>
      || (|b| == 3 && b[0] == 0xED && b[1] >= 0xA0)
      || (|b| == 4 && b[0] == 0xF0 && b[1] == 0x8D && b[2] >= 0xA0)
  {
    hide Surrogate, Decode;
    SurrogatesDecoded(b);
    if |b| == 3 {
      ContinuationBits(b[1]);
    } else if |b| == 4 {
      ContinuationBits(b[1]);
      ContinuationBits(b[2]);
    }
    hide LeadLength;
  }

  lemma ContinuationBits(b: bv8)
    requires LeadLength(b) == Some(0)
    ensures b & 0x20 != 0 <==> b >= 0xA0
    ensures b & 0x3F == 0x0D <==> b == 0x8D
  {}

  lemma Surrogate1(b0: bv8)
    ensures !Surrogate(Decode1(b0))
  {}

  lemma Surrogate2(b0: bv8, b1: bv8)
    ensures !Surrogate(Decode2(b0, b1))
  {}

  lemma Surrogate3(b0: bv8, b1: bv8, b2: bv8)
    requires LeadLength(b0) == Some(3)
    ensures Surrogate(Decode3(b0, b1, b2)) <==> b0 == 0xED && b1 & 0x20 != 0
  {}

  lemma Surrogate4(b0: bv8, b1: bv8, b2: bv8, b3: bv8)
    requires LeadLength(b0) == Some(4)
    ensures Surrogate(Decode4(b0, b1, b2, b3)) <==> b0 == 0xF0 && b1 & 0x3F == 0x0D && b2 & 0x20 != 0
  {}

  lemma Reencode1(b0: bv8, cp: bv32)
    requires LeadLength(b0) == Some(1) && cp == Decode1(b0) && cp <= 0x7F
    ensures First(cp) == b0
  {}

  lemma Reencode2(b0: bv8, b1: bv8, cp: bv32)
    requires LeadLength(b0) == Some(2) && LeadLength(b1) == Some(0)
    requires cp == Decode2(b0, b1) && 0x7F < cp <= 0x7FF
    ensures First(cp) == b0 && Continuation(cp, 0) == b1
  {}

  lemma Reencode3(b0: bv8, b1: bv8, b2: bv8, cp: bv32)
    requires LeadLength(b0) == Some(3) && LeadLength(b1) == Some(0) && LeadLength(b2) == Some(0)
    requires cp == Decode3(b0, b1, b2) && 0x7FF < cp <= 0xFFFF
    ensures First(cp) == b0 && Continuation(cp, 1) == b1 && Continuation(cp, 0) == b2
  {}

  lemma Reencode4(b0: bv8, b1: bv8, b2: bv8, b3: bv8, cp: bv32)
    requires LeadLength(b0) == Some(4) && LeadLength(b1) == Some(0)
    requires LeadLength(b2) == Some(0) && LeadLength(b3) == Some(0)
    requires cp == Decode4(b0, b1, b2, b3)
    requires 0xFFFF < cp <= 0x10_FFFF
    ensures First(cp) == b0 && Continuation(cp, 2) == b1 && Continuation(cp, 1) == b2 && Continuation(cp, 0) == b3
  {}
}
