/** Machine integers, and the arithmetic of remainders they need. */
module Words {

  const TWO_32: nat := 0x1_0000_0000

  type uint32 = x: int | 0 <= x < 0x1_0000_0000
  type int32 = x: int | -0x8000_0000 <= x < 0x8000_0000
  type uint8 = x: int | 0 <= x < 0x100

  function Unsigned(x: int): uint32 {
    x % TWO_32
  }

  /** The signed 32-bit value with the same low 32 bits as x. */
  function Signed(x: int): int32 {
    (x + 0x8000_0000) % TWO_32 - 0x8000_0000
  }

  /** C division of signed operands: the quotient is truncated toward zero. */
  function TruncDiv(x: int, d: nat): int
    requires d > 0
  {
    if x >= 0 then x / d else -((-x) / d)
  }

  function TruncMod(x: int, d: nat): int
    requires d > 0
  {
    x - d * TruncDiv(x, d)
  }

  lemma MultipleAtLeast(k: int, d: int)
    requires k >= 1 && d > 0
    ensures k * d >= d
  {}

  /** The only multiple of d strictly between -d and d is zero. */
  lemma SmallMultiple(k: int, d: int)
    requires -d < k * d < d
    ensures k == 0
  {
    if k >= 1 {
      MultipleAtLeast(k, d);
    } else if k <= -1 {
      MultipleAtLeast(-k, d);
    }
  }

  lemma ModUnique(x: int, d: int, q: int, r: int)
    requires 0 <= r < d && x == q * d + r
    ensures x % d == r && x / d == q
  {
    var q' := x / d;
    assert x == q' * d + x % d;
    assert (q - q') * d == q * d - q' * d;
    SmallMultiple(q - q', d);
  }

  /** The remainder of a number within two divisors of zero, without dividing. */
  function Near(x: int, d: int): int {
    if x < 0 then x + d else if x < d then x else if x < 2 * d then x - d else x - 2 * d
  }

  lemma ModNear(x: int, d: int)
    requires d > 0 && -d <= x < 3 * d
    ensures x % d == Near(x, d)
  {
    ModUnique(x, d, if x < 0 then -1 else if x < d then 0 else if x < 2 * d then 1 else 2, Near(x, d));
  }

  /** Adding a multiple of the divisor changes no remainder. */
  lemma ModMultiple(x: int, d: int, k: int)
    requires d > 0
    ensures (x + k * d) % d == x % d
  {
    assert x + k * d == (x / d + k) * d + x % d;
    ModUnique(x + k * d, d, x / d + k, x % d);
  }

  lemma ModScale(c: int, x: int, d: int)
    requires d > 0
    ensures (c * (x % d)) % d == (c * x) % d
  {
    var q, r := x / d, x % d;
    assert x == q * d + r;
    assert c * (q * d) == (c * q) * d;
    assert c * x == c * r + (c * q) * d;
    ModMultiple(c * r, d, c * q);
  }

  /** Remainders add up. */
  lemma ModAdd(x: int, y: int, d: int)
    requires d > 0
    ensures (x % d + y) % d == (x + y) % d
  {
    assert x == x / d * d + x % d;
    ModMultiple(x % d + y, d, x / d);
  }

  /** Numbers closer together than d have different remainders. */
  lemma ModApart(x: int, y: int, d: int)
    requires x < y < x + d
    ensures x % d != y % d
  {
    if x % d == y % d {
      var p, q := x / d, y / d;
      assert x == p * d + x % d && y == q * d + y % d;
      assert (q - p) * d == q * d - p * d;
      SmallMultiple(q - p, d);
    }
  }

  // ----- 32-bit counters

  lemma CountUp(n: nat)
    ensures (n % TWO_32 + 1) % TWO_32 == (n + 1) % TWO_32
  {}

  lemma CountDown(n: nat)
    requires n > 0
    ensures (n % TWO_32 - 1) % TWO_32 == (n - 1) % TWO_32
  {}

  // ----- circular tables

  /** A position in a circular table of d entries. */
  function Slot(x: int, d: nat): (k: nat)
    requires d > 0
    ensures k < d
  {
    x % d
  }

  lemma SlotNear(x: int, d: nat)
    requires d > 0 && 0 <= x < 3 * d
    ensures Slot(x, d) == Near(x, d)
  {
    ModNear(x, d);
  }

  lemma SlotAdd(x: int, y: int, d: nat)
    requires d > 0
    ensures Slot(Slot(x, d) + y, d) == Slot(x + y, d)
  {
    ModAdd(x, y, d);
  }

  lemma NextSlot(p: int, d: nat)
    requires 0 <= p < d
    ensures Slot(p + 1, d) == if p + 1 >= d then 0 else p + 1
  {
    SlotNear(p + 1, d);
  }

  // ----- words as bytes, least significant first

  function LittleEndian(b: seq<uint8>): (v: uint32)
    requires |b| == 4
  {
    b[0] as int + 0x100 * b[1] as int + 0x1_0000 * b[2] as int + 0x100_0000 * b[3] as int
  }

  function Bytes(v: uint32): (b: seq<uint8>)
    ensures |b| == 4
  {
    [v % 0x100, v / 0x100 % 0x100, v / 0x1_0000 % 0x100, v / 0x100_0000]
  }

  /** The bytes of a word are its digits to base 256, the lowest first. */
  lemma BytesRoundTrip(v: uint32)
    ensures LittleEndian(Bytes(v)) == v
    ensures var b := Bytes(v);
            v == b[0] as int + 0x100 * b[1] as int + 0x1_0000 * b[2] as int + 0x100_0000 * b[3] as int
  {
    var q1: int := v / 0x100;
    var q2 := q1 / 0x100;
    var q3 := q2 / 0x100;
    ModUnique(v, 0x1_0000, q2, q1 % 0x100 * 0x100 + v % 0x100);
    ModUnique(v, 0x100_0000, q3, q2 % 0x100 * 0x1_0000 + q1 % 0x100 * 0x100 + v % 0x100);
  }
}
