/**
 The additive lagged-Fibonacci generator: a circular table with a front and a rear
 pointer, seeded by a multiplicative generator, and suspended in and resumed from
 state arrays whose first word packs the rear pointer and the generator type.
 */
module Random {
  import opened Words

  const MAX_TYPES: nat := 5

  type Kind = k: nat | k < 5

  function Degree(kind: Kind): nat {
    match kind
    case 0 => 0
    case 1 => 7
    case 2 => 15
    case 3 => 31
    case _ => 63
  }

  function Separation(kind: Kind): nat {
    if kind == 0 then 0 else if kind == 1 || kind == 3 then 3 else 1
  }

  /** Number of state words behind the header. */
  function Size(kind: Kind): (n: nat)
    ensures kind != 0 ==> n == Degree(kind) && 0 < Separation(kind) < n
    ensures 0 < n <= 63
  {
    if kind == 0 then 1 else Degree(kind)
  }

  // ----- one generator, as a value

  datatype Gen = Gen(kind: Kind, table: seq<int32>, rear: nat) {
    ghost predicate Valid() {
      |table| == Size(kind) && (if kind == 0 then rear == 0 else rear < Degree(kind))
    }

    function Front(): nat
      requires kind != 0
    {
      Slot(rear + Separation(kind), Degree(kind))
    }
  }

  function Congruential(x: int): int32 {
    (x * 1103515245 + 12345) % 0x8000_0000
  }

  function AddWords(x: int, y: int): int32 {
    Signed(x + y)
  }

  /** What random_r does to a generator: the new generator and the word it added in place. */
  function Draw(g: Gen): (r: (Gen, int32))
    requires g.Valid()
    ensures r.0.Valid() && r.0.kind == g.kind
  {
    if g.kind == 0 then
      var v := Congruential(g.table[0]);
      (Gen(0, [v], 0), v)
    else
      var v := AddWords(g.table[g.Front()], g.table[g.rear]);
      (Gen(g.kind, g.table[g.Front() := v], Slot(g.rear + 1, Degree(g.kind))), v)
  }

  /** The number handed to the caller: types 1 to 4 drop the least random bit. */
  function Output(kind: Kind, v: int32): (r: int32)
    ensures kind == 0 ==> r == v
  {
    if kind == 0 then v else (v / 2) % 0x8000_0000
  }

  function DrawN(g: Gen, n: nat): (g': Gen)
    requires g.Valid()
    ensures g'.Valid() && g'.kind == g.kind
    decreases n
  {
    if n == 0 then g else DrawN(Draw(g).0, n - 1)
  }

  /** The first n numbers a generator hands out. */
  function Stream(g: Gen, n: nat): (out: seq<int32>)
    requires g.Valid()
    ensures |out| == n
    decreases n
  {
    if n == 0 then [] else [Output(g.kind, Draw(g).1)] + Stream(Draw(g).0, n - 1)
  }

  lemma {:induction false} DrawNLast(g: Gen, n: nat)
    requires g.Valid()
    ensures DrawN(g, n + 1) == Draw(DrawN(g, n)).0
    ensures Stream(g, n + 1) == Stream(g, n) + [Output(g.kind, Draw(DrawN(g, n)).1)]
    decreases n
  {
    if n > 0 {
      DrawNLast(Draw(g).0, n - 1);
    }
  }

  // ----- the additive recurrence

  /** v[m] = v[m - degree] + v[m - separation], with the table, front slot first, as history. */
  function Lagged(g: Gen, m: nat): int32
    requires g.Valid() && g.kind != 0
    decreases m
  {
    var d := Degree(g.kind);
    if m < d then g.table[Slot(g.rear + Separation(g.kind) + m, d)]
    else AddWords(Lagged(g, m - d), Lagged(g, m - Separation(g.kind)))
  }

  /** Front and rear stay a fixed distance apart, so they never sit on the same slot or wrap together. */
  lemma PointersApart(g: Gen)
    requires g.Valid() && g.kind != 0
    ensures g.Front() != g.rear
    ensures g.Front() == Near(g.rear + Separation(g.kind), Degree(g.kind))
    ensures !(g.Front() == Degree(g.kind) - 1 && g.rear == Degree(g.kind) - 1)
    ensures Draw(g).0.Front() == Slot(g.Front() + 1, Degree(g.kind))
  {
    ModularPointers(Degree(g.kind), Separation(g.kind), g.rear);
  }

  lemma ModularPointers(d: nat, s: int, rear: int)
    requires 0 < s < d && 0 <= rear < d
    ensures Slot(rear + s, d) != rear
    ensures Slot(rear + s, d) == Near(rear + s, d)
    ensures Slot(Slot(rear + 1, d) + s, d) == Slot(Slot(rear + s, d) + 1, d)
  {
    hide Slot;
    SlotNear(rear + s, d);
    SlotNear(rear + 1, d);
    SlotNear(Near(rear + 1, d) + s, d);
    SlotNear(Near(rear + s, d) + 1, d);
  }

  /** One test for each pointer, the rear one only if the front one has not wrapped, is enough. */
  lemma PointersStep(d: nat, s: int, front: int, rear: int)
    requires 0 < s < d && 0 <= rear < d && front == Slot(rear + s, d)
    ensures Slot(front + 1, d) == if front + 1 >= d then 0 else front + 1
    ensures Slot(rear + 1, d) == if front + 1 < d && rear + 1 >= d then 0 else rear + 1
    ensures Slot(front + 1, d) == Slot(Slot(rear + 1, d) + s, d)
    ensures Slot(rear + 1, d) < d
  {
    ModularPointers(d, s, rear);
    hide Slot;
    NextSlot(front, d);
    NextSlot(rear, d);
  }

  /** Slots of the history window, seen from the rear pointer before and after a draw. */
  lemma WindowSlots(d: nat, s: int, rear: int, m: int)
    requires 0 < s < d && 0 <= rear < d && 0 <= m < d
    ensures Slot(Slot(rear + 1, d) + s + m, d) == Slot(rear + s + m + 1, d)
    ensures m < d - 1 <==> Slot(rear + s + m + 1, d) != Slot(rear + s, d)
    ensures Slot(rear + s + (d - s), d) == rear
  {
    hide Slot;
    SlotNear(rear + 1, d);
    SlotNear(Near(rear + 1, d) + s + m, d);
    SlotNear(rear + s + m + 1, d);
    SlotNear(rear + s, d);
    SlotNear(rear + s + (d - s), d);
  }

  /** One draw shifts the whole recurrence by one place. */
  lemma {:induction false} DrawShifts(g: Gen, m: nat)
    requires g.Valid() && g.kind != 0
    ensures Lagged(Draw(g).0, m) == Lagged(g, m + 1)
    ensures Draw(g).1 == Lagged(g, Degree(g.kind))
    decreases m
  {
    hide Degree, Separation, AddWords, Slot;
    var d, s := Degree(g.kind), Separation(g.kind);
    WindowSlots(d, s, g.rear, if m < d then m else 0);
    if m >= d {
      DrawShifts(g, m - d);
      DrawShifts(g, m - s);
    }
  }

  lemma {:induction false} DrawNShifts(g: Gen, n: nat, m: nat)
    requires g.Valid() && g.kind != 0
    ensures Lagged(DrawN(g, n), m) == Lagged(g, n + m)
    ensures DrawN(g, n).rear == Slot(g.rear + n, Degree(g.kind))
    decreases n
  {
    hide Degree, Separation, AddWords, Lagged, Slot;
    if n == 0 {
      SlotNear(g.rear, Degree(g.kind));
    } else {
      DrawNShifts(Draw(g).0, n - 1, m);
      DrawShifts(g, n - 1 + m);
      SlotAdd(g.rear + 1, n - 1, Degree(g.kind));
    }
  }

  /** Draw number n adds v[degree + n] in place and hands it out without its low bit. */
  lemma DrawsFollowRecurrence(g: Gen, n: nat)
    requires g.Valid() && g.kind != 0
    ensures Draw(DrawN(g, n)).1 == Lagged(g, Degree(g.kind) + n)
    ensures AllButLowBit(Stream(g, n + 1)[n], Lagged(g, Degree(g.kind) + n))
  {
    DrawShifts(DrawN(g, n), 0);
    DrawNShifts(g, n, Degree(g.kind));
    DrawNLast(g, n);
    OutputDropsLowBit(g.kind, Lagged(g, Degree(g.kind) + n));
  }

  // ----- the numbers handed out

  /** A number that is the word without its lowest bit. */
  ghost predicate AllButLowBit(r: int, w: int32) {
    0 <= r < 0x8000_0000 && Unsigned(w) == 2 * r + Unsigned(w) % 2
  }

  lemma OutputDropsLowBit(kind: Kind, w: int32)
    requires kind != 0
    ensures AllButLowBit(Output(kind, w), w)
  {
    var q: int := w / 2;
    assert w == 2 * q + w % 2;
    if w < 0 {
      ModUnique(w, TWO_32, -1, w + TWO_32);
      ModUnique(q, 0x8000_0000, -1, q + 0x8000_0000);
      ModUnique(w + TWO_32, 2, q + 0x8000_0000, w % 2);
    } else {
      ModUnique(w, TWO_32, 0, w);
      ModUnique(q, 0x8000_0000, 0, q);
    }
  }

  lemma SignedBits(x: int)
    ensures Unsigned(Signed(x)) == Unsigned(x)
  {
    var y := x + 0x8000_0000;
    assert y == y / TWO_32 * TWO_32 + y % TWO_32;
    ModMultiple(Signed(x), TWO_32, y / TWO_32);
    assert x == Signed(x) + y / TWO_32 * TWO_32;
  }

  /** Words are added modulo 2^32. */
  lemma AddWordsBits(x: int32, y: int32)
    ensures Unsigned(AddWords(x, y)) == (Unsigned(x) + Unsigned(y)) % TWO_32
  {
    SignedBits(x + y);
    ModAdd(x, y, TWO_32);
    ModAdd(y, Unsigned(x), TWO_32);
  }

  /** The trinomials: the lags of the recurrence for each type. */
  lemma Trinomials(g: Gen, m: nat)
    requires g.Valid()
    ensures var v := (i: nat) requires g.kind != 0 => Unsigned(Lagged(g, i));
      && (g.kind == 1 ==> v(m + 7) == (v(m) + v(m + 4)) % TWO_32)
      && (g.kind == 2 ==> v(m + 15) == (v(m) + v(m + 14)) % TWO_32)
      && (g.kind == 3 ==> v(m + 31) == (v(m) + v(m + 28)) % TWO_32)
      && (g.kind == 4 ==> v(m + 63) == (v(m) + v(m + 62)) % TWO_32)
  {
    hide Lagged, AddWords, Unsigned, Gen.Valid;
    if g.kind != 0 {
      var d, s := Degree(g.kind), Separation(g.kind);
      AddWordsBits(Lagged(g, m), Lagged(g, m + d - s));
      LaggedStep(g, m);
    }
  }

  lemma LaggedStep(g: Gen, m: nat)
    requires g.Valid() && g.kind != 0
    ensures Separation(g.kind) < Degree(g.kind)
    ensures Lagged(g, m + Degree(g.kind)) == AddWords(Lagged(g, m), Lagged(g, m + Degree(g.kind) - Separation(g.kind)))
  {
    hide AddWords;
  }

  // ----- seeding

  const M := 2147483647

  function Power(n: nat): nat {
    if n == 0 then 1 else 16807 * Power(n - 1)
  }

  /** Table word i before the warm-up draws: 16807^i * seed modulo 2^31 - 1. */
  function SeedWord(seed: int32, i: nat): (w: int32)
    ensures i > 0 ==> 0 <= w < M
  {
    if i == 0 then seed else (Power(i) * seed) % M
  }

  lemma SeedWordFirst(seed: int32)
    ensures SeedWord(seed, 0) == seed
  {}

  /** The multiplication step of the seeding loop, split so that it stays in 32 bits. */
  function Schrage(word: int32): int {
    16807 * TruncMod(word, 127773) - 2836 * TruncDiv(word, 127773)
  }

  /** No intermediate value of the step overflows, and it multiplies by 16807 modulo 2^31 - 1. */
  lemma SchrageExact(word: int32)
    ensures -0x8000_0000 <= 16807 * TruncMod(word, 127773) < 0x8000_0000
    ensures -0x8000_0000 <= 2836 * TruncDiv(word, 127773) < 0x8000_0000
    ensures -M < Schrage(word) < M
    ensures (if Schrage(word) < 0 then Schrage(word) + M else Schrage(word)) == (16807 * word) % M
  {
    var hi, lo := TruncDiv(word, 127773), TruncMod(word, 127773);
    assert word == 127773 * hi + lo;
    assert -127773 < lo < 127773 && (word >= 0 ==> lo >= 0) && (word <= 0 ==> lo <= 0);
    assert (word >= 0 ==> 0 <= hi <= 16807) && (word <= 0 ==> -16807 <= hi <= 0);
    assert 16807 * word == hi * M + Schrage(word);
    if Schrage(word) < 0 {
      ModUnique(16807 * word, M, hi - 1, Schrage(word) + M);
    } else {
      ModUnique(16807 * word, M, hi, Schrage(word));
    }
  }

  lemma SeedWordStep(seed: int32, i: nat)
    ensures SeedWord(seed, i + 1) == (16807 * SeedWord(seed, i)) % M
  {
    if i == 0 {
      assert Power(1) == 16807;
    } else {
      ScaleStep(Power(i), seed);
    }
  }

  /** One pass of the seeding loop, in the arithmetic the loop uses. */
  lemma SeedLoopStep(seed: int32, i: nat, word: int32)
    requires i > 0 && word == SeedWord(seed, i - 1)
    ensures -0x8000_0000 <= Schrage(word) < 0x8000_0000
    ensures SeedWord(seed, i) == if Schrage(word) < 0 then Schrage(word) + M else Schrage(word)
  {
    hide Schrage, SeedWord;
    SchrageExact(word);
    SeedWordStep(seed, i - 1);
  }

  lemma ScaleStep(p: nat, seed: int)
    ensures ((16807 * p) * seed) % M == (16807 * ((p * seed) % M)) % M
  {
    var x := p * seed;
    assert (16807 * p) * seed == 16807 * x;
    ModScale(16807, x, M);
  }

  /** 16807 is invertible modulo 2^31 - 1, so the loop never turns a live word into zero. */
  lemma NeverBecomesZero(word: int)
    ensures (16807 * word) % M == 0 <==> word % M == 0
  {
    if (16807 * word) % M == 0 {
      var q := (16807 * word) / M;
      assert 16807 * word == q * M;
      InverseOf16807(word, q);
    } else if word % M == 0 {
      var q := word / M;
      assert 16807 * word == (16807 * q) * M + 0;
      ModUnique(16807 * word, M, 16807 * q, 0);
    }
  }

  lemma InverseOf16807(word: int, q: int)
    requires 16807 * word == q * M
    ensures word % M == 0
  {
    // 1407677000 is the inverse: 16807 * 1407677000 == 11017 * M + 1
    var t := 1407677000 * q - 11017 * word;
    assert word == t * M + 0;
    ModUnique(word, M, t, 0);
  }

  /** The table the seeding loop fills, before warm-up. */
  function SeedTable(kind: Kind, seed: int32): (t: seq<int32>)
    ensures |t| == Size(kind)
    ensures kind == 0 ==> t == [seed]
  {
    seq(Size(kind), i requires 0 <= i < Size(kind) => SeedWord(seed, i))
  }

  /** A seed of zero is replaced by one; the word is then read as a signed number. */
  function EffectiveSeed(seed: uint32): (s: int32)
    ensures Unsigned(s) == if seed == 0 then 1 else seed
  {
    SignedBits(seed);
    if seed == 0 then 1 else Signed(seed)
  }

  /** The generator srandom_r leaves behind. */
  function Seeded(kind: Kind, seed: uint32): (g: Gen)
    ensures g.Valid() && g.kind == kind
  {
    var g := Gen(kind, SeedTable(kind, EffectiveSeed(seed)), 0);
    if kind == 0 then g else DrawN(g, 10 * Degree(kind))
  }

  /** The warm-up draws bring both pointers back to where they started. */
  lemma WarmUpReturns(kind: Kind, seed: uint32)
    ensures Seeded(kind, seed).rear == 0
    ensures kind != 0 ==> Seeded(kind, seed).Front() == Separation(kind)
  {
    hide Degree, Separation, SeedTable, EffectiveSeed, Draw, DrawN;
    if kind != 0 {
      var d := Degree(kind);
      DrawNShifts(Gen(kind, SeedTable(kind, EffectiveSeed(seed)), 0), 10 * d, 0);
      ModUnique(10 * d, d, 10, 0);
      SlotNear(Separation(kind), d);
    }
  }

  /**
   The words the seeding loop produces are all live, except for the two seeds that
   are a multiple of 2^31 - 1: those fill the table with zeros behind the first word.
   */
  lemma {:induction false} SeedWordsLive(seed: uint32, i: nat)
    requires i > 0
    ensures SeedWord(EffectiveSeed(seed), i) != 0 <==> seed != 2147483647 && seed != 2147483649
    decreases i
  {
    hide SeedWord, EffectiveSeed;
    var s := EffectiveSeed(seed);
    SeedWordStep(s, i - 1);
    NeverBecomesZero(SeedWord(s, i - 1));
    if i == 1 {
      SeedWordFirst(s);
      DeadSeeds(seed);
    } else {
      SeedWordsLive(seed, i - 1);
    }
  }

  lemma DeadSeeds(seed: uint32)
    ensures EffectiveSeed(seed) % M == 0 <==> seed == 2147483647 || seed == 2147483649
  {}

  /**
   From seed to numbers: number n of a freshly seeded generator is the value of the
   recurrence that 11 rounds of the table and n more steps lead to, without its low bit.
   */
  lemma SeededStream(kind: Kind, seed: uint32, n: nat)
    requires kind != 0
    ensures var g := Gen(kind, SeedTable(kind, EffectiveSeed(seed)), 0);
            var first := if kind == 1 then 77 else if kind == 2 then 165 else if kind == 3 then 341 else 693;
            AllButLowBit(Stream(Seeded(kind, seed), n + 1)[n], Lagged(g, first + n))
  {
    hide SeedTable, EffectiveSeed, Draw, DrawN, Lagged, AllButLowBit, Stream;
    var g := Gen(kind, SeedTable(kind, EffectiveSeed(seed)), 0);
    DrawsFollowRecurrence(Seeded(kind, seed), n);
    DrawNShifts(g, 10 * Degree(kind), Degree(kind) + n);
  }

  // ----- the trivial generator in closed form

  function PowerOf(a: nat, n: nat): nat {
    if n == 0 then 1 else a * PowerOf(a, n - 1)
  }

  /** 1 + a + ... + a^(n - 1) */
  function GeometricSum(a: nat, n: nat): nat {
    if n == 0 then 0 else a * GeometricSum(a, n - 1) + 1
  }

  function Affine(x: int, n: nat): int {
    PowerOf(1103515245, n) * x + GeometricSum(1103515245, n) * 12345
  }

  lemma AffineStep(x: int, n: nat)
    ensures Affine(x, n + 1) == 1103515245 * Affine(x, n) + 12345
  {
    var a := 1103515245;
    var p, s := PowerOf(a, n), GeometricSum(a, n);
    assert PowerOf(a, n + 1) == a * p && GeometricSum(a, n + 1) == a * s + 1;
    assert (a * p) * x == a * (p * x);
    assert (a * s + 1) * 12345 == a * (s * 12345) + 12345;
  }

  lemma CongruentialOfRemainder(y: int)
    ensures Congruential(y % 0x8000_0000) == Congruential(y)
  {
    var a, m := 1103515245, 0x8000_0000;
    ModScale(a, y, m);
    ModAdd(a * (y % m), 12345, m);
    ModAdd(a * y, 12345, m);
  }

  /** Type 0: number n is a^(n+1) x + 12345 (1 + a + ... + a^n) modulo 2^31. */
  lemma {:induction false} CongruentialStream(g: Gen, n: nat)
    requires g.Valid() && g.kind == 0
    ensures Stream(g, n + 1)[n] == Draw(DrawN(g, n)).1 == Affine(g.table[0], n + 1) % 0x8000_0000
    decreases n
  {
    hide Congruential, Affine;
    DrawNLast(g, n);
    AffineStep(g.table[0], n);
    CongruentialMeans(Affine(g.table[0], n));
    if n == 0 {
      AffineZero(g.table[0]);
    } else {
      CongruentialStream(g, n - 1);
      DrawNLast(g, n - 1);
      CongruentialOfRemainder(Affine(g.table[0], n));
    }
  }

  lemma AffineZero(x: int)
    ensures Affine(x, 0) == x
  {}

  lemma CongruentialMeans(y: int)
    ensures Congruential(y) == (1103515245 * y + 12345) % 0x8000_0000
  {}

  // ----- state arrays: word 0 is the header, the table follows

  function Header(g: Gen): (h: int32)
    requires g.Valid()
    ensures h >= 0
  {
    if g.kind == 0 then 0 else MAX_TYPES * g.rear + g.kind
  }

  function WithHeader(words: seq<int32>, g: Gen): (w: seq<int32>)
    requires words != [] && g.Valid()
    ensures |w| == |words| && w[0] == Header(g) && w[1..] == words[1..]
  {
    words[0 := Header(g)]
  }

  /** A header that describes a generator the array is large enough for. */
  ghost predicate Suspended(words: seq<int32>) {
    && words != [] && (words[0] >= 0 || words[0] % MAX_TYPES == 0)
    && var kind: Kind := words[0] % MAX_TYPES;
    && |words| > Size(kind)
    && (kind != 0 ==> words[0] / MAX_TYPES < Degree(kind))
  }

  /** The generator a header describes. */
  ghost function Resumed(words: seq<int32>): (g: Gen)
    requires Suspended(words)
    ensures g.Valid()
  {
    var kind: Kind := words[0] % MAX_TYPES;
    Gen(kind, words[1..1 + Size(kind)], if kind == 0 then 0 else words[0] / MAX_TYPES)
  }

  /** The header packs type and rear pointer without loss. */
  lemma HeaderRoundTrip(g: Gen, words: seq<int32>)
    requires g.Valid() && |words| > Size(g.kind)
    requires words[0] == Header(g) && words[1..1 + Size(g.kind)] == g.table
    ensures Suspended(words) && Resumed(words) == g
  {
    if g.kind != 0 {
      ModUnique(words[0], MAX_TYPES, g.rear, g.kind);
    }
  }

  /** The array with the generator's table in place, header and spare words untouched. */
  function WithTable(words: seq<int32>, g: Gen): (w: seq<int32>)
    requires |words| > |g.table|
    ensures |w| == |words| && w[0] == words[0] && w[1..1 + |g.table|] == g.table
  {
    words[..1] + g.table + words[1 + |g.table|..]
  }

  lemma TableInPlace(words: seq<int32>, g: Gen)
    requires |words| > |g.table| && words[1..1 + |g.table|] == g.table
    ensures WithTable(words, g) == words
  {}

  /** Of two tables put in place, the second stays. */
  lemma TableTwice(words: seq<int32>, g: Gen, h: Gen)
    requires |words| > |g.table| && |g.table| == |h.table|
    ensures WithTable(WithTable(words, g), h) == WithTable(words, h)
  {}

  /** The generator on an array of words, given the registers. */
  function GenIn(words: seq<int32>, kind: Kind, rear: nat): Gen
    requires |words| > Size(kind)
  {
    Gen(kind, words[1..1 + Size(kind)], rear)
  }

  /** What a draw from a table generator does to the array. */
  lemma DrawInPlace(words: seq<int32>, kind: Kind, front: nat, rear: nat)
    requires kind != 0 && |words| > Size(kind) && rear < Degree(kind)
    requires front == Slot(rear + Separation(kind), Degree(kind))
    ensures var val := AddWords(words[1 + front], words[1 + rear]);
            var words' := words[1 + front := val];
            var g := GenIn(words', kind, Slot(rear + 1, Degree(kind)));
            Draw(GenIn(words, kind, rear)) == (g, val) && words' == WithTable(words, g)
  {
    hide Degree, Separation, Slot, AddWords;
    var val := AddWords(words[1 + front], words[1 + rear]);
    var n := Size(kind);
    assert words[1 + front := val][1..1 + n] == words[1..1 + n][front := val];
  }

  lemma CongruentialInPlace(words: seq<int32>)
    requires |words| > 1
    ensures var val := Congruential(words[1]);
            var words' := words[1 := val];
            var g := GenIn(words', 0, 0);
            Draw(GenIn(words, 0, 0)) == (g, val) && words' == WithTable(words, g)
  {
    hide Congruential;
    assert words[1 := Congruential(words[1])][1..2] == [Congruential(words[1])];
  }

  lemma CongruentialOutput(v: int32)
    ensures Output(0, v) == v
  {}

  class RandomData {
    // The array handed to initstate_r or setstate_r. The source points one word
    // past its start; the pointers below are offsets from there.
    var words: array<int32>
    var fptr: int
    var rptr: int
    var endPtr: int
    var randType: int
    var randDeg: int
    var randSep: int

    /** A type, the constants that belong to it, and an array it fits in. */
    ghost predicate Configured()
      reads this
    {
      && 0 <= randType < MAX_TYPES
      && words.Length > Size(randType)
      && randDeg == Degree(randType) && randSep == Separation(randType) && endPtr == randDeg
    }

    /** What initstate_r establishes and every later call keeps. */
    ghost predicate Valid()
      reads this, words
    {
      && Configured()
      && (randType != 0 ==> 0 <= rptr < randDeg && fptr == Slot(rptr + randSep, randDeg))
    }

    ghost function View(): (g: Gen)
      requires Valid()
      reads this, words
      ensures g.Valid() && g.kind == randType
    {
      GenIn(words[..], randType, if randType == 0 then 0 else rptr)
    }

    /** random_r */
    method Random() returns (result: int32)
      requires Valid()
      modifies this`fptr, this`rptr, words
      ensures Valid()
      ensures View() == Draw(old(View())).0
      ensures result == Output(randType, Draw(old(View())).1)
      ensures words[..] == WithTable(old(words[..]), View())
      ensures randType != 0 ==> AllButLowBit(result, words[1 + old(fptr)])
    {
      hide Valid, View, Draw, Output, WithTable, AllButLowBit;
      if randType == 0 {
        result := RandomCongruential();
      } else {
        result := RandomAdditive();
      }
    }

    method RandomCongruential() returns (result: int32)
      requires Valid() && randType == 0
      modifies words
      ensures Valid()
      ensures View() == Draw(old(View())).0
      ensures result == Output(randType, Draw(old(View())).1)
      ensures words[..] == WithTable(old(words[..]), View())
    {
      hide Degree, Separation, Congruential, Draw, WithTable, Output;
      ghost var before := words[..];
      CongruentialInPlace(before);
      var val := Congruential(words[1]);
      words[1] := val;
      assert words[..] == before[1 := val];
      CongruentialOutput(val);
      result := val;
    }

    method RandomAdditive() returns (result: int32)
      requires Valid() && randType != 0
      modifies this`fptr, this`rptr, words
      ensures Valid()
      ensures View() == Draw(old(View())).0
      ensures result == Output(randType, Draw(old(View())).1)
      ensures words[..] == WithTable(old(words[..]), View())
      ensures AllButLowBit(result, words[1 + old(fptr)])
    {
      hide Degree, Separation, AddWords, Slot, Draw, WithTable, Output, AllButLowBit;
      ghost var before := words[..];
      DrawInPlace(before, randType, fptr, rptr);
      var val := AddWords(words[1 + fptr], words[1 + rptr]);
      words[1 + fptr] := val;
      assert words[..] == before[1 + fptr := val];
      result := Output(randType, val);
      OutputDropsLowBit(randType, val);
      AdvancePointers();
    }

    /** The pointer updates of random_r: the rear one is tested only if the front one has not wrapped. */
    method AdvancePointers()
      requires Valid() && randType != 0
      modifies this`fptr, this`rptr
      ensures Valid() && rptr == Slot(old(rptr) + 1, randDeg)
    {
      hide Degree, Separation, Slot;
      PointersStep(randDeg, randSep, fptr, rptr);
      fptr := fptr + 1;
      if fptr >= endPtr {
        fptr := 0;
        rptr := rptr + 1;
      } else {
        rptr := rptr + 1;
        if rptr >= endPtr {
          rptr := 0;
        }
      }
    }

    /** The header word: the type, with the rear pointer multiplexed in. */
    method PackPointers()
      requires Valid()
      modifies words
      ensures Valid() && View() == old(View())
      ensures words[..] == WithHeader(old(words[..]), View())
      ensures words[0] == if randType == 0 then 0 else 5 * rptr + randType
    {
      hide Degree, Separation, Slot;
      ghost var before := words[..];
      words[0] := 0;
      if randType != 0 {
        words[0] := rptr * MAX_TYPES + randType;
      }
      assert words[..] == before[0 := words[0]];
      assert words[..][1..1 + Size(randType)] == before[1..1 + Size(randType)];
    }

    /** srandom_r: true for success. A type outside the five known ones is refused. */
    method Srandom(seed: uint32) returns (ok: bool)
      requires 0 <= randType < MAX_TYPES ==> Configured()
      modifies this`fptr, this`rptr, words
      ensures ok <==> 0 <= randType < MAX_TYPES
      ensures ok ==> Valid() && View() == Seeded(randType, seed) && words[0] == old(words[0])
      ensures !ok ==> unchanged(this) && unchanged(words)
    {
      if !(0 <= randType < MAX_TYPES) {
        return false;
      }
      hide Degree, Separation, Slot, Draw, SeedWord, SeedTable;
      var s := EffectiveSeed(seed);
      if randType == 0 {
        words[1] := s;
        SeedWordFirst(s);
        assert words[1..2] == [s];
        return true;
      }
      FillTable(s);
      fptr := randSep;
      rptr := 0;
      SlotNear(randSep, randDeg);
      WarmUp(randDeg * 10);
      return true;
    }

    /** The seeding loop of srandom_r. */
    method FillTable(s: int32)
      requires Configured() && randType != 0
      modifies words
      ensures words[1..1 + randDeg] == SeedTable(randType, s) && words[0] == old(words[0])
    {
      hide Degree, Separation, SeedWord, TruncDiv, TruncMod;
      SeedWordFirst(s);
      words[1] := s;
      var word: int32 := s;
      for i := 1 to randDeg
        invariant word == SeedWord(s, i - 1)
        invariant words[0] == old(words[0])
        invariant forall j :: 0 <= j < i ==> words[1 + j] == SeedWord(s, j)
      {
        SeedLoopStep(s, i, word);
        var hi := TruncDiv(word, 127773);
        var lo := TruncMod(word, 127773);
        word := 16807 * lo - 2836 * hi;
        if word < 0 {
          word := word + M;
        }
        words[1 + i] := word;
      }
    }

    /** The draws srandom_r throws away. */
    method WarmUp(n: nat)
      requires Valid()
      modifies this`fptr, this`rptr, words
      ensures Valid() && View() == DrawN(old(View()), n)
      ensures words[..] == WithTable(old(words[..]), View())
    {
      hide Degree, Separation, Slot, Draw, WithTable;
      ghost var g, before := View(), words[..];
      TableInPlace(before, g);
      var kc := n;
      while kc > 0
        invariant 0 <= kc && Valid()
        invariant words[..] == WithTable(before, View())
        invariant DrawN(View(), kc) == DrawN(g, n)
      {
        ghost var g1 := View();
        kc := kc - 1;
        var discard := Random();
        TableTwice(before, g1, View());
      }
    }

    /** initstate_r: true for success. The type is the largest that n bytes can hold. */
    method Initstate(seed: uint32, argState: array<int32>, n: nat) returns (ok: bool)
      requires argState.Length * 4 >= n
      modifies this, argState
      ensures ok <==> n >= 8
      ensures ok ==> words == argState && Valid() && randType == KindFor(n)
                     && View() == Seeded(randType, seed) && words[0] == Header(View())
      ensures !ok ==> unchanged(this) && unchanged(argState)
      ensures old(words) != argState ==> old(words)[..] == old(words[..])
    {
      if n < 8 {
        return false;
      }
      hide Degree, Separation, Slot, Seeded, SeedTable, Draw, KindFor, View, WithHeader;
      var kind := KindFor(n);
      randType := kind;
      randSep := Separation(kind);
      randDeg := Degree(kind);
      words := argState;
      endPtr := randDeg;
      ok := Srandom(seed);
      WarmUpReturns(kind, seed);
      PackPointers();
    }

    /**
     setstate_r: true for success. The pointers of the current array are packed into
     its header first, whatever happens next; then those of the new array are rebuilt.
     The result is usable exactly when the new header describes a generator that fits.
     */
    method Setstate(argState: array<int32>) returns (ok: bool)
      requires Valid() && argState.Length > 0
      modifies this, words
      ensures ok <==> argState == old(words) || TruncMod(old(argState[0]), MAX_TYPES) >= 0
      ensures old(words)[..] == WithHeader(old(words[..]), old(View()))
      ensures ok ==> words == argState && (Valid() <==> Suspended(argState[..]))
      ensures ok && Suspended(argState[..]) ==> View() == Resumed(argState[..])
      ensures !ok ==> unchanged(this)
    {
      hide Degree, Separation, Slot, Resumed, Suspended, TruncMod, TruncDiv, WithHeader, Header;
      ghost var g := View();
      PackPointers();
      HeaderRoundTrip(g, words[..]);
      var kind := TruncMod(argState[0], MAX_TYPES);
      DecodeHeader(argState[..]);
      if kind < 0 || kind > 4 {
        return false;
      }
      UseState(argState, kind);
      return true;
    }

    /** The part of setstate_r that sets the registers. */
    method UseState(argState: array<int32>, kind: Kind)
      requires argState.Length > 0
      modifies this
      ensures words == argState && randType == kind
      ensures randDeg == endPtr == Degree(kind) && randSep == Separation(kind)
      ensures kind != 0 ==> randDeg > 0 && rptr == TruncDiv(argState[0], MAX_TYPES)
      ensures kind != 0 ==> randDeg > 0 && fptr == Slot(rptr + randSep, randDeg)
    {
      hide Degree, Separation, Slot, TruncDiv;
      randDeg := Degree(kind);
      randSep := Separation(kind);
      randType := kind;
      if kind != 0 {
        assert Separation(kind) < Size(kind) == randDeg;
        var rear := TruncDiv(argState[0], MAX_TYPES);
        rptr := rear;
        fptr := Slot(rear + randSep, randDeg);
      }
      words := argState;
      endPtr := randDeg;
    }
  }

  /** C division takes a header apart the way it was put together. */
  lemma DecodeHeader(words: seq<int32>)
    requires words != []
    ensures var kind, rear := TruncMod(words[0], MAX_TYPES), TruncDiv(words[0], MAX_TYPES);
      && -5 < kind < 5 && (kind > 0 ==> rear >= 0)
      && (Suspended(words) <==> 0 <= kind && |words| > Size(kind) && (kind != 0 ==> rear < Degree(kind)))
      && (Suspended(words) ==> Resumed(words) == GenIn(words, kind, if kind == 0 then 0 else rear))
  {
    hide Degree;
    HeaderParts(words[0]);
  }

  lemma HeaderParts(h: int32)
    ensures var kind, rear := TruncMod(h, MAX_TYPES), TruncDiv(h, MAX_TYPES);
      if h >= 0 then kind == h % MAX_TYPES && rear == h / MAX_TYPES
      else -5 < kind <= 0 && (kind == 0 <==> h % MAX_TYPES == 0)
  {
    if h < 0 {
      var x: int := h;
      var q, r := -x / MAX_TYPES, -x % MAX_TYPES;
      assert x == -q * MAX_TYPES - r;
      if r == 0 {
        ModUnique(h, MAX_TYPES, -q, 0);
      } else {
        ModUnique(h, MAX_TYPES, -q - 1, MAX_TYPES - r);
      }
    }
  }

  /** The largest generator type that fits in n bytes of state. */
  function KindFor(n: nat): (kind: Kind)
    requires n >= 8
    ensures 4 * (1 + Size(kind)) <= n
    ensures forall k: Kind :: k > kind ==> n < 4 * (1 + Size(k))
  {
    if n >= 128 then (if n < 256 then 3 else 4)
    else if n < 32 then 0
    else if n < 64 then 1 else 2
  }
}
