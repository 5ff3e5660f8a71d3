/**
 Many state arrays, one of them current, the others suspended. setstate_r switches
 between them; every array behaves as if it had been alone.
 */
module RandomArrays {
  import opened Words
  import opened Random

  /** `kind` and `rear` are the registers of the generator that runs on `arrays[cur]`. */
  datatype Pool = Pool(arrays: seq<seq<int32>>, cur: nat, kind: Kind, rear: nat) {
    ghost predicate Valid() {
      && cur < |arrays|
      && |arrays[cur]| > Size(kind)
      && Live().Valid()
      && forall i :: 0 <= i < |arrays| && i != cur ==> Suspended(arrays[i])
    }

    function Live(): Gen
      requires cur < |arrays| && |arrays[cur]| > Size(kind)
    {
      Gen(kind, arrays[cur][1..1 + Size(kind)], rear)
    }

    /** The generator of array i, running or suspended. */
    ghost function GenOf(i: nat): (g: Gen)
      requires Valid() && i < |arrays|
      ensures g.Valid()
    {
      if i == cur then Live() else Resumed(arrays[i])
    }
  }

  datatype Op = DrawOne | SwitchTo(i: nat)

  /** random_r on the current array. */
  function DrawOn(p: Pool): (r: (Pool, int32))
    requires p.cur < |p.arrays| && |p.arrays[p.cur]| > Size(p.kind) && p.Live().Valid()
  {
    var (g, v) := Draw(p.Live());
    (Pool(p.arrays[p.cur := WithTable(p.arrays[p.cur], g)], p.cur, g.kind, g.rear), Output(p.kind, v))
  }

  /** The words of the current array after setstate_r has packed its pointers away. */
  function Packed(p: Pool): seq<int32>
    requires p.cur < |p.arrays| && |p.arrays[p.cur]| > Size(p.kind) && p.Live().Valid()
  {
    WithHeader(p.arrays[p.cur], p.Live())
  }

  /** setstate_r to array i, which may be the current one. */
  ghost function Switch(p: Pool, i: nat): Pool
    requires p.Valid() && i < |p.arrays|
  {
    var arrays := p.arrays[p.cur := Packed(p)];
    HeaderRoundTrip(p.Live(), Packed(p));
    var g := Resumed(arrays[i]);
    Pool(arrays, i, g.kind, g.rear)
  }

  lemma DrawKeepsOthers(p: Pool, i: nat)
    requires p.Valid() && i < |p.arrays|
    ensures DrawOn(p).0.Valid()
    ensures DrawOn(p).0.GenOf(i) == if i == p.cur then Draw(p.GenOf(i)).0 else p.GenOf(i)
  {}

  lemma SwitchKeepsAll(p: Pool, to: nat, i: nat)
    requires p.Valid() && i < |p.arrays| && to < |p.arrays|
    ensures Switch(p, to).Valid()
    ensures Switch(p, to).GenOf(i) == p.GenOf(i)
  {
    HeaderRoundTrip(p.Live(), Packed(p));
  }

  /** A run of draws and switches: the final pool, and who handed out what. */
  ghost function Run(p: Pool, ops: seq<Op>): (r: (Pool, seq<(nat, int32)>))
    requires p.Valid()
    requires forall op :: op in ops && op.SwitchTo? ==> op.i < |p.arrays|
    decreases |ops|
  {
    if ops == [] then (p, [])
    else if ops[0].DrawOne? then
      DrawKeepsOthers(p, p.cur);
      var (p', v) := DrawOn(p);
      var (last, out) := Run(p', ops[1..]);
      (last, [(p.cur, v)] + out)
    else
      SwitchKeepsAll(p, ops[0].i, p.cur);
      Run(Switch(p, ops[0].i), ops[1..])
  }

  /** The numbers handed out by array i. */
  function From(out: seq<(nat, int32)>, i: nat): seq<int32> {
    if out == [] then []
    else if out[0].0 == i then [out[0].1] + From(out[1..], i)
    else From(out[1..], i)
  }

  /**
   However draws and switches are mixed, array i hands out exactly the stream it
   would have handed out alone, and is left where that stream leaves it.
   */
  lemma {:induction false} EachArrayAsIfAlone(p: Pool, ops: seq<Op>, i: nat)
    requires p.Valid() && i < |p.arrays|
    requires forall op :: op in ops && op.SwitchTo? ==> op.i < |p.arrays|
    ensures var (last, out) := Run(p, ops);
            && last.Valid() && |last.arrays| == |p.arrays|
            && From(out, i) == Stream(p.GenOf(i), |From(out, i)|)
            && last.GenOf(i) == DrawN(p.GenOf(i), |From(out, i)|)
    decreases |ops|
  {
    hide Draw, Suspended, Resumed, WithTable;
    if ops != [] {
      if ops[0].DrawOne? {
        DrawKeepsOthers(p, i);
        DrawKeepsOthers(p, p.cur);
        var p' := DrawOn(p).0;
        EachArrayAsIfAlone(p', ops[1..], i);
        var out := Run(p', ops[1..]).1;
        assert Run(p, ops).1 == [(p.cur, DrawOn(p).1)] + out;
        assert ([(p.cur, DrawOn(p).1)] + out)[1..] == out;
      } else {
        SwitchKeepsAll(p, ops[0].i, i);
        SwitchKeepsAll(p, ops[0].i, p.cur);
        EachArrayAsIfAlone(Switch(p, ops[0].i), ops[1..], i);
      }
    }
  }

  // ----- the program on several arrays

  /** The arrays, with `arrays[cur]` the one the generator runs on. */
  ghost predicate Running(buf: RandomData, arrays: seq<array<int32>>, cur: nat)
    reads buf, buf.words
  {
    && buf.Valid() && cur < |arrays| && buf.words == arrays[cur]
    && forall i, j :: 0 <= i < j < |arrays| ==> arrays[i] != arrays[j]
  }

  ghost function Contents(arrays: seq<array<int32>>): (s: seq<seq<int32>>)
    reads set a | a in arrays
    ensures |s| == |arrays| && forall i :: 0 <= i < |s| ==> s[i] == arrays[i][..]
  {
    seq(|arrays|, i requires 0 <= i < |arrays| reads set a | a in arrays => arrays[i][..])
  }

  ghost function PoolOf(buf: RandomData, arrays: seq<array<int32>>, cur: nat): (p: Pool)
    requires Running(buf, arrays, cur)
    reads buf, buf.words, set a | a in arrays
    ensures |p.arrays| == |arrays| && p.cur == cur
    ensures |p.arrays[p.cur]| > Size(p.kind) && p.Live() == buf.View()
  {
    Pool(Contents(arrays), cur, buf.View().kind, buf.View().rear)
  }

  /** random_r */
  method DrawHere(buf: RandomData, arrays: seq<array<int32>>, cur: nat) returns (v: int32)
    requires Running(buf, arrays, cur) && PoolOf(buf, arrays, cur).Valid()
    modifies buf, set a | a in arrays
    ensures Running(buf, arrays, cur)
    ensures (PoolOf(buf, arrays, cur), v) == DrawOn(old(PoolOf(buf, arrays, cur)))
  {
    hide Draw, WithTable, Suspended, Resumed;
    ghost var before := Contents(arrays);
    v := buf.Random();
    assert Contents(arrays) == before[cur := buf.words[..]];
  }

  /** setstate_r to one of the arrays */
  method SwitchHere(buf: RandomData, arrays: seq<array<int32>>, cur: nat, to: nat)
    requires Running(buf, arrays, cur) && PoolOf(buf, arrays, cur).Valid() && to < |arrays|
    modifies buf, set a | a in arrays
    ensures Running(buf, arrays, to)
    ensures PoolOf(buf, arrays, to) == Switch(old(PoolOf(buf, arrays, cur)), to)
  {
    hide Draw, WithTable, Suspended, Resumed, WithHeader;
    ghost var p := PoolOf(buf, arrays, cur);
    SwitchKeepsAll(p, to, to);
    SuspendedFirst(p, to);
    DecodeHeader(p.arrays[cur := Packed(p)][to]);
    var ok := buf.Setstate(arrays[to]);
    assert Contents(arrays) == p.arrays[cur := Packed(p)];
    assert ok;
  }

  lemma SuspendedFirst(p: Pool, to: nat)
    requires p.Valid() && to < |p.arrays|
    ensures Suspended(p.arrays[p.cur := Packed(p)][to])
  {
    HeaderRoundTrip(p.Live(), Packed(p));
  }

  /** Any mix of random_r and setstate_r on one generator and several arrays is a run of the pool. */
  method Execute(buf: RandomData, arrays: seq<array<int32>>, first: nat, ops: seq<Op>)
      returns (cur: nat, out: seq<(nat, int32)>)
    requires Running(buf, arrays, first) && PoolOf(buf, arrays, first).Valid()
    requires forall op :: op in ops && op.SwitchTo? ==> op.i < |arrays|
    modifies buf, set a | a in arrays
    ensures Running(buf, arrays, cur)
    ensures (PoolOf(buf, arrays, cur), out) == Run(old(PoolOf(buf, arrays, first)), ops)
  {
    hide Draw, Suspended, Resumed, WithTable, Pool.Valid, DrawOn, Switch, PoolOf, Run;
    ghost var start := PoolOf(buf, arrays, first);
    cur, out := first, [];
    assert ops[0..] == ops;
    for k := 0 to |ops|
      invariant Running(buf, arrays, cur) && PoolOf(buf, arrays, cur).Valid()
      invariant Run(start, ops).0 == Run(PoolOf(buf, arrays, cur), ops[k..]).0
      invariant Run(start, ops).1 == out + Run(PoolOf(buf, arrays, cur), ops[k..]).1
    {
      ghost var p := PoolOf(buf, arrays, cur);
      RunStep(p, ops[k..]);
      assert ops[k..][1..] == ops[k + 1..];
      if ops[k].DrawOne? {
        DrawKeepsOthers(p, cur);
        var v := DrawHere(buf, arrays, cur);
        out := out + [(cur, v)];
      } else {
        SwitchKeepsAll(p, ops[k].i, cur);
        SwitchHere(buf, arrays, cur, ops[k].i);
        cur := ops[k].i;
      }
    }
    RunNothing(PoolOf(buf, arrays, cur));
    assert ops[|ops|..] == [] && out + [] == out;
  }

  lemma RunNothing(p: Pool)
    requires p.Valid()
    ensures Run(p, []) == (p, [])
  {}

  lemma RunStep(p: Pool, ops: seq<Op>)
    requires p.Valid() && ops != []
    requires forall op :: op in ops && op.SwitchTo? ==> op.i < |p.arrays|
    ensures if ops[0].DrawOne? then
              var (q, v) := DrawOn(p);
              && q.Valid() && |q.arrays| == |p.arrays|
              && Run(p, ops).0 == Run(q, ops[1..]).0
              && Run(p, ops).1 == [(p.cur, v)] + Run(q, ops[1..]).1
            else
              var q := Switch(p, ops[0].i);
              q.Valid() && |q.arrays| == |p.arrays| && Run(p, ops) == Run(q, ops[1..])
  {
    DrawKeepsOthers(p, p.cur);
    if ops[0].SwitchTo? {
      SwitchKeepsAll(p, ops[0].i, p.cur);
    }
    hide Draw, Suspended, Resumed, WithTable, Pool.Valid;
  }

  /**
   initstate_r says it saves the current state first, as setstate_r does; it does not.
   An array drawn from n times since its header was last written is resumed in the
   right place after an initstate_r on another array exactly when its generator has no
   pointers or n is a multiple of the degree.
   */
  lemma InitstateLosesPosition(words: seq<int32>, n: nat)
    requires Suspended(words)
    ensures var g := DrawN(Resumed(words), n);
            var left := WithTable(words, g);
            Suspended(left) && (Resumed(left) == g <==> g.kind == 0 || n % Degree(g.kind) == 0)
  {
    hide Draw, DrawN, Degree, Separation;
    var g0 := Resumed(words);
    if g0.kind != 0 {
      var d := Degree(g0.kind);
      DrawNShifts(g0, n, 0);
      MultipleReturns(g0.rear, n, d);
    }
  }

  /**
   The same on the program's own calls: n draws from an array whose header is up to date,
   initstate_r on another array, and setstate_r back to the first.
   */
  method LeaveAndReturn(buf: RandomData, n: nat, seed: uint32, other: array<int32>, size: nat)
    requires buf.Valid() && buf.words[0] == Header(buf.View())
    requires other != buf.words && 8 <= size <= 4 * other.Length
    modifies buf, buf.words, other
    ensures buf.Valid() && buf.words == old(buf.words)
    ensures var g := DrawN(old(buf.View()), n);
            buf.View() == g <==> g.kind == 0 || n % Degree(g.kind) == 0
  {
    hide Draw, DrawN, Degree, Separation, Seeded, KindFor;
    var first := buf.words;
    ghost var g := DrawN(buf.View(), n);
    ghost var start := first[..];
    HeaderRoundTrip(buf.View(), start);
    InitstateLosesPosition(start, n);
    buf.WarmUp(n);
    ghost var left := first[..];
    assert left == WithTable(start, g);
    var ok := buf.Initstate(seed, other, size);
    assert first[..] == left;
    ok := buf.Setstate(first);
  }

  lemma MultipleReturns(r: int, n: int, d: int)
    requires 0 <= r < d && 0 <= n
    ensures (r + n) % d == r <==> n % d == 0
  {
    ModAdd(n, r, d);
    ModNear(n % d + r, d);
  }
}
