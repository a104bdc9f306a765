/** emitCidr of TunService.kt: an address range as the fewest aligned power-of-two blocks. */
module Cidr {
  import opened BitStrings

  const SPACE: int := 0x1_0000_0000

  type Prefix = n: nat | n <= 32

  /** 2^k divides a. */
  predicate Aligned(a: nat, k: nat) {
    k == 0 || (a % 2 == 0 && Aligned(a / 2, k - 1))
  }

  /** The route base/pfx. */
  datatype Block = Block(base: nat, pfx: Prefix) {
    ghost predicate Valid() {
      Aligned(base, 32 - pfx) && base + Span() <= SPACE
    }

    function Span(): nat {
      Pow2(32 - pfx)
    }

    predicate Has(u: int) {
      base <= u < base + Span()
    }
  }

  // ---------- alignment ----------

  lemma Twice(x: nat, p: nat)
    ensures x * (2 * p) == 2 * (x * p)
  {
  }

  lemma AlignedStep(a: nat, k: nat)
    requires k > 0
    ensures Aligned(a, k) <==> a % 2 == 0 && Aligned(a / 2, k - 1)
    ensures Aligned(a, 0)
  {
  }

  lemma {:induction false} AlignedIsDivisible(a: nat, k: nat)
    ensures Aligned(a, k) <==> a == Shr(a, k) * Pow2(k)
  {
    if k == 0 {
    } else {
      AlignedIsDivisible(a / 2, k - 1);
      AlignedStep(a, k);
      var half, p := Shr(a / 2, k - 1), Pow2(k - 1);
      assert Shr(a, k) == half && Pow2(k) == 2 * p;
      hide *;
      Twice(half, p);
    }
  }

  lemma {:induction false} AlignedLess(a: nat, j: nat, k: nat)
    requires j <= k && Aligned(a, k)
    ensures Aligned(a, j)
  {
    if j == 0 {
    } else {
      AlignedLess(a / 2, j - 1, k - 1);
    }
  }

  /** The block after an aligned block; two odd neighbours make an even one. */
  lemma {:induction false} AlignedNext(a: nat, k: nat)
    requires Aligned(a, k)
    ensures Aligned(a + Pow2(k), k)
    ensures !Aligned(a, k + 1) ==> Aligned(a + Pow2(k), k + 1)
  {
    var next := a + Pow2(k);
    AlignedStep(a, k + 1);
    AlignedStep(next, k + 1);
    if k == 0 {
      AlignedStep(a / 2, 1);
      AlignedStep(next / 2, 1);
    } else {
      AlignedStep(a, k);
      AlignedStep(next, k);
      AlignedNext(a / 2, k - 1);
      assert next / 2 == a / 2 + Pow2(k - 1);
    }
  }

  /** Different aligned addresses are at least a block apart. */
  lemma {:induction false} AlignedGap(a: nat, b: nat, k: nat)
    requires Aligned(a, k) && Aligned(b, k) && a < b
    ensures a + Pow2(k) <= b
  {
    if k == 0 {
    } else {
      AlignedGap(a / 2, b / 2, k - 1);
    }
  }

  lemma {:induction false} AlignedZero(k: nat)
    ensures Aligned(0, k)
  {
    if k == 0 {
    } else {
      AlignedZero(k - 1);
    }
  }

  // ---------- the largest block at an address ----------

  /** The first inner loop: the trailing zeros of x, at most cap. */
  function TrailingZeros(x: nat, cap: nat): (n: nat)
    ensures n <= cap
  {
    if cap > 0 && x % 2 == 0 then 1 + TrailingZeros(x / 2, cap - 1) else 0
  }

  lemma {:induction false} TrailingZerosMax(x: nat, cap: nat)
    ensures Aligned(x, TrailingZeros(x, cap))
    ensures TrailingZeros(x, cap) < cap ==> !Aligned(x, TrailingZeros(x, cap) + 1)
  {
    if cap > 0 && x % 2 == 0 {
      TrailingZerosMax(x / 2, cap - 1);
    }
  }

  /** The second inner loop: halve until the block ends inside the range. */
  function Fit(a: nat, k: nat, end: int): (n: nat)
    requires a <= end
    ensures n <= k
    ensures a + Pow2(n) - 1 <= end
    ensures n < k ==> a + Pow2(n + 1) - 1 > end
  {
    if a + Pow2(k) - 1 > end then
      assert k > 0;
      Fit(a, k - 1, end)
    else k
  }

  function Exponent(a: nat, end: int): (k: nat)
    requires a <= end
    ensures k <= 32
  {
    Fit(a, TrailingZeros(a, 32), end)
  }

  lemma ExponentMax(a: nat, end: int)
    requires a <= end < SPACE
    ensures var k := Exponent(a, end);
      && Aligned(a, k)
      && a + Pow2(k) - 1 <= end
      && (k < 32 ==> !Aligned(a, k + 1) || a + Pow2(k + 1) - 1 > end)
  {
    var t := TrailingZeros(a, 32);
    TrailingZerosMax(a, 32);
    AlignedLess(a, Exponent(a, end), t);
  }

  // ---------- emitCidr ----------

  function EmitSpec(a: nat, end: int): seq<Block>
    decreases end - a
  {
    if a > end then []
    else
      var k := Exponent(a, end);
      [Block(a, 32 - k)] + EmitSpec(a + Pow2(k), end)
  }

  lemma EmitUnfold(a: nat, end: int)
    requires a <= end
    ensures EmitSpec(a, end) == [Block(a, 32 - Exponent(a, end))] + EmitSpec(a + Pow2(Exponent(a, end)), end)
  {
  }

  class Builder {
    var routes: seq<Block>

    constructor ()
      ensures routes == []
    {
      routes := [];
    }

    method AddRoute(base: nat, pfx: Prefix)
      modifies this
      ensures routes == old(routes) + [Block(base, pfx)]
    {
      routes := routes + [Block(base, pfx)];
    }
  }

  /** The two inner loops at address a. */
  method LargestBlock(a: nat, end: int) returns (span: nat, pfx: Prefix)
    requires a <= end
    ensures pfx == 32 - Exponent(a, end) && span == Pow2(32 - pfx)
  {
    var n: nat := 0;
    var x: nat := a;
    while x % 2 == 0 && n < 32
      invariant n <= 32 && n + TrailingZeros(x, 32 - n) == TrailingZeros(a, 32)
      decreases 32 - n
    {
      x := x / 2;
      n := n + 1;
    }
    span := Pow2(n);
    pfx := 32 - n;
    while a + span - 1 > end
      invariant span == Pow2(32 - pfx)
      invariant Fit(a, 32 - pfx, end) == Exponent(a, end)
    {
      span := span / 2;
      pfx := pfx + 1;
    }
  }

  method EmitCidr(builder: Builder, start: nat, end: int) returns (count: nat)
    requires end < SPACE
    modifies builder
    ensures builder.routes == old(builder.routes) + EmitSpec(start, end)
    ensures count == |EmitSpec(start, end)|
  {
    hide Aligned, Exponent, Pow2;
    var a: nat := start;
    count := 0;
    while a <= end
      invariant builder.routes + EmitSpec(a, end) == old(builder.routes) + EmitSpec(start, end)
      invariant count + |EmitSpec(a, end)| == |EmitSpec(start, end)|
      decreases end - a
    {
      var span, pfx := LargestBlock(a, end);
      ghost var before, rest := builder.routes, EmitSpec(a + span, end);
      assert before + ([Block(a, pfx)] + rest) == before + [Block(a, pfx)] + rest;
      builder.AddRoute(a, pfx);
      count := count + 1;
      a := a + span;
      if a == 0 {
        break;
      }
    }
  }

  // ---------- the blocks cover the range exactly, in order ----------

  ghost predicate Ordered(bs: seq<Block>) {
    && (forall i :: 0 <= i < |bs| ==> bs[i].Valid())
    && (forall i, j :: 0 <= i < j < |bs| ==> bs[i].base + bs[i].Span() <= bs[j].base)
  }

  ghost predicate InSome(bs: seq<Block>, u: int) {
    exists i :: 0 <= i < |bs| && bs[i].Has(u)
  }

  ghost predicate Between(bs: seq<Block>, lo: nat, hi: int) {
    forall i :: 0 <= i < |bs| ==> lo <= bs[i].base && bs[i].base + bs[i].Span() <= hi
  }

  lemma OrderedCons(b: Block, bs: seq<Block>, hi: int)
    requires b.Valid() && Ordered(bs) && Between(bs, b.base + b.Span(), hi) && b.base + b.Span() <= hi
    ensures Ordered([b] + bs) && Between([b] + bs, b.base, hi)
  {
    hide Block.Valid, Block.Span;
  }

  lemma FirstValid(a: nat, end: int) returns (b: Block)
    requires a <= end < SPACE
    ensures b == Block(a, 32 - Exponent(a, end))
    ensures b.Valid() && a < a + b.Span() <= end + 1
    ensures EmitSpec(a, end) == [b] + EmitSpec(a + b.Span(), end)
  {
    ExponentMax(a, end);
    b := Block(a, 32 - Exponent(a, end));
  }

  lemma EmitPastEnd(a: nat, end: int)
    requires a > end
    ensures EmitSpec(a, end) == []
  {
  }

  lemma {:induction false} EmitOrdered(a: nat, end: int)
    requires end < SPACE
    ensures Ordered(EmitSpec(a, end)) && Between(EmitSpec(a, end), a, end + 1)
    decreases end - a
  {
    if a > end {
      EmitPastEnd(a, end);
    }
    if a <= end {
      var b := FirstValid(a, end);
      hide *;
      EmitOrdered(b.base + b.Span(), end);
      OrderedCons(b, EmitSpec(b.base + b.Span(), end), end + 1);
    }
  }

  lemma InSomeCons(b: Block, bs: seq<Block>, u: int)
    ensures InSome([b] + bs, u) <==> b.Has(u) || InSome(bs, u)
  {
    hide Block.Has;
    if b.Has(u) {
      assert ([b] + bs)[0].Has(u);
    }
    if InSome(bs, u) {
      var i :| 0 <= i < |bs| && bs[i].Has(u);
      assert ([b] + bs)[i + 1].Has(u);
    }
  }

  lemma {:induction false} EmitExact(a: nat, end: int, u: int)
    requires end < SPACE
    ensures InSome(EmitSpec(a, end), u) <==> a <= u <= end
    decreases end - a
  {
    hide Exponent, Pow2;
    if a <= end {
      var k := Exponent(a, end);
      ExponentMax(a, end);
      EmitExact(a + Pow2(k), end, u);
      InSomeCons(Block(a, 32 - k), EmitSpec(a + Pow2(k), end), u);
    }
  }

  // ---------- no shorter cover exists ----------

  ghost predicate Within(b: Block, c: Block) {
    c.base <= b.base && b.base + b.Span() <= c.base + c.Span()
  }

  lemma InLargest(a: nat, end: int, k: nat, base: nat, j: nat)
    requires k <= 32 && j <= 32 && Aligned(a, k) && Aligned(base, j) && base + Pow2(j) - 1 <= end
    requires a <= base < a + Pow2(k)
    requires k < 32 ==> !Aligned(a, k + 1) || a + Pow2(k + 1) - 1 > end
    ensures base + Pow2(j) <= a + Pow2(k)
  {
    hide *;
    if j > k {
      AlignedLess(base, k, j);
      if a < base {
        AlignedGap(a, base, k);
      }
      AlignedLess(base, k + 1, j);
      Pow2Monotone(k + 1, j);
    } else {
      AlignedNext(a, k);
      AlignedLess(a + Pow2(k), j, k);
      AlignedGap(base, a + Pow2(k), j);
    }
  }

  /** An aligned block that starts inside the largest block at a lies in that block. */
  lemma InFirst(a: nat, end: int, b: Block)
    requires a <= end < SPACE && b.Valid() && b.base + b.Span() - 1 <= end
    requires a <= b.base < a + Pow2(Exponent(a, end))
    ensures Within(b, Block(a, 32 - Exponent(a, end)))
  {
    hide Exponent, Aligned, Pow2;
    ExponentMax(a, end);
    InLargest(a, end, Exponent(a, end), b.base, 32 - b.pfx);
  }

  /** Every aligned block inside the range lies in one emitted block. */
  lemma {:induction false} EmitMaximal(a: nat, end: int, b: Block) returns (i: nat)
    requires end < SPACE && b.Valid() && a <= b.base && b.base + b.Span() - 1 <= end
    ensures i < |EmitSpec(a, end)|
    ensures Within(b, EmitSpec(a, end)[i])
    decreases end - a
  {
    var first := FirstValid(a, end);
    if b.base < a + first.Span() {
      InFirst(a, end, b);
      i := 0;
    } else {
      hide *;
      var n := EmitMaximal(a + first.Span(), end, b);
      i := n + 1;
    }
  }

  lemma {:induction false} DistinctBound(s: seq<nat>, n: nat)
    requires forall i :: 0 <= i < |s| ==> s[i] < n
    requires forall i, j :: 0 <= i < j < |s| ==> s[i] != s[j]
    ensures |s| <= n
  {
    if s == [] {
    } else if n - 1 in s {
      var k :| 0 <= k < |s| && s[k] == n - 1;
      DistinctBound(s[..k] + s[k + 1..], n - 1);
    } else {
      assert s[0] < n;
      DistinctBound(s, n - 1);
    }
  }

  /** Any list of aligned blocks that covers exactly the range is at least as long. */
  lemma EmitShortest(a: nat, end: int, cover: seq<Block>)
    requires end < SPACE
    requires forall i :: 0 <= i < |cover| ==> cover[i].Valid()
    requires forall u :: InSome(cover, u) <==> a <= u <= end
    ensures |EmitSpec(a, end)| <= |cover|
  {
    hide Aligned, Pow2, EmitSpec;
    var bs := EmitSpec(a, end);
    EmitOrdered(a, end);
    ghost var pick: seq<nat> := [];
    while |pick| < |bs|
      invariant |pick| <= |bs|
      invariant forall i :: 0 <= i < |pick| ==> pick[i] < |cover| && Within(cover[pick[i]], bs[i])
      invariant forall i, j :: 0 <= i < j < |pick| ==> pick[i] != pick[j]
    {
      var n := |pick|;
      EmitExact(a, end, bs[n].base);
      assert bs[n].Has(bs[n].base);
      assert InSome(cover, bs[n].base);
      var c: nat :| c < |cover| && cover[c].Has(bs[n].base);
      var b := cover[c];
      assert b.Has(b.base) && b.Has(b.base + b.Span() - 1);
      assert InSome(cover, b.base) && InSome(cover, b.base + b.Span() - 1);
      var i := EmitMaximal(a, end, b);
      assert bs[i].Has(bs[n].base);
      pick := pick + [c];
    }
    DistinctBound(pick, |cover|);
  }

  // ---------- the spans grow, then shrink ----------

  ghost predicate FallingTo(bs: seq<Block>, m: nat)
    requires m <= |bs|
  {
    forall i, j :: 0 <= i < j < m ==> bs[i].pfx > bs[j].pfx
  }

  ghost predicate RisingFrom(bs: seq<Block>, m: nat)
    requires m <= |bs|
  {
    forall i, j :: m <= i < j < |bs| ==> bs[i].pfx < bs[j].pfx
  }

  /** Once the end of the range limits a block, each further block is smaller, and at most k follow. */
  lemma {:induction false} EmitShrinks(a: nat, end: int, k: nat)
    requires end < SPACE && k <= 32 && Aligned(a, k) && end + 1 < a + Pow2(k)
    ensures var bs := EmitSpec(a, end);
      |bs| <= k && RisingFrom(bs, 0) && forall i :: 0 <= i < |bs| ==> 32 - k < bs[i].pfx
    decreases end - a
  {
    hide Exponent, Aligned;
    if a <= end {
      var e := Exponent(a, end);
      ExponentMax(a, end);
      if e >= k {
        Pow2Monotone(k, e);
      }
      AlignedLess(a, e + 1, k);
      AlignedNext(a, e);
      EmitShrinks(a + Pow2(e), end, e);
    }
  }

  lemma Pow2Of32()
    ensures Pow2(32) == SPACE && Pow2(31) == SPACE / 2
  {
    assert Pow2(4) == 16;
    assert Pow2(8) == 256;
    assert Pow2(12) == 4096;
    assert Pow2(16) == 65536;
    assert Pow2(20) == 0x10_0000;
    assert Pow2(24) == 0x100_0000;
    assert Pow2(28) == 0x1000_0000;
  }

  /** The first block is limited either by the alignment of a or by the end of the range. */
  lemma FirstBlock(a: nat, end: int, j: nat)
    requires a <= end < SPACE && j <= 31 && Aligned(a, j)
    ensures var e := Exponent(a, end);
      || a + Pow2(e) == SPACE
      || (e < 31 && j <= e && Aligned(a + Pow2(e), e + 1))
      || (e < 32 && (a > 0 ==> e < 31) && Aligned(a + Pow2(e), e) && end + 1 < a + Pow2(e) + Pow2(e))
  {
    hide Exponent, Aligned;
    var e := Exponent(a, end);
    ExponentMax(a, end);
    AlignedNext(a, e);
    Pow2Of32();
    AlignedZero(32);
    AlignedZero(31);
    AlignedZero(e + 1);
    if a > 0 && Aligned(a, e + 1) && e >= 31 {
      AlignedLess(a, 32, e + 1);
      AlignedGap(0, a, 32);
    }
    if e < 32 && !Aligned(a, e + 1) {
      if e < j {
        AlignedLess(a, e + 1, j);
      }
      if e == 31 {
        AlignedGap(0, a, 31);
      }
    }
  }

  ghost predicate AtMost(bs: seq<Block>, m: nat, p: int)
    requires m <= |bs|
  {
    forall x :: 0 <= x < m ==> bs[x].pfx <= p
  }

  lemma ShapeCons(b: Block, bs: seq<Block>, m: nat)
    requires m <= |bs| && FallingTo(bs, m) && RisingFrom(bs, m) && AtMost(bs, m, b.pfx - 1)
    ensures FallingTo([b] + bs, m + 1) && RisingFrom([b] + bs, m + 1) && AtMost([b] + bs, m + 1, b.pfx)
    ensures m == 0 && (forall x :: 0 <= x < |bs| ==> b.pfx < bs[x].pfx) ==> RisingFrom([b] + bs, 0)
  {
  }

  /** At most 62 blocks, one fewer for each bit that divides the start. */
  lemma {:induction false} EmitCount(a: nat, end: int, j: nat)
    requires end < SPACE && j <= 31 && Aligned(a, j) && (a > 0 || j == 0)
    ensures |EmitSpec(a, end)| <= 62 - j
    decreases end - a
  {
    if a <= end {
      var e := Exponent(a, end);
      FirstBlock(a, end, j);
      EmitUnfold(a, end);
      hide *;
      if e < 31 && j <= e && Aligned(a + Pow2(e), e + 1) {
        EmitCount(a + Pow2(e), end, e + 1);
      } else if a + Pow2(e) != SPACE {
        EmitShrinks(a + Pow2(e), end, e);
      } else {
        EmitPastEnd(a + Pow2(e), end);
      }
    }
  }

  lemma AtMostLess(bs: seq<Block>, m: nat, p: int, q: int)
    requires m <= |bs| && AtMost(bs, m, p) && p <= q
    ensures AtMost(bs, m, q)
  {
  }

  lemma ShapeStart(bs: seq<Block>)
    ensures FallingTo(bs, 0) && forall p :: AtMost(bs, 0, p)
    ensures |bs| <= 1 ==> RisingFrom(bs, 0)
  {
  }

  /** The prefix lengths strictly fall up to some index and strictly rise from there. */
  lemma {:induction false} EmitBitonic(a: nat, end: int, j: nat) returns (m: nat)
    requires end < SPACE && j <= 31 && Aligned(a, j) && (a > 0 || j == 0)
    ensures m <= |EmitSpec(a, end)|
    ensures FallingTo(EmitSpec(a, end), m) && RisingFrom(EmitSpec(a, end), m)
    ensures AtMost(EmitSpec(a, end), m, 32 - j)
    decreases end - a
  {
    hide EmitSpec, Exponent, Pow2, Aligned, FallingTo, RisingFrom, AtMost;
    m := 0;
    if a <= end {
      var e := Exponent(a, end);
      FirstBlock(a, end, j);
      EmitUnfold(a, end);
      var rest := EmitSpec(a + Pow2(e), end);
      if e < 31 && j <= e && Aligned(a + Pow2(e), e + 1) {
        m := EmitBitonic(a + Pow2(e), end, e + 1);
        ShapeCons(Block(a, 32 - e), rest, m);
        m := m + 1;
        AtMostLess(EmitSpec(a, end), m, 32 - e, 32 - j);
      } else if a + Pow2(e) != SPACE {
        EmitShrinks(a + Pow2(e), end, e);
        ShapeStart(rest);
        ShapeCons(Block(a, 32 - e), rest, 0);
        ShapeStart(EmitSpec(a, end));
      } else {
        EmitPastEnd(a + Pow2(e), end);
        ShapeStart([Block(a, 32 - e)]);
        assert EmitSpec(a, end) == [Block(a, 32 - e)];
      }
    } else {
      EmitPastEnd(a, end);
      ShapeStart([]);
    }
  }

  /** What holds of the blocks of any range: see EmitCount and EmitBitonic. */
  lemma EmitShape(start: nat, end: int) returns (m: nat)
    requires end < SPACE
    ensures m <= |EmitSpec(start, end)| <= 62
    ensures FallingTo(EmitSpec(start, end), m) && RisingFrom(EmitSpec(start, end), m)
  {
    EmitCount(start, end, 0);
    m := EmitBitonic(start, end, 0);
  }

  // ---------- when two blocks are equal ----------

  /** m is an odd multiple of 2^k. */
  predicate OddMultiple(m: nat, k: nat) {
    Aligned(m, k) && !Aligned(m, k + 1)
  }

  lemma {:induction false} AlignedSplit(m: nat, k: nat)
    ensures Aligned(m, k + 1) <==> Aligned(m, k) && Shr(m, k) % 2 == 0
  {
    if k == 0 {
      AlignedStep(m, 1);
      AlignedStep(m / 2, 1);
    } else {
      AlignedStep(m, k);
      AlignedStep(m, k + 1);
      AlignedSplit(m / 2, k - 1);
    }
  }

  lemma OddMultipleMeans(m: nat, k: nat)
    ensures OddMultiple(m, k) <==> m == Shr(m, k) * Pow2(k) && Shr(m, k) % 2 == 1
  {
    AlignedIsDivisible(m, k);
    AlignedSplit(m, k);
  }

  /** The range starts in the 2^k addresses up to m, an odd multiple of 2^k, and ends after the second
      2^k addresses from m on, but before the third. */
  predicate PairAt(start: nat, end: int, m: nat, k: nat) {
    k < 32 && OddMultiple(m, k) && m - Pow2(k) < start <= m && m + 2 * Pow2(k) <= end + 1 < m + 3 * Pow2(k)
  }

  ghost predicate HasPair(start: nat, end: int) {
    exists m: nat, k: nat :: PairAt(start, end, m, k)
  }

  /** Blocks follow each other without a gap. */
  lemma Consecutive(b: Block, rest: seq<Block>, i: nat)
    requires i < |rest|
    ensures ([b] + rest)[i + 1] == rest[i] && ([b] + rest)[0] == b
  {
  }

  lemma NotEmpty(a: nat, end: int)
    ensures EmitSpec(a, end) != [] ==> a <= end
  {
  }

  lemma FirstOf(a: nat, end: int) returns (b: Block)
    requires end < SPACE && EmitSpec(a, end) != []
    ensures b == EmitSpec(a, end)[0] && b.base == a
  {
    b := EmitSpec(a, end)[0];
  }

  lemma {:induction false} EmitContiguous(a: nat, end: int, i: nat)
    requires end < SPACE && i + 1 < |EmitSpec(a, end)|
    ensures var bs := EmitSpec(a, end); bs[i + 1].base == bs[i].base + bs[i].Span()
    decreases end - a
  {
    hide EmitSpec, Exponent, Block.Valid, Block.Span;
    NotEmpty(a, end);
    var b := FirstValid(a, end);
    var rest := EmitSpec(a + b.Span(), end);
    Consecutive(b, rest, i);
    if i == 0 {
      var c := FirstOf(a + b.Span(), end);
    } else {
      Consecutive(b, rest, i - 1);
      EmitContiguous(a + b.Span(), end, i - 1);
    }
  }

  /** An aligned block in the range that meets an emitted block lies in it. */
  lemma MeetsMeansWithin(start: nat, end: int, i: nat, b: Block, u: int)
    requires end < SPACE && i < |EmitSpec(start, end)| && b.Valid()
    requires start <= b.base && b.base + b.Span() - 1 <= end && b.Has(u) && EmitSpec(start, end)[i].Has(u)
    ensures Within(b, EmitSpec(start, end)[i])
  {
    var j := EmitMaximal(start, end, b);
    EmitOrdered(start, end);
    hide EmitSpec;
  }

  lemma DoublePow2(k: nat)
    ensures Pow2(k + 1) == 2 * Pow2(k) && Pow2(k) > 0
  {
  }

  lemma {:induction false} AlignedBefore(m: nat, k: nat)
    requires OddMultiple(m, k) && m >= Pow2(k)
    ensures Aligned(m - Pow2(k), k + 1)
  {
    AlignedStep(m, k + 1);
    if k == 0 {
      AlignedStep(m - 1, 1);
      AlignedStep((m - 1) / 2, 1);
      AlignedStep(m / 2, 1);
    } else {
      AlignedStep(m, k);
      AlignedStep(m - Pow2(k), k + 1);
      assert (m - Pow2(k)) / 2 == m / 2 - Pow2(k - 1);
      AlignedBefore(m / 2, k - 1);
    }
  }

  /** Around an odd multiple of 2^k the next power of two starts one block earlier. */
  lemma OddNeighbours(m: nat, k: nat)
    requires OddMultiple(m, k)
    ensures m >= Pow2(k) && Aligned(m - Pow2(k), k + 1) && Aligned(m + Pow2(k), k + 1)
  {
    AlignedNext(m, k);
    AlignedZero(k + 1);
    AlignedZero(k);
    AlignedGap(0, m, k);
    AlignedBefore(m, k);
  }

  /** A block that holds the block of size 2^k at m is that block, unless it holds the enclosing block. */
  lemma AlignedWithin(c: Block, m: nat, k: nat, u: nat)
    requires c.Valid() && k < 32 && Aligned(u, k + 1) && u <= m && m + Pow2(k) <= u + Pow2(k + 1)
    requires c.base <= m && m + Pow2(k) <= c.base + c.Span() && Aligned(m, k)
    ensures (c.base == m && c.pfx == 32 - k) || (c.base <= u && u + Pow2(k + 1) <= c.base + c.Span())
  {
    var j := 32 - c.pfx;
    hide Aligned, Pow2;
    DoublePow2(k);
    if j > k {
      AlignedLess(c.base, k + 1, j);
      AlignedNext(c.base, j);
      AlignedLess(c.base + Pow2(j), k + 1, j);
      if u < c.base {
        AlignedGap(u, c.base, k + 1);
      }
      if c.base + Pow2(j) < u + Pow2(k + 1) {
        AlignedNext(u, k + 1);
        AlignedGap(c.base + Pow2(j), u + Pow2(k + 1), k + 1);
      }
    } else {
      if j < k {
        Pow2Monotone(j + 1, k);
        DoublePow2(j);
      }
    }
  }

  /** Where the range straddles in this way, two neighbouring blocks are equal. */
  lemma StraddleGivesPair(start: nat, end: int, m: nat, k: nat) returns (i: nat)
    requires end < SPACE && PairAt(start, end, m, k)
    ensures i + 1 < |EmitSpec(start, end)|
    ensures EmitSpec(start, end)[i] == Block(m, 32 - k) && EmitSpec(start, end)[i + 1] == Block(m + Pow2(k), 32 - k)
  {
    hide Aligned, Pow2, EmitSpec;
    var bs := EmitSpec(start, end);
    OddNeighbours(m, k);
    DoublePow2(k);
    AlignedNext(m, k);
    EmitOrdered(start, end);
    i := EmitMaximal(start, end, Block(m, 32 - k));
    AlignedWithin(bs[i], m, k, m - Pow2(k));
    var j := EmitMaximal(start, end, Block(m + Pow2(k), 32 - k));
    AlignedWithin(bs[j], m + Pow2(k), k, m + Pow2(k));
    assert i < j;
  }

  /** And two neighbouring blocks are equal only there. */
  lemma PairGivesStraddle(start: nat, end: int, i: nat)
    requires end < SPACE && i + 1 < |EmitSpec(start, end)|
    requires EmitSpec(start, end)[i].pfx == EmitSpec(start, end)[i + 1].pfx
    ensures PairAt(start, end, EmitSpec(start, end)[i].base, 32 - EmitSpec(start, end)[i].pfx)
  {
    hide Aligned, Pow2, EmitSpec;
    var bs := EmitSpec(start, end);
    var m, k := bs[i].base, 32 - bs[i].pfx;
    EmitOrdered(start, end);
    EmitContiguous(start, end, i);
    DoublePow2(k);
    if k == 32 {
      Pow2Of32();
      assert false;
    }
    if Aligned(m, k + 1) {
      MeetsMeansWithin(start, end, i, Block(m, 31 - k), m);
      assert false;
    }
    OddNeighbours(m, k);
    if m - Pow2(k) >= start {
      MeetsMeansWithin(start, end, i, Block(m - Pow2(k), 31 - k), m);
      assert false;
    }
    if m + 3 * Pow2(k) <= end + 1 {
      MeetsMeansWithin(start, end, i + 1, Block(m + Pow2(k), 31 - k), m + Pow2(k));
      assert false;
    }
  }

  ghost predicate EqualNeighbours(bs: seq<Block>) {
    exists i :: 0 <= i < |bs| - 1 && bs[i].pfx == bs[i + 1].pfx
  }

  /** Exactly when two neighbouring blocks are equal, on start and end alone. */
  lemma EqualNeighboursIff(start: nat, end: int)
    requires end < SPACE
    ensures EqualNeighbours(EmitSpec(start, end)) <==> HasPair(start, end)
  {
    hide PairAt, EmitSpec;
    var bs := EmitSpec(start, end);
    if EqualNeighbours(bs) {
      var i :| 0 <= i < |bs| - 1 && bs[i].pfx == bs[i + 1].pfx;
      PairGivesStraddle(start, end, i);
    }
    if HasPair(start, end) {
      var m: nat, k: nat :| PairAt(start, end, m, k);
      var i := StraddleGivesPair(start, end, m, k);
      assert bs[i].pfx == bs[i + 1].pfx;
    }
  }

  /** The prefix lengths strictly fall up to block m and strictly rise from it on. */
  ghost predicate Peak(bs: seq<Block>, m: nat) {
    m < |bs| && FallingTo(bs, m + 1) && RisingFrom(bs, m)
  }

  lemma PeakIff(bs: seq<Block>, m: nat)
    requires bs != [] && m <= |bs| && FallingTo(bs, m) && RisingFrom(bs, m)
    ensures (exists p: nat :: Peak(bs, p)) <==> !EqualNeighbours(bs)
  {
    if EqualNeighbours(bs) {
      var i :| 0 <= i < |bs| - 1 && bs[i].pfx == bs[i + 1].pfx;
      forall p: nat ensures !Peak(bs, p) {
      }
    } else if m == 0 {
      assert Peak(bs, 0);
    } else if m == |bs| {
      assert Peak(bs, m - 1);
    } else {
      assert bs[m - 1].pfx != bs[m - 1 + 1].pfx;
      if bs[m - 1].pfx > bs[m].pfx {
        assert Peak(bs, m);
      } else {
        assert Peak(bs, m - 1);
      }
    }
  }

  /** Spans strictly grow and then strictly shrink, for exactly the ranges without such a pair. */
  lemma GrowThenShrinkIff(start: nat, end: int)
    requires start <= end < SPACE
    ensures (exists m: nat :: Peak(EmitSpec(start, end), m)) <==> !HasPair(start, end)
  {
    EqualNeighboursIff(start, end);
    var m := EmitShape(start, end);
    EmitUnfold(start, end);
    hide EmitSpec, HasPair;
    PeakIff(EmitSpec(start, end), m);
  }

  lemma ExponentIs(a: nat, end: int, k: nat)
    requires a <= end < SPACE && k < 32 && Aligned(a, k) && a + Pow2(k) - 1 <= end
    requires !Aligned(a, k + 1) || a + Pow2(k + 1) - 1 > end
    ensures Exponent(a, end) == k
  {
    hide Exponent, Aligned, Pow2;
    var e := Exponent(a, end);
    ExponentMax(a, end);
    if e > k {
      AlignedLess(a, k + 1, e);
      Pow2Monotone(k + 1, e);
    } else if e < k {
      AlignedLess(a, e + 1, k);
      Pow2Monotone(e + 1, k);
    }
  }

  lemma EmitBlock(a: nat, end: int, k: nat)
    requires a <= end < SPACE && k < 32 && Aligned(a, k) && a + Pow2(k) - 1 <= end
    requires !Aligned(a, k + 1) || a + Pow2(k + 1) - 1 > end
    ensures EmitSpec(a, end) == [Block(a, 32 - k)] + EmitSpec(a + Pow2(k), end)
  {
    hide Exponent, Aligned, Pow2;
    ExponentIs(a, end, k);
    EmitUnfold(a, end);
  }

  lemma SmallAlignments()
    ensures Pow2(0) == 1 && Pow2(1) == 2 && Pow2(2) == 4
    ensures Aligned(1, 0) && !Aligned(1, 1) && Aligned(2, 1) && !Aligned(2, 2) && Aligned(4, 1) && Aligned(6, 0)
  {
    AlignedStep(1, 1);
    AlignedStep(2, 1);
    AlignedStep(2, 2);
    AlignedStep(4, 1);
    AlignedStep(6, 1);
  }

  lemma OneToSixBlocks()
    ensures EmitSpec(1, 6) == [Block(1, 32), Block(2, 31), Block(4, 31), Block(6, 32)]
  {
    SmallAlignments();
    hide Aligned, Pow2, Exponent, EmitSpec;
    EmitBlock(1, 6, 0);
    EmitBlock(2, 6, 1);
    EmitBlock(4, 6, 1);
    EmitBlock(6, 6, 0);
    EmitPastEnd(7, 6);
  }

  /** The range 1 to 6: two blocks of two addresses at the peak. */
  lemma OneToSix()
    ensures EmitSpec(1, 6) == [Block(1, 32), Block(2, 31), Block(4, 31), Block(6, 32)]
    ensures HasPair(1, 6) && EqualNeighbours(EmitSpec(1, 6))
  {
    OneToSixBlocks();
    hide EmitSpec, PairAt, Pow2;
    var bs := EmitSpec(1, 6);
    PairGivesStraddle(1, 6, 1);
    assert bs[1].pfx == bs[1 + 1].pfx;
  }
}
