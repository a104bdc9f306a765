/** The column-wise interleaving of blocks in createBytes of src/web/qrcode.js (section 7.6 of
    ISO/IEC 18004:2015), and its inverse. */
module Interleave {

  // ---------- the two loops as a function ----------

  /** Cell i of every block that is long enough. */
  function Column<T>(blocks: seq<seq<T>>, i: nat): seq<T> {
    if blocks == [] then []
    else
      var n := |blocks| - 1;
      Column(blocks[..n], i) + (if i < |blocks[n]| then [blocks[n][i]] else [])
  }

  function Columns<T>(blocks: seq<seq<T>>, n: nat): seq<T> {
    if n == 0 then [] else Columns(blocks, n - 1) + Column(blocks, n - 1)
  }

  function Longest<T>(blocks: seq<seq<T>>): (n: nat)
    ensures forall r :: 0 <= r < |blocks| ==> |blocks[r]| <= n
  {
    if blocks == [] then 0
    else
      var rest := Longest(blocks[..|blocks| - 1]);
      if |blocks[|blocks| - 1]| > rest then |blocks[|blocks| - 1]| else rest
  }

  function Interleaved<T>(blocks: seq<seq<T>>): seq<T> {
    Columns(blocks, Longest(blocks))
  }

  function Sizes<T>(blocks: seq<seq<T>>): (s: seq<nat>)
    ensures |s| == |blocks| && forall r :: 0 <= r < |s| ==> s[r] == |blocks[r]|
  {
    seq(|blocks|, r requires 0 <= r < |blocks| => |blocks[r]|)
  }

  // ---------- where a cell goes ----------

  /** How many blocks reach column i. */
  function Count(sizes: seq<nat>, i: nat): nat {
    if sizes == [] then 0
    else Count(sizes[..|sizes| - 1], i) + (if i < sizes[|sizes| - 1] then 1 else 0)
  }

  /** Where column i starts. */
  function Start(sizes: seq<nat>, i: nat): nat {
    if i == 0 then 0 else Start(sizes, i - 1) + Count(sizes, i - 1)
  }

  /** The place of cell i of block r. */
  function Position(sizes: seq<nat>, r: nat, i: nat): nat
    requires r < |sizes|
  {
    Start(sizes, i) + Count(sizes[..r], i)
  }

  function Sum(sizes: seq<nat>): nat {
    if sizes == [] then 0 else Sum(sizes[..|sizes| - 1]) + sizes[|sizes| - 1]
  }

  lemma {:induction false} CountGrows(sizes: seq<nat>, r: nat, i: nat)
    requires r < |sizes|
    ensures Count(sizes[..r], i) + (if i < sizes[r] then 1 else 0) <= Count(sizes, i)
  {
    var n := |sizes| - 1;
    if r < n {
      CountGrows(sizes[..n], r, i);
      assert sizes[..n][..r] == sizes[..r];
    }
  }

  lemma {:induction false} StartGrows(sizes: seq<nat>, i: nat, j: nat)
    requires i <= j
    ensures Start(sizes, i) <= Start(sizes, j)
  {
    if i < j {
      StartGrows(sizes, i, j - 1);
    }
  }

  lemma PositionBound(sizes: seq<nat>, r: nat, i: nat, n: nat)
    requires r < |sizes| && i < sizes[r] && i < n
    ensures Position(sizes, r, i) < Start(sizes, i + 1) <= Start(sizes, n)
  {
    CountGrows(sizes, r, i);
    StartGrows(sizes, i + 1, n);
  }

  lemma {:induction false} ColumnAt<T>(blocks: seq<seq<T>>, r: nat, i: nat)
    ensures |Column(blocks, i)| == Count(Sizes(blocks), i)
    ensures r < |blocks| && i < |blocks[r]| ==>
      var k := Count(Sizes(blocks)[..r], i);
      k < |Column(blocks, i)| && Column(blocks, i)[k] == blocks[r][i]
  {
    if blocks == [] {
    } else {
      var n := |blocks| - 1;
      ColumnAt(blocks[..n], r, i);
      assert Sizes(blocks)[..n] == Sizes(blocks[..n]);
      if r < n {
        assert Sizes(blocks)[..r] == Sizes(blocks[..n])[..r];
      }
    }
  }

  lemma {:induction false} ColumnsLength<T>(blocks: seq<seq<T>>, n: nat)
    ensures |Columns(blocks, n)| == Start(Sizes(blocks), n)
  {
    hide Column, Count, Sizes;
    if n == 0 {
    } else {
      ColumnsLength(blocks, n - 1);
      ColumnAt(blocks, 0, n - 1);
    }
  }

  lemma ColumnsUnfold<T>(blocks: seq<seq<T>>, n: nat)
    requires n > 0
    ensures Columns(blocks, n) == Columns(blocks, n - 1) + Column(blocks, n - 1)
  {
  }

  lemma Concatenated<T>(a: seq<T>, b: seq<T>, k: nat)
    ensures k < |a| ==> (a + b)[k] == a[k]
    ensures |a| <= k < |a + b| ==> (a + b)[k] == b[k - |a|]
  {
  }

  lemma {:induction false} ColumnsAt<T>(blocks: seq<seq<T>>, n: nat, r: nat, i: nat)
    requires r < |blocks| && i < |blocks[r]| && i < n
    ensures var k := Position(Sizes(blocks), r, i);
      k < |Columns(blocks, n)| && Columns(blocks, n)[k] == blocks[r][i]
  {
    hide Column, Columns, Count, Start, Sum;
    var k := Position(Sizes(blocks), r, i);
    ColumnsUnfold(blocks, n);
    ColumnsLength(blocks, n - 1);
    Concatenated(Columns(blocks, n - 1), Column(blocks, n - 1), k);
    if i < n - 1 {
      ColumnsAt(blocks, n - 1, r, i);
    } else {
      ColumnAt(blocks, r, i);
    }
  }

  // ---------- every place is taken ----------

  lemma {:induction false} FindInColumn(sizes: seq<nat>, i: nat, k: nat) returns (r: nat)
    requires k < Count(sizes, i)
    ensures r < |sizes| && i < sizes[r] && Count(sizes[..r], i) == k
  {
    var n := |sizes| - 1;
    if k < Count(sizes[..n], i) {
      r := FindInColumn(sizes[..n], i, k);
      assert sizes[..n][..r] == sizes[..r];
    } else {
      r := n;
    }
  }

  lemma {:induction false} Find(sizes: seq<nat>, n: nat, k: nat) returns (r: nat, i: nat)
    requires k < Start(sizes, n)
    ensures r < |sizes| && i < sizes[r] && i < n && Position(sizes, r, i) == k
  {
    if k < Start(sizes, n - 1) {
      r, i := Find(sizes, n - 1, k);
    } else {
      i := n - 1;
      r := FindInColumn(sizes, i, k - Start(sizes, i));
    }
  }

  // ---------- the number of cells ----------

  function SumUpTo(sizes: seq<nat>, n: nat): nat {
    if sizes == [] then 0
    else SumUpTo(sizes[..|sizes| - 1], n) + (if sizes[|sizes| - 1] < n then sizes[|sizes| - 1] else n)
  }

  lemma {:induction false} SumUpToStep(sizes: seq<nat>, n: nat)
    ensures SumUpTo(sizes, n + 1) == SumUpTo(sizes, n) + Count(sizes, n)
    ensures SumUpTo(sizes, 0) == 0
  {
    if sizes == [] {
    } else {
      SumUpToStep(sizes[..|sizes| - 1], n);
    }
  }

  lemma {:induction false} StartIsSum(sizes: seq<nat>, n: nat)
    ensures Start(sizes, n) == SumUpTo(sizes, n)
  {
    if n == 0 {
      SumUpToStep(sizes, 0);
    } else {
      StartIsSum(sizes, n - 1);
      SumUpToStep(sizes, n - 1);
    }
  }

  lemma {:induction false} SumAll(sizes: seq<nat>, n: nat)
    requires forall r :: 0 <= r < |sizes| ==> sizes[r] <= n
    ensures SumUpTo(sizes, n) == Sum(sizes)
  {
    if sizes == [] {
    } else {
      SumAll(sizes[..|sizes| - 1], n);
    }
  }

  /** The interleaved sequence has exactly as many cells as the blocks together. */
  lemma InterleavedLength<T>(blocks: seq<seq<T>>)
    ensures |Interleaved(blocks)| == Sum(Sizes(blocks))
  {
    var n := Longest(blocks);
    ColumnsLength(blocks, n);
    StartIsSum(Sizes(blocks), n);
    SumAll(Sizes(blocks), n);
  }

  // ---------- the inverse ----------

  function LongestSize(sizes: seq<nat>): (n: nat)
    ensures forall r :: 0 <= r < |sizes| ==> sizes[r] <= n
  {
    if sizes == [] then 0
    else
      var rest := LongestSize(sizes[..|sizes| - 1]);
      if sizes[|sizes| - 1] > rest then sizes[|sizes| - 1] else rest
  }

  lemma PositionInside(sizes: seq<nat>, r: nat, i: nat)
    requires r < |sizes| && i < sizes[r]
    ensures Position(sizes, r, i) < Sum(sizes)
  {
    var n := LongestSize(sizes);
    PositionBound(sizes, r, i, n);
    StartIsSum(sizes, n);
    SumAll(sizes, n);
  }

  /** The blocks of the given sizes, taken out of an interleaved sequence. */
  function Deinterleaved<T>(sizes: seq<nat>, data: seq<T>): (blocks: seq<seq<T>>)
    requires |data| == Sum(sizes)
    ensures Sizes(blocks) == sizes
  {
    var blocks := seq(|sizes|, r requires 0 <= r < |sizes| =>
      seq(sizes[r], i requires 0 <= i < sizes[r] => (PositionInside(sizes, r, i); data[Position(sizes, r, i)])));
    assert Sizes(blocks) == sizes;
    blocks
  }

  /** Taking the blocks out of the interleaved sequence gives them back. */
  lemma DeinterleavesInterleaved<T>(blocks: seq<seq<T>>)
    ensures |Interleaved(blocks)| == Sum(Sizes(blocks))
    ensures Deinterleaved(Sizes(blocks), Interleaved(blocks)) == blocks
  {
    InterleavedLength(blocks);
    var again := Deinterleaved(Sizes(blocks), Interleaved(blocks));
    assert Sizes(again) == Sizes(blocks);
    forall r | 0 <= r < |blocks| ensures again[r] == blocks[r] {
      assert |again[r]| == Sizes(again)[r] == |blocks[r]|;
      forall i | 0 <= i < |blocks[r]| ensures again[r][i] == blocks[r][i] {
        ColumnsAt(blocks, Longest(blocks), r, i);
      }
    }
  }

  /** And any sequence of the right length is the interleaving of the blocks taken out of it, so the
      interleaving is a permutation of the cells. */
  lemma InterleavesDeinterleaved<T>(sizes: seq<nat>, data: seq<T>)
    requires |data| == Sum(sizes)
    ensures Interleaved(Deinterleaved(sizes, data)) == data
  {
    var blocks := Deinterleaved(sizes, data);
    var again := Interleaved(blocks);
    InterleavedLength(blocks);
    var n := Longest(blocks);
    ColumnsLength(blocks, n);
    forall k | 0 <= k < |data| ensures again[k] == data[k] {
      var r, i := Find(sizes, n, k);
      assert |blocks[r]| == Sizes(blocks)[r] == sizes[r];
      ColumnsAt(blocks, n, r, i);
    }
  }

  /** What the interleaving is: all first cells in the order of the blocks, then all second cells, and so on,
      blocks that have ended being left out. */
  lemma PositionOrder(sizes: seq<nat>, r: nat, i: nat, r': nat, i': nat)
    requires r < |sizes| && r' < |sizes| && i < sizes[r] && i' < sizes[r'] && (i < i' || (i == i' && r < r'))
    ensures Position(sizes, r, i) < Position(sizes, r', i')
  {
    if i < i' {
      PositionBound(sizes, r, i, i');
    } else {
      CountGrows(sizes[..r'], r, i);
      assert sizes[..r'][..r] == sizes[..r];
    }
  }

  lemma InterleavedAt<T>(blocks: seq<seq<T>>, r: nat, i: nat)
    requires r < |blocks| && i < |blocks[r]|
    ensures var k := Position(Sizes(blocks), r, i);
      0 <= k < |Interleaved(blocks)| && Interleaved(blocks)[k] == blocks[r][i]
  {
    ColumnsAt(blocks, Longest(blocks), r, i);
  }
}
