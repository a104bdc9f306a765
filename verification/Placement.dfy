/** The placement of the codewords in src/web/qrcode.js (section 7.7.3 of ISO/IEC 18004:2015): the zig-zag
    walk of mapData over the modules that the function patterns left empty. */
module Placement {
  import opened Basics
  import opened BitStrings
  import opened QrData

  type Cell = (int, int)
  /** A module is light, dark or, as null, not decided. */
  type Grid = seq<seq<Option<bool>>>

  ghost predicate Square(g: Grid, n: nat) {
    |g| == n && forall r :: 0 <= r < n ==> |g[r]| == n
  }

  predicate Inside(n: nat, x: Cell) {
    0 <= x.0 < n && 0 <= x.1 < n
  }

  function At(g: Grid, n: nat, x: Cell): Option<bool>
    requires Square(g, n) && Inside(n, x)
  {
    g[x.0][x.1]
  }

  function Set(g: Grid, n: nat, x: Cell, v: bool): (h: Grid)
    requires Square(g, n) && Inside(n, x)
    ensures Square(h, n)
    ensures forall y :: Inside(n, y) ==> At(h, n, y) == if y == x then Some(v) else At(g, n, y)
  {
    g[x.0 := g[x.0][x.1 := Some(v)]]
  }

  // ---------- the walk ----------

  /** One of the pairs of columns of a symbol of odd size. */
  predicate IsPair(n: nat, p: nat): (b: bool)
    ensures b ==> n >= 9
  {
    n % 2 == 1 && n >= 9 && p < n / 2
  }

  /** The right column of pair p; the pairs step over the timing column 6. */
  function RightColumn(n: int, p: int): int {
    if n - 1 - 2 * p > 6 then n - 1 - 2 * p else n - 2 - 2 * p
  }

  predicate InPair(n: int, p: int, c: int) {
    c == RightColumn(n, p) || c == RightColumn(n, p) - 1
  }

  /** The row at step j of pair p: upwards and downwards in turn. */
  function RowAt(n: int, p: int, j: int): int {
    if p % 2 == 0 then n - 1 - j else j
  }

  /** The first j steps of pair p, two cells each. */
  function Strip(n: nat, p: nat, j: nat): seq<Cell> {
    if j == 0 then []
    else Strip(n, p, j - 1) + [(RowAt(n, p, j - 1), RightColumn(n, p)), (RowAt(n, p, j - 1), RightColumn(n, p) - 1)]
  }

  /** The first k pairs. */
  function Strips(n: nat, k: nat): seq<Cell> {
    if k == 0 then [] else Strips(n, k - 1) + Strip(n, k - 1, n)
  }

  function Walk(n: nat): seq<Cell> {
    Strips(n, n / 2)
  }

  ghost predicate Distinct(s: seq<Cell>) {
    forall i, j :: 0 <= i < j < |s| ==> s[i] != s[j]
  }

  lemma DistinctConcat(a: seq<Cell>, b: seq<Cell>)
    requires Distinct(a) && Distinct(b) && forall x :: x in a ==> x !in b
    ensures Distinct(a + b)
  {
    forall i, j | 0 <= i < j < |a + b| ensures (a + b)[i] != (a + b)[j] {
      if i < |a| <= j {
        assert (a + b)[i] in a && (a + b)[j] == b[j - |a|] && b[j - |a|] in b;
      }
    }
  }

  /** The cells of a strip. */
  lemma {:induction false} StripMember(n: nat, p: nat, j: nat, x: Cell)
    requires j <= n
    ensures x in Strip(n, p, j) <==> InPair(n, p, x.1) && (if p % 2 == 0 then n - j <= x.0 < n else 0 <= x.0 < j)
  {
    if j == 0 {
    } else {
      StripMember(n, p, j - 1, x);
      hide RightColumn;
      var row, col := RowAt(n, p, j - 1), RightColumn(n, p);
      assert x in Strip(n, p, j) <==> x in Strip(n, p, j - 1) || x == (row, col) || x == (row, col - 1);
      hide Strip;
    }
  }

  lemma {:induction false} StripDistinct(n: nat, p: nat, j: nat)
    requires j <= n
    ensures Distinct(Strip(n, p, j))
  {
    if j == 0 {
    } else {
      StripDistinct(n, p, j - 1);
      var row, col := RowAt(n, p, j - 1), RightColumn(n, p);
      StripMember(n, p, j - 1, (row, col));
      StripMember(n, p, j - 1, (row, col - 1));
      assert Distinct([(row, col), (row, col - 1)]);
      hide Distinct, RightColumn, RowAt;
      DistinctConcat(Strip(n, p, j - 1), [(row, col), (row, col - 1)]);
    }
  }

  /** The leftmost column of the first k pairs. */
  function Left(n: nat, k: nat): int {
    if k == 0 then n else RightColumn(n, k - 1) - 1
  }

  lemma LeftMoves(n: nat, k: nat)
    requires n % 2 == 1 && n >= 9 && 1 <= k <= n / 2
    ensures 0 <= Left(n, k) < Left(n, k - 1) <= n
    ensures k == n / 2 ==> Left(n, k) == 0
  {
  }

  lemma PairColumns(n: nat, k: nat, c: int)
    requires n % 2 == 1 && n >= 9 && 1 <= k <= n / 2
    ensures InPair(n, k - 1, c) <==> Left(n, k) <= c < Left(n, k - 1) && c != 6
  {
  }

  predicate InStrips(n: nat, k: nat, x: Cell) {
    0 <= x.0 < n && Left(n, k) <= x.1 < n && x.1 != 6
  }

  lemma OneMorePair(n: nat, k: nat, x: Cell)
    requires n % 2 == 1 && n >= 9 && 1 <= k <= n / 2
    ensures InStrips(n, k, x) <==> InStrips(n, k - 1, x) || (0 <= x.0 < n && InPair(n, k - 1, x.1))
    ensures !(InStrips(n, k - 1, x) && InPair(n, k - 1, x.1))
  {
    LeftMoves(n, k);
    PairColumns(n, k, x.1);
    hide Left, InPair;
  }

  lemma StripsStep(n: nat, k: nat, x: Cell)
    requires k > 0
    ensures x in Strips(n, k) <==> x in Strips(n, k - 1) || x in Strip(n, k - 1, n)
    ensures Strips(n, k) == Strips(n, k - 1) + Strip(n, k - 1, n)
  {
    hide Strip;
  }

  /** The cells of the first k pairs. */
  lemma {:induction false} StripsMember(n: nat, k: nat, x: Cell)
    requires n % 2 == 1 && n >= 9 && k <= n / 2
    ensures x in Strips(n, k) <==> InStrips(n, k, x)
  {
    if k > 0 {
      StripsStep(n, k, x);
      hide *;
      StripsMember(n, k - 1, x);
      StripMember(n, k - 1, n, x);
      OneMorePair(n, k, x);
    }
  }

  lemma NotInBoth(n: nat, k: nat, x: Cell)
    requires n % 2 == 1 && n >= 9 && 1 <= k <= n / 2 && x in Strips(n, k - 1)
    ensures x !in Strip(n, k - 1, n)
  {
    hide *;
    StripsMember(n, k - 1, x);
    StripMember(n, k - 1, n, x);
    OneMorePair(n, k, x);
  }

  lemma {:induction false} StripsDistinct(n: nat, k: nat)
    requires n % 2 == 1 && n >= 9 && k <= n / 2
    ensures Distinct(Strips(n, k))
  {
    if k == 0 {
    } else {
      StripsStep(n, k, (0, 0));
      hide *;
      StripsDistinct(n, k - 1);
      StripDistinct(n, k - 1, n);
      var before, strip := Strips(n, k - 1), Strip(n, k - 1, n);
      forall x | x in before ensures x !in strip {
        NotInBoth(n, k, x);
      }
      DistinctConcat(before, strip);
    }
  }

  /** The walk visits every module outside column 6 exactly once, and nothing else. */
  lemma WalkVisitsOnce(n: nat)
    requires n % 2 == 1 && n >= 9
    ensures Distinct(Walk(n))
    ensures forall x :: x in Walk(n) <==> Inside(n, x) && x.1 != 6
  {
    StripsDistinct(n, n / 2);
    LeftMoves(n, n / 2);
    hide Strips, Left, Distinct;
    var walk := Walk(n);
    forall x: Cell ensures x in walk <==> Inside(n, x) && x.1 != 6 {
      StripsMember(n, n / 2, x);
    }
  }

  // ---------- placing the bits ----------

  /** Bit i of the codewords; beyond their end the source leaves a module light. */
  function DataBit(data: seq<nat>, i: nat): bool {
    i / 8 < |data| && Shr(data[i / 8], 7 - i % 8) % 2 == 1
  }

  /** The mask patterns. */
  type Mask = m: nat | m < 8

  /** getMaskFunction. */
  predicate Flips(mask: Mask, i: int, j: int) {
    match mask
    case 0 => (i + j) % 2 == 0
    case 1 => i % 2 == 0
    case 2 => j % 3 == 0
    case 3 => (i + j) % 3 == 0
    case 4 => (i / 2 + j / 3) % 2 == 0
    case 5 => i * j % 2 + i * j % 3 == 0
    case 6 => (i * j % 2 + i * j % 3) % 2 == 0
    case _ => (i * j % 3 + (i + j) % 2) % 2 == 0
  }

  function Dark(data: seq<nat>, mask: Mask, i: nat, x: Cell): bool {
    if Flips(mask, x.0, x.1) then !DataBit(data, i) else DataBit(data, i)
  }

  /** The cells of the walk that the function patterns left empty, in order. */
  function Free(g: Grid, n: nat, cells: seq<Cell>): (f: seq<Cell>)
    requires Square(g, n) && forall x :: x in cells ==> Inside(n, x)
    ensures forall x :: x in f <==> x in cells && At(g, n, x).None?
  {
    if cells == [] then []
    else
      var k := |cells| - 1;
      assert cells == cells[..k] + [cells[k]];
      Free(g, n, cells[..k]) + (if At(g, n, cells[k]).None? then [cells[k]] else [])
  }

  /** The grid after the i-th free cell got the i-th bit, for all of them. */
  function Placed(g: Grid, n: nat, free: seq<Cell>, data: seq<nat>, mask: Mask): (h: Grid)
    requires Square(g, n) && forall x :: x in free ==> Inside(n, x)
    ensures Square(h, n)
  {
    if free == [] then g
    else
      var k := |free| - 1;
      Set(Placed(g, n, free[..k], data, mask), n, free[k], Dark(data, mask, k, free[k]))
  }

  lemma {:induction false} FreeDistinct(g: Grid, n: nat, cells: seq<Cell>)
    requires Square(g, n) && Distinct(cells) && forall x :: x in cells ==> Inside(n, x)
    ensures Distinct(Free(g, n, cells))
  {
    if cells == [] {
    } else {
      var k := |cells| - 1;
      FreeDistinct(g, n, cells[..k]);
      if At(g, n, cells[k]).None? {
        DistinctConcat(Free(g, n, cells[..k]), [cells[k]]);
      }
    }
  }

  lemma DistinctPrefix(s: seq<Cell>, k: nat)
    requires Distinct(s) && k < |s|
    ensures Distinct(s[..k]) && s[k] !in s[..k]
    ensures forall x :: x in s <==> x in s[..k] || x == s[k] || x in s[k + 1..]
  {
    assert s == s[..k] + [s[k]] + s[k + 1..];
  }

  lemma LastPlaced(g: Grid, n: nat, free: seq<Cell>, data: seq<nat>, mask: Mask)
    requires Square(g, n) && free != [] && forall x :: x in free ==> Inside(n, x)
    ensures var k, h := |free| - 1, Placed(g, n, free, data, mask);
      && At(h, n, free[k]) == Some(Dark(data, mask, k, free[k]))
      && forall x :: Inside(n, x) && x != free[k] ==> At(h, n, x) == At(Placed(g, n, free[..k], data, mask), n, x)
  {
    hide Dark, At;
  }

  /** Each free cell holds its bit, under the mask; every other cell is as it was. */
  lemma {:induction false} PlacedCells(g: Grid, n: nat, free: seq<Cell>, data: seq<nat>, mask: Mask)
    requires Square(g, n) && Distinct(free) && forall x :: x in free ==> Inside(n, x)
    ensures var h := Placed(g, n, free, data, mask);
      && (forall i :: 0 <= i < |free| ==> At(h, n, free[i]) == Some(Dark(data, mask, i, free[i])))
      && (forall x :: Inside(n, x) && x !in free ==> At(h, n, x) == At(g, n, x))
  {
    hide Dark, At, Set;
    if free == [] {
    } else {
      var k, h := |free| - 1, Placed(g, n, free, data, mask);
      DistinctPrefix(free, k);
      PlacedCells(g, n, free[..k], data, mask);
      LastPlaced(g, n, free, data, mask);
      forall i | 0 <= i < |free| ensures At(h, n, free[i]) == Some(Dark(data, mask, i, free[i])) {
        if i < k {
          assert free[..k][i] == free[i] && free[i] in free[..k];
        }
      }
    }
  }

  // ---------- the loops ----------

  ghost function Snapshot(a: array2<Option<bool>>): (g: Grid)
    requires a.Length0 == a.Length1
    reads a
    ensures Square(g, a.Length0)
  {
    seq(a.Length0, r requires 0 <= r < a.Length0 reads a =>
      seq(a.Length1, c requires 0 <= c < a.Length1 reads a => a[r, c]))
  }

  lemma SameGrid(a: Grid, b: Grid, n: nat)
    requires Square(a, n) && Square(b, n)
    requires forall r, c :: 0 <= r < n && 0 <= c < n ==> a[r][c] == b[r][c]
    ensures a == b
  {
    forall r | 0 <= r < n ensures a[r] == b[r] {
    }
  }

  /** One more cell of the walk. */
  lemma FreeStep(g: Grid, n: nat, cells: seq<Cell>, x: Cell)
    requires Square(g, n) && (forall y :: y in cells ==> Inside(n, y)) && Inside(n, x)
    ensures (forall y :: y in cells + [x] ==> Inside(n, y))
    ensures Free(g, n, cells + [x]) == Free(g, n, cells) + if At(g, n, x).None? then [x] else []
  {
    assert (cells + [x])[..|cells|] == cells;
  }

  lemma PlacedStep(g: Grid, n: nat, free: seq<Cell>, x: Cell, data: seq<nat>, mask: Mask)
    requires Square(g, n) && (forall y :: y in free ==> Inside(n, y)) && Inside(n, x)
    ensures (forall y :: y in free + [x] ==> Inside(n, y))
    ensures Placed(g, n, free + [x], data, mask)
         == Set(Placed(g, n, free, data, mask), n, x, Dark(data, mask, |free|, x))
  {
    assert (free + [x])[..|free|] == free;
  }

  /** What mapData has written when it has visited `cells`. */
  ghost predicate Mapped(now: Grid, g: Grid, n: nat, cells: seq<Cell>, data: seq<nat>, mask: Mask, k: nat)
    requires Square(g, n)
  {
    && Square(now, n) && Distinct(cells) && (forall y :: y in cells ==> Inside(n, y))
    && k == |Free(g, n, cells)| && now == Placed(g, n, Free(g, n, cells), data, mask)
  }

  /** At a cell that was not visited yet, the grid is as it was. */
  lemma NotYet(now: Grid, g: Grid, n: nat, cells: seq<Cell>, data: seq<nat>, mask: Mask, k: nat, x: Cell)
    requires Square(g, n) && Mapped(now, g, n, cells, data, mask, k) && Inside(n, x) && x !in cells
    ensures At(now, n, x) == At(g, n, x)
  {
    FreeDistinct(g, n, cells);
    PlacedCells(g, n, Free(g, n, cells), data, mask);
  }

  /** The visit of one more cell. */
  lemma Visit(now: Grid, g: Grid, n: nat, cells: seq<Cell>, data: seq<nat>, mask: Mask, k: nat, x: Cell)
    requires Square(g, n) && Mapped(now, g, n, cells, data, mask, k) && Inside(n, x) && x !in cells
    ensures At(now, n, x).Some? ==> Mapped(now, g, n, cells + [x], data, mask, k)
    ensures At(now, n, x).None? ==> Mapped(Set(now, n, x, Dark(data, mask, k, x)), g, n, cells + [x], data, mask, k + 1)
  {
    NotYet(now, g, n, cells, data, mask, k, x);
    DistinctConcat(cells, [x]);
    FreeStep(g, n, cells, x);
    PlacedStep(g, n, Free(g, n, cells), x, data, mask);
    hide Dark, Set, At, Placed, Free, Distinct;
    if At(now, n, x).Some? {
      assert Free(g, n, cells) + [] == Free(g, n, cells);
    }
  }

  /** The place of bit k in the codewords. */
  ghost predicate Counts(byteIndex: int, bitIndex: int, k: nat) {
    0 <= bitIndex <= 7 && 0 <= byteIndex && k == 8 * byteIndex + 7 - bitIndex
  }

  lemma BitAt(data: seq<nat>, byteIndex: int, bitIndex: int, k: nat)
    requires Counts(byteIndex, bitIndex, k)
    ensures DataBit(data, k) == (byteIndex < |data| && Shr(data[byteIndex], bitIndex) % 2 == 1)
    ensures if bitIndex == 0 then Counts(byteIndex + 1, 7, k + 1) else Counts(byteIndex, bitIndex - 1, k + 1)
  {
    assert k / 8 == byteIndex && k % 8 == 7 - bitIndex;
  }

  /** The loops of mapData, when they have visited `cells` and stand at the given bit. */
  ghost predicate Progress(modules: array2<Option<bool>>, g: Grid, cells: seq<Cell>, data: seq<nat>, mask: Mask,
                           byteIndex: int, bitIndex: int)
    reads modules
  {
    && modules.Length0 == modules.Length1 && Square(g, modules.Length0)
    && 0 <= bitIndex <= 7 && 0 <= byteIndex
    && Mapped(Snapshot(modules), g, modules.Length0, cells, data, mask, 8 * byteIndex + 7 - bitIndex)
  }

  /** The body of the innermost loop. */
  method MapCell(modules: array2<Option<bool>>, row: int, col: int, data: seq<nat>, mask: Mask,
                 byteIndex: int, bitIndex: int, ghost g: Grid, ghost cells: seq<Cell>)
    returns (byteIndex': int, bitIndex': int)
    requires Progress(modules, g, cells, data, mask, byteIndex, bitIndex)
    requires Inside(modules.Length0, (row, col)) && (row, col) !in cells
    modifies modules
    ensures Progress(modules, g, cells + [(row, col)], data, mask, byteIndex', bitIndex')
  {
    ghost var n, now, k := modules.Length0, Snapshot(modules), 8 * byteIndex + 7 - bitIndex;
    Visit(now, g, n, cells, data, mask, k, (row, col));
    BitAt(data, byteIndex, bitIndex, k);
    byteIndex', bitIndex' := byteIndex, bitIndex;
    hide Mapped, DataBit, Flips;
    if modules[row, col] == None {
      var dark := false;
      if byteIndex < |data| {
        dark := Shr(data[byteIndex], bitIndex) % 2 == 1;
      }
      if Flips(mask, row, col) {
        dark := !dark;
      }
      modules[row, col] := Some(dark);
      SameGrid(Snapshot(modules), Set(now, n, (row, col), dark), n);
      bitIndex' := bitIndex - 1;
      if bitIndex' == -1 {
        byteIndex', bitIndex' := byteIndex + 1, 7;
      }
    }
  }

  /** The cells before the c-th one of step j of pair p. */
  ghost function Before(n: nat, p: nat, j: nat, c: nat): seq<Cell> {
    var row, col := RowAt(n, p, j), RightColumn(n, p);
    Strips(n, p) + Strip(n, p, j) + (if c == 0 then [] else if c == 1 then [(row, col)] else [(row, col), (row, col - 1)])
  }

  lemma WholeStrip(n: nat, p: nat)
    ensures Before(n, p, n, 0) == Before(n, p + 1, 0, 0) && Before(n, 0, 0, 0) == [] && Before(n, n / 2, 0, 0) == Walk(n)
  {
  }

  lemma WholeStep(n: nat, p: nat, j: nat)
    ensures Before(n, p, j, 2) == Before(n, p, j + 1, 0)
  {
    hide RowAt, RightColumn, Strips;
    assert Strip(n, p, j + 1)
        == Strip(n, p, j) + [(RowAt(n, p, j), RightColumn(n, p)), (RowAt(n, p, j), RightColumn(n, p) - 1)];
  }

  /** The next cell was not visited before. */
  lemma NextCell(n: nat, p: nat, j: nat, c: nat)
    requires n % 2 == 1 && n >= 9 && p < n / 2 && j < n && c < 2
    ensures var x := (RowAt(n, p, j), RightColumn(n, p) - c);
      && Inside(n, x) && x !in Before(n, p, j, c) && Before(n, p, j, c) + [x] == Before(n, p, j, c + 1)
  {
    var x := (RowAt(n, p, j), RightColumn(n, p) - c);
    LeftMoves(n, p + 1);
    StripMember(n, p, j, x);
    StripsMember(n, p, x);
    OneMorePair(n, p + 1, x);
    hide Strips, Strip;
  }

  /** The loops stand before the c-th cell of step j of pair p. */
  ghost predicate Reached(modules: array2<Option<bool>>, g: Grid, p: nat, j: nat, c: nat, data: seq<nat>, mask: Mask,
                          byteIndex: int, bitIndex: int)
    reads modules
  {
    Progress(modules, g, Before(modules.Length0, p, j, c), data, mask, byteIndex, bitIndex)
  }

  method MapNext(modules: array2<Option<bool>>, row: int, col: int, data: seq<nat>, mask: Mask,
                 byteIndex: int, bitIndex: int, ghost g: Grid, ghost p: nat, ghost j: nat, ghost c: nat)
    returns (byteIndex': int, bitIndex': int)
    requires IsPair(modules.Length0, p) && j < modules.Length0 && c < 2
    requires row == RowAt(modules.Length0, p, j) && col == RightColumn(modules.Length0, p) - c
    requires Reached(modules, g, p, j, c, data, mask, byteIndex, bitIndex)
    modifies modules
    ensures Reached(modules, g, p, j, c + 1, data, mask, byteIndex', bitIndex')
  {
    NextCell(modules.Length0, p, j, c);
    hide Progress, Before, RowAt, RightColumn;
    byteIndex', bitIndex' := MapCell(modules, row, col, data, mask, byteIndex, bitIndex, g, Before(modules.Length0, p, j, c));
  }

  lemma RowDone(modules: array2<Option<bool>>, g: Grid, p: nat, j: nat, data: seq<nat>, mask: Mask,
                byteIndex: int, bitIndex: int)
    requires Reached(modules, g, p, j, 2, data, mask, byteIndex, bitIndex)
    ensures Reached(modules, g, p, j + 1, 0, data, mask, byteIndex, bitIndex)
  {
    hide Progress, Before;
    WholeStep(modules.Length0, p, j);
  }

  /** The two cells of one row. */
  method MapRow(modules: array2<Option<bool>>, row: int, col: int, data: seq<nat>, mask: Mask,
                byteIndex: int, bitIndex: int, ghost g: Grid, ghost p: nat, ghost j: nat)
    returns (byteIndex': int, bitIndex': int)
    requires IsPair(modules.Length0, p) && j < modules.Length0
    requires row == RowAt(modules.Length0, p, j) && col == RightColumn(modules.Length0, p)
    requires Reached(modules, g, p, j, 0, data, mask, byteIndex, bitIndex)
    modifies modules
    ensures Reached(modules, g, p, j + 1, 0, data, mask, byteIndex', bitIndex')
  {
    hide *;
    byteIndex', bitIndex' := byteIndex, bitIndex;
    for c := 0 to 2
      invariant Reached(modules, g, p, j, c, data, mask, byteIndex', bitIndex')
    {
      byteIndex', bitIndex' := MapNext(modules, row, col - c, data, mask, byteIndex', bitIndex', g, p, j, c);
    }
    RowDone(modules, g, p, j, data, mask, byteIndex', bitIndex');
  }

  function Direction(p: int): int {
    if p % 2 == 0 then -1 else 1
  }

  lemma NextStep(n: nat, p: nat, j: nat)
    requires j < n
    ensures var next := RowAt(n, p, j) + Direction(p);
      && (next < 0 || n <= next <==> j + 1 == n)
      && next == RowAt(n, p, j + 1)
      && (j + 1 == n ==> RowAt(n, p, j) == RowAt(n, p + 1, 0))
    ensures Direction(p + 1) == -Direction(p)
  {
  }

  lemma NextPair(modules: array2<Option<bool>>, g: Grid, p: nat, data: seq<nat>, mask: Mask, byteIndex: int, bitIndex: int)
    requires Reached(modules, g, p, modules.Length0, 0, data, mask, byteIndex, bitIndex)
    ensures Reached(modules, g, p + 1, 0, 0, data, mask, byteIndex, bitIndex)
  {
    hide Progress, Before;
    WholeStrip(modules.Length0, p);
  }

  /** The loop over the rows of a pair of columns. */
  method MapPair(modules: array2<Option<bool>>, col: int, row: int, inc: int, data: seq<nat>, mask: Mask,
                 byteIndex: int, bitIndex: int, ghost g: Grid, ghost p: nat)
    returns (row': int, inc': int, byteIndex': int, bitIndex': int)
    requires IsPair(modules.Length0, p)
    requires col == RightColumn(modules.Length0, p) && row == RowAt(modules.Length0, p, 0) && inc == Direction(p)
    requires Reached(modules, g, p, 0, 0, data, mask, byteIndex, bitIndex)
    modifies modules
    ensures Reached(modules, g, p + 1, 0, 0, data, mask, byteIndex', bitIndex')
    ensures inc' == Direction(p + 1) && row' == RowAt(modules.Length0, p + 1, 0)
  {
    hide *;
    ghost var n := modules.Length0;
    row', inc', byteIndex', bitIndex' := row, inc, byteIndex, bitIndex;
    ghost var j: nat := 0;
    while true
      invariant j < n && row' == RowAt(n, p, j) && inc' == inc
      invariant Reached(modules, g, p, j, 0, data, mask, byteIndex', bitIndex')
      decreases n - j
    {
      byteIndex', bitIndex' := MapRow(modules, row', col, data, mask, byteIndex', bitIndex', g, p, j);
      NextStep(n, p, j);
      j := j + 1;
      row' := row' + inc';
      if row' < 0 || modules.Length0 <= row' {
        row' := row' - inc';
        inc' := -inc';
        break;
      }
    }
    NextPair(modules, g, p, data, mask, byteIndex', bitIndex');
  }

  lemma FirstPair(modules: array2<Option<bool>>, data: seq<nat>, mask: Mask)
    requires modules.Length0 == modules.Length1
    ensures Reached(modules, Snapshot(modules), 0, 0, 0, data, mask, 0, 7)
  {
    WholeStrip(modules.Length0, 0);
  }

  lemma FirstDirection()
    ensures Direction(0) == -1
  {
  }

  lemma ProgressEnds(modules: array2<Option<bool>>, g: Grid, data: seq<nat>, mask: Mask, byteIndex: int, bitIndex: int)
    requires Progress(modules, g, Walk(modules.Length0), data, mask, byteIndex, bitIndex)
    ensures var n := modules.Length0;
      && modules.Length0 == modules.Length1 && Square(g, n) && (forall x :: x in Walk(n) ==> Inside(n, x))
      && Snapshot(modules) == Placed(g, n, Free(g, n, Walk(n)), data, mask)
  {
    hide Walk, Placed, Free;
  }

  lemma WalkEnds(modules: array2<Option<bool>>, g: Grid, data: seq<nat>, mask: Mask, byteIndex: int, bitIndex: int)
    requires Reached(modules, g, modules.Length0 / 2, 0, 0, data, mask, byteIndex, bitIndex)
    ensures var n := modules.Length0;
      && modules.Length0 == modules.Length1 && Square(g, n) && (forall x :: x in Walk(n) ==> Inside(n, x))
      && Snapshot(modules) == Placed(g, n, Free(g, n, Walk(n)), data, mask)
  {
    hide Progress, Before, Walk, Placed, Free;
    WholeStrip(modules.Length0, modules.Length0 / 2);
    ProgressEnds(modules, g, data, mask, byteIndex, bitIndex);
  }

  /** mapData: the bits go, under the mask, into the modules that were null, in the order of the walk. */
  method MapData(modules: array2<Option<bool>>, data: seq<nat>, mask: Mask)
    requires modules.Length0 == modules.Length1 && modules.Length0 % 2 == 1 && modules.Length0 >= 9
    modifies modules
    ensures var g, n := old(Snapshot(modules)), modules.Length0;
      && (forall x :: x in Walk(n) ==> Inside(n, x))
      && Snapshot(modules) == Placed(g, n, Free(g, n, Walk(n)), data, mask)
  {
    hide Progress, Before, Walk, Placed, Free, Direction, Reached, Snapshot;
    var moduleCount := modules.Length0;
    ghost var n, g := modules.Length0, Snapshot(modules);
    FirstPair(modules, data, mask);
    var inc, row, bitIndex, byteIndex, col := -1, moduleCount - 1, 7, 0, moduleCount - 1;
    ghost var p: nat := 0;
    FirstDirection();
    while col > 0
      invariant p <= n / 2 && col == (if n - 1 - 2 * p >= 6 then n - 1 - 2 * p else n - 2 - 2 * p)
      invariant row == RowAt(n, p, 0) && inc == Direction(p)
      invariant Reached(modules, g, p, 0, 0, data, mask, byteIndex, bitIndex)
      decreases col
    {
      if col == 6 {
        col := col - 1;
      }
      row, inc, byteIndex, bitIndex := MapPair(modules, col, row, inc, data, mask, byteIndex, bitIndex, g, p);
      p := p + 1;
      col := col - 2;
    }
    WalkEnds(modules, g, data, mask, byteIndex, bitIndex);
  }

  // ---------- reading back ----------

  /** What a reader of the finished symbol sees in the cells that are not function patterns. */
  function ReadBits(h: Grid, n: nat, free: seq<Cell>, mask: Mask): (bits: seq<bool>)
    requires Square(h, n) && forall x :: x in free ==> Inside(n, x) && At(h, n, x).Some?
    ensures |bits| == |free|
  {
    seq(|free|, i requires 0 <= i < |free| => At(h, n, free[i]).value != Flips(mask, free[i].0, free[i].1))
  }

  lemma {:induction false} DataBitIs(data: seq<nat>, i: nat)
    requires i < 8 * |data|
    ensures DataBit(data, i) == MsbBytes(data)[i]
  {
    var n := |data| - 1;
    if i < 8 * n {
      DataBitIs(data[..n], i);
    } else {
      MsbAt(data[n], 8, i - 8 * n);
    }
  }

  /** A reader that follows the same walk under the same mask gets the bits of the codewords, as many as
      there are modules for them, and zeros after the last one. */
  lemma WalkReadsBack(g: Grid, n: nat, data: seq<nat>, mask: Mask)
    requires Square(g, n) && n % 2 == 1 && n >= 9
    ensures forall x :: x in Walk(n) ==> Inside(n, x)
    ensures var free := Free(g, n, Walk(n)); var h := Placed(g, n, free, data, mask);
      && (forall x :: x in free ==> At(h, n, x).Some?)
      && var bits := ReadBits(h, n, free, mask);
      && |bits| == |free|
      && (forall i :: 0 <= i < |free| ==> bits[i] == (i < 8 * |data| && MsbBytes(data)[i]))
      && (8 * |data| <= |free| ==> bits[..8 * |data|] == MsbBytes(data))
  {
    WalkVisitsOnce(n);
    var free := Free(g, n, Walk(n));
    FreeDistinct(g, n, Walk(n));
    PlacedCells(g, n, free, data, mask);
    var h := Placed(g, n, free, data, mask);
    hide Walk, Free, Placed, At, MsbBytes, Flips, Square;
    forall x | x in free ensures At(h, n, x).Some? {
      var i :| 0 <= i < |free| && free[i] == x;
    }
    forall i | 0 <= i < |free| ensures ReadBits(h, n, free, mask)[i] == (i < 8 * |data| && MsbBytes(data)[i]) {
      if i < 8 * |data| {
        DataBitIs(data, i);
      }
    }
  }

  /** Nothing else changes, and no module stays null if column 6 was filled before. */
  lemma NoModuleStaysNull(g: Grid, n: nat, data: seq<nat>, mask: Mask)
    requires Square(g, n) && n % 2 == 1 && n >= 9
    ensures forall x :: x in Walk(n) ==> Inside(n, x)
    ensures var h := Placed(g, n, Free(g, n, Walk(n)), data, mask);
      && (forall x :: Inside(n, x) && At(g, n, x).Some? ==> At(h, n, x) == At(g, n, x))
      && ((forall r :: 0 <= r < n ==> At(g, n, (r, 6)).Some?) <==> (forall x :: Inside(n, x) ==> At(h, n, x).Some?))
  {
    WalkVisitsOnce(n);
    var free := Free(g, n, Walk(n));
    FreeDistinct(g, n, Walk(n));
    PlacedCells(g, n, free, data, mask);
    var h := Placed(g, n, free, data, mask);
    hide Walk, Free, Placed, At, Square;
    forall x | Inside(n, x) && x.1 != 6 ensures At(h, n, x).Some? {
      if x in free {
        var i :| 0 <= i < |free| && free[i] == x;
      }
    }
  }
}
