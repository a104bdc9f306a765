/** How many modules of a symbol hold data in src/web/qrcode.js: the function patterns leave room for the
    codewords of every version, and for less than one codeword more. */
module QrCapacity {
  import opened Basics
  import opened RsBlocks
  import opened Placement
  import opened QrPatterns

  // ---------- counting ----------

  function Range(a: int, b: int): (r: set<int>)
    ensures forall i :: i in r <==> a <= i < b
    ensures |r| == if a < b then b - a else 0
    decreases b - a
  {
    if a >= b then {} else Range(a, b - 1) + {b - 1}
  }

  ghost function Product<T>(rows: set<T>, cols: set<T>): set<(T, T)> {
    set i, j | i in rows && j in cols :: (i, j)
  }

  lemma {:induction false} RowSize<T>(i: T, cols: set<T>)
    ensures |Product({i}, cols)| == |cols|
  {
    if cols == {} {
      assert Product({i}, cols) == {};
    } else {
      var j :| j in cols;
      RowSize(i, cols - {j});
      assert Product({i}, cols) == Product({i}, cols - {j}) + {(i, j)};
    }
  }

  lemma OneMore(a: nat, b: nat)
    ensures (a + 1) * b == a * b + b
  {
  }

  lemma {:induction false} ProductSize<T>(rows: set<T>, cols: set<T>)
    ensures |Product(rows, cols)| == |rows| * |cols|
  {
    if rows == {} {
      assert Product(rows, cols) == {};
    } else {
      var i :| i in rows;
      var rest := rows - {i};
      ProductSize(rest, cols);
      RowSize(i, cols);
      assert Product(rows, cols) == Product(rest, cols) + Product({i}, cols);
      hide Product;
      OneMore(|rest|, |cols|);
      assert |rows| == |rest| + 1;
    }
  }

  lemma {:induction false} DistinctSize(s: seq<Cell>, cells: set<Cell>)
    requires Distinct(s) && forall x :: x in s <==> x in cells
    ensures |s| == |cells|
  {
    if s == [] {
      assert cells == {};
    } else {
      var k := |s| - 1;
      DistinctPrefix(s, k);
      assert s == s[..k] + [s[k]];
      DistinctSize(s[..k], cells - {s[k]});
    }
  }

  // ---------- the parts of the function patterns ----------

  /** The cells of the columns that the walk visits. */
  ghost function Visited(n: int): set<Cell> {
    Product(Range(0, n), Range(0, n) - {6})
  }

  ghost function ProbeCells(n: int): set<Cell> {
    Product(Range(0, 8), Range(0, 8) - {6}) + Product(Range(n - 8, n), Range(0, 8) - {6})
      + Product(Range(0, 8), Range(n - 8, n))
  }

  ghost function LineCells(n: int): set<Cell> {
    Product(Range(6, 7), Range(8, n - 8))
  }

  ghost function InfoCells(n: int): set<Cell> {
    Product(Range(0, 8) - {6}, Range(8, 9)) + Product(Range(8, 9), Range(0, 9) - {6})
      + Product(Range(8, 9), Range(n - 8, n)) + Product(Range(n - 8, n), Range(8, 9))
  }

  ghost function NumberCells(n: int): set<Cell> {
    Product(Range(0, 6), Range(n - 11, n - 8)) + Product(Range(n - 11, n - 8), Range(0, 6))
  }

  lemma InProduct(rows: set<int>, cols: set<int>, x: Cell)
    ensures x in Product(rows, cols) <==> x.0 in rows && x.1 in cols
  {
  }

  lemma Membership(n: int, x: Cell)
    requires n >= 21
    ensures x in Visited(n) <==> Inside(n, x) && x.1 != 6
    ensures x in ProbeCells(n) <==> x in Visited(n) && ProbeModule(n, x.0, x.1)
    ensures x in LineCells(n) <==> x in Visited(n) && x.0 == 6 && !ProbeModule(n, x.0, x.1)
    ensures x in InfoCells(n) <==> x in Visited(n) && InfoModule(n, x.0, x.1)
    ensures x in NumberCells(n) <==> x in Visited(n) && NumberModule(n, x.0, x.1)
  {
    hide Range;
  }

  lemma Area<T>(rows: set<T>, cols: set<T>, height: nat, width: nat)
    requires |rows| == height && |cols| == width
    ensures |Product(rows, cols)| == height * width
  {
    ProductSize(rows, cols);
  }

  /** A product that does not meet the cells counted so far. */
  lemma Add<T>(cells: set<(T, T)>, rows: set<T>, cols: set<T>, height: nat, width: nat)
    requires |rows| == height && |cols| == width && forall i, j :: i in rows && j in cols ==> (i, j) !in cells
    ensures |cells + Product(rows, cols)| == |cells| + height * width
  {
    ProductSize(rows, cols);
    forall x | x in Product(rows, cols) ensures x !in cells {
      assert x == (x.0, x.1);
    }
  }

  lemma VisitedSize(n: int)
    requires n >= 21
    ensures |Visited(n)| == n * (n - 1)
  {
    ProductSize(Range(0, n), Range(0, n) - {6});
  }

  lemma ProbeSize(n: int)
    requires n >= 21
    ensures |ProbeCells(n)| == 176
  {
    hide Range;
    var first := Product(Range(0, 8), Range(0, 8) - {6});
    var second := first + Product(Range(n - 8, n), Range(0, 8) - {6});
    Area(Range(0, 8), Range(0, 8) - {6}, 8, 7);
    Add(first, Range(n - 8, n), Range(0, 8) - {6}, 8, 7);
    Add(second, Range(0, 8), Range(n - 8, n), 8, 8);
  }

  lemma InfoSize(n: int)
    requires n >= 21
    ensures |InfoCells(n)| == 31
  {
    hide Range;
    var first := Product(Range(0, 8) - {6}, Range(8, 9));
    var second := first + Product(Range(8, 9), Range(0, 9) - {6});
    var third := second + Product(Range(8, 9), Range(n - 8, n));
    Area(Range(0, 8) - {6}, Range(8, 9), 7, 1);
    Add(first, Range(8, 9), Range(0, 9) - {6}, 1, 8);
    Add(second, Range(8, 9), Range(n - 8, n), 1, 8);
    Add(third, Range(n - 8, n), Range(8, 9), 8, 1);
  }

  lemma NumberSize(n: int)
    requires n >= 21
    ensures |NumberCells(n)| == 36
  {
    hide Range;
    Area(Range(0, 6), Range(n - 11, n - 8), 6, 3);
    Add(Product(Range(0, 6), Range(n - 11, n - 8)), Range(n - 11, n - 8), Range(0, 6), 3, 6);
  }

  lemma LineSize(n: int)
    requires n >= 21
    ensures |LineCells(n)| == n - 16
  {
    hide Range;
    Area(Range(6, 7), Range(8, n - 8), 1, n - 16);
  }

  // ---------- the alignment patterns ----------

  /** The coordinates near one of the first k positions, other than the first one. */
  ghost function Near1(pos: seq<int>, k: nat): set<int>
    requires k <= |pos|
  {
    if k <= 1 then {} else Near1(pos, k - 1) + Range(pos[k - 1] - 2, pos[k - 1] + 3)
  }

  lemma {:induction false} InNear1(pos: seq<int>, n: int, k: nat, i: int)
    requires WellPlaced(pos, n) && k <= |pos|
    ensures i in Near1(pos, k) <==> 1 <= Near(pos, i) < k
  {
    if k <= 1 {
    } else {
      InNear1(pos, n, k - 1, i);
      NearIs(pos, n, i, k - 1);
      hide Near, Range, WellPlaced;
    }
  }

  lemma {:induction false} Near1Size(pos: seq<int>, n: int, k: nat)
    requires WellPlaced(pos, n) && 1 <= k <= |pos|
    ensures |Near1(pos, k)| == 5 * (k - 1)
  {
    if k == 1 {
    } else {
      Near1Size(pos, n, k - 1);
      var more := Range(pos[k - 1] - 2, pos[k - 1] + 3);
      forall i | i in more ensures i !in Near1(pos, k - 1) {
        InNear1(pos, n, k - 1, i);
        NearIs(pos, n, i, k - 1);
      }
      hide Near, Range, WellPlaced;
      assert Near1(pos, k - 1) !! more;
    }
  }

  /** The coordinates near the first position, without the timing line. */
  ghost function Beside(): (r: set<int>)
    ensures forall i :: i in r <==> 4 <= i <= 8 && i != 6
    ensures |r| == 4
  {
    Range(4, 9) - {6}
  }

  ghost function AdjustCells(pos: seq<int>): set<Cell> {
    if pos == [] then {}
    else
      Product(Beside(), Near1(pos, |pos| - 1)) + Product(Near1(pos, |pos| - 1), Beside())
        + Product(Near1(pos, |pos|), Near1(pos, |pos|))
  }

  /** Which crossings are not in a position pattern. */
  lemma Crossings(pos: seq<int>, n: int, a: nat, b: nat)
    requires WellPlaced(pos, n) && n >= 21 && a < |pos| && b < |pos|
    ensures ProbeModule(n, pos[a], pos[b]) <==> (a == 0 && (b == 0 || b == |pos| - 1)) || (a == |pos| - 1 && b == 0)
  {
    Between(pos, n, a);
    Between(pos, n, b);
  }

  lemma Coordinate(pos: seq<int>, n: int, i: int)
    requires WellPlaced(pos, n) && pos != []
    ensures i in Beside() <==> Near(pos, i) == 0 && i != 6
    ensures i in Near1(pos, |pos| - 1) <==> 1 <= Near(pos, i) < |pos| - 1
    ensures i in Near1(pos, |pos|) <==> 1 <= Near(pos, i)
  {
    NearIs(pos, n, i, 0);
    InNear1(pos, n, |pos| - 1, i);
    InNear1(pos, n, |pos|, i);
    hide Near, Near1, WellPlaced, Range, Beside;
  }

  lemma AdjustProducts(pos: seq<int>, x: Cell)
    requires pos != []
    ensures var first, middle, others := Beside(), Near1(pos, |pos| - 1), Near1(pos, |pos|);
      x in AdjustCells(pos) <==>
        (x.0 in first && x.1 in middle) || (x.0 in middle && x.1 in first) || (x.0 in others && x.1 in others)
  {
    hide Near1, Beside;
  }

  lemma AdjustIs(pos: seq<int>, n: int, i: int, j: int)
    requires WellPlaced(pos, n) && n >= 21 && pos != []
    ensures var a, b, last := Near(pos, i), Near(pos, j), |pos| - 1;
      AdjustModule(n, pos, i, j) <==>
        (a == 0 && 1 <= b < last) || (1 <= a < last && b == 0) || (a >= 1 && b >= 1)
  {
    var a, b := Near(pos, i), Near(pos, j);
    assert |pos| != 1;
    if a >= 0 && b >= 0 {
      Crossings(pos, n, a, b);
    }
    hide Near, ProbeModule, WellPlaced;
  }

  lemma SixIsFirst(pos: seq<int>, n: int, i: int)
    requires WellPlaced(pos, n) && pos != []
    ensures i == 6 ==> Near(pos, i) == 0
  {
    NearIs(pos, n, i, 0);
  }

  lemma InAdjust(pos: seq<int>, n: int, x: Cell)
    requires WellPlaced(pos, n) && n >= 21 && x.1 != 6
    ensures x in AdjustCells(pos) <==> AdjustModule(n, pos, x.0, x.1) && x.0 != 6
  {
    if pos != [] {
      Coordinate(pos, n, x.0);
      Coordinate(pos, n, x.1);
      AdjustProducts(pos, x);
      AdjustIs(pos, n, x.0, x.1);
      SixIsFirst(pos, n, x.0);
      hide *;
    }
  }

  lemma Areas(k: int)
    requires k >= 2
    ensures 4 * (5 * (k - 2)) + 5 * (k - 2) * 4 + 5 * (k - 1) * (5 * (k - 1)) == AlignmentModules(k)
  {
  }

  lemma AdjustSize(pos: seq<int>, n: int)
    requires WellPlaced(pos, n)
    ensures |AdjustCells(pos)| == AlignmentModules(|pos|)
  {
    if pos != [] {
      var k := |pos|;
      assert k != 1;
      Areas(k);
      hide AlignmentModules;
      var first, middle, others := Beside(), Near1(pos, k - 1), Near1(pos, k);
      Near1Size(pos, n, k - 1);
      Near1Size(pos, n, k);
      forall i ensures i in first ==> i !in others
               ensures i in middle ==> i in others {
        Coordinate(pos, n, i);
      }
      hide Near1, Beside, WellPlaced, Product;
      var once, twice := Product(first, middle), Product(first, middle) + Product(middle, first);
      Area(first, middle, 4, 5 * (k - 2));
      forall i, j | i in middle && j in first ensures (i, j) !in once {
        InProduct(first, middle, (i, j));
      }
      Add(once, middle, first, 5 * (k - 2), 4);
      forall i, j | i in others && j in others ensures (i, j) !in twice {
        InProduct(first, middle, (i, j));
        InProduct(middle, first, (i, j));
      }
      Add(twice, others, others, 5 * (k - 1), 5 * (k - 1));
    }
  }

  // ---------- the whole symbol ----------

  ghost function FunctionCells(typeNumber: int): set<Cell> {
    var n := typeNumber * 4 + 17;
    ProbeCells(n) + LineCells(n) + InfoCells(n) + (if typeNumber >= 7 then NumberCells(n) else {})
      + AdjustCells(Positions(typeNumber))
  }

  /** The alignment patterns keep clear of everything but the timing row. */
  lemma AdjustIsClear(pos: seq<int>, n: int, x: Cell)
    requires WellPlaced(pos, n) && n >= 21 && x.1 != 6 && x in AdjustCells(pos)
    ensures Inside(n, x) && x.0 != 6 && !ProbeModule(n, x.0, x.1) && !InfoModule(n, x.0, x.1) && !NumberModule(n, x.0, x.1)
  {
    InAdjust(pos, n, x);
    var a, b := Near(pos, x.0), Near(pos, x.1);
    AdjustIs(pos, n, x.0, x.1);
    Between(pos, n, a);
    Between(pos, n, b);
    hide AdjustCells, AdjustModule, Near, WellPlaced;
  }

  lemma NotColumn6(pos: seq<int>, n: int, x: Cell)
    requires WellPlaced(pos, n) && x in AdjustCells(pos)
    ensures x.1 != 6
  {
    Coordinate(pos, n, x.1);
    AdjustProducts(pos, x);
    hide AdjustCells, Near1, Product;
    NearIs(pos, n, 6, 0);
  }

  lemma InUnion(typeNumber: int, x: Cell)
    ensures var n := typeNumber * 4 + 17;
      x in FunctionCells(typeNumber) <==>
        || x in ProbeCells(n) || x in LineCells(n) || x in InfoCells(n) || (typeNumber >= 7 && x in NumberCells(n))
        || x in AdjustCells(Positions(typeNumber))
  {
    hide ProbeCells, LineCells, InfoCells, NumberCells, AdjustCells, Positions;
  }

  lemma InFunction(typeNumber: int, x: Cell)
    requires 1 <= typeNumber <= 40
    ensures var n := typeNumber * 4 + 17;
      && (x in Visited(n) <==> Inside(n, x) && x.1 != 6)
      && (x in FunctionCells(typeNumber) <==> x in Visited(n) && FunctionModule(typeNumber, x.0, x.1))
  {
    hide Visited, ProbeCells, LineCells, InfoCells, NumberCells, AdjustCells, Positions, WellPlaced, ProbeModule, InfoModule,
      NumberModule, AdjustModule, FunctionCells;
    var n, pos := typeNumber * 4 + 17, Positions(typeNumber);
    PositionsFacts(typeNumber);
    Membership(n, x);
    InUnion(typeNumber, x);
    if x in AdjustCells(pos) {
      NotColumn6(pos, n, x);
      AdjustIsClear(pos, n, x);
    }
    if x.1 != 6 {
      InAdjust(pos, n, x);
    }
  }

  /** No cell is counted twice. */
  lemma OneOnly(n: int, pos: seq<int>, x: Cell)
    requires n >= 21 && WellPlaced(pos, n)
    ensures x in ProbeCells(n) ==> x !in LineCells(n)
    ensures x in ProbeCells(n) + LineCells(n) ==> x !in InfoCells(n)
    ensures x in ProbeCells(n) + LineCells(n) + InfoCells(n) ==> x !in NumberCells(n)
    ensures x in ProbeCells(n) + LineCells(n) + InfoCells(n) + NumberCells(n) ==> x !in AdjustCells(pos)
  {
    hide Visited, ProbeCells, LineCells, InfoCells, NumberCells, AdjustCells, WellPlaced;
    Membership(n, x);
    if x in AdjustCells(pos) && x.1 != 6 {
      AdjustIsClear(pos, n, x);
    }
  }

  lemma UnionSize<T>(a: set<T>, b: set<T>, c: set<T>, d: set<T>, e: set<T>)
    requires forall x :: x in a ==> x !in b
    requires forall x :: x in a + b ==> x !in c
    requires forall x :: x in a + b + c ==> x !in d
    requires forall x :: x in a + b + c + d ==> x !in e
    ensures |a + b + c + d + e| == |a| + |b| + |c| + |d| + |e|
    ensures |a + b + c + {} + e| == |a| + |b| + |c| + |e|
  {
    assert a !! b && a + b !! c && a + b + c !! d && a + b + c + d !! e;
    assert a + b + c + {} == a + b + c && a + b + c !! e;
  }

  lemma AllApart(n: int, pos: seq<int>)
    requires n >= 21 && WellPlaced(pos, n)
    ensures forall x :: x in ProbeCells(n) ==> x !in LineCells(n)
    ensures forall x :: x in ProbeCells(n) + LineCells(n) ==> x !in InfoCells(n)
    ensures forall x :: x in ProbeCells(n) + LineCells(n) + InfoCells(n) ==> x !in NumberCells(n)
    ensures forall x :: x in ProbeCells(n) + LineCells(n) + InfoCells(n) + NumberCells(n) ==> x !in AdjustCells(pos)
  {
    hide *;
    forall x: Cell
      ensures x in ProbeCells(n) ==> x !in LineCells(n)
      ensures x in ProbeCells(n) + LineCells(n) ==> x !in InfoCells(n)
      ensures x in ProbeCells(n) + LineCells(n) + InfoCells(n) ==> x !in NumberCells(n)
      ensures x in ProbeCells(n) + LineCells(n) + InfoCells(n) + NumberCells(n) ==> x !in AdjustCells(pos)
    {
      OneOnly(n, pos, x);
    }
  }

  lemma FunctionSize(typeNumber: int)
    requires 1 <= typeNumber <= 40
    ensures var n := typeNumber * 4 + 17;
      |FunctionCells(typeNumber)|
        == 176 + (n - 16) + 31 + (if typeNumber >= 7 then 36 else 0) + AlignmentModules(Alignments(typeNumber))
  {
    hide ProbeCells, LineCells, InfoCells, NumberCells, AdjustCells, Positions, WellPlaced, AlignmentModules, Alignments;
    var n, pos := typeNumber * 4 + 17, Positions(typeNumber);
    PositionsFacts(typeNumber);
    ProbeSize(n);
    LineSize(n);
    InfoSize(n);
    NumberSize(n);
    AdjustSize(pos, n);
    AllApart(n, pos);
    UnionSize(ProbeCells(n), LineCells(n), InfoCells(n), NumberCells(n), AdjustCells(pos));
  }

  /** The cells that are not function modules, in the order of the walk. */
  function Chosen(typeNumber: int, cells: seq<Cell>): seq<Cell> {
    if cells == [] then []
    else
      var x := cells[|cells| - 1];
      Chosen(typeNumber, cells[..|cells| - 1]) + (if FunctionModule(typeNumber, x.0, x.1) then [] else [x])
  }

  function DataCells(typeNumber: nat): seq<Cell> {
    Chosen(typeNumber, Walk(typeNumber * 4 + 17))
  }

  /** On a grid where just the function modules are filled, the free cells are the data cells. */
  lemma {:induction false} FreeIsChosen(g: Grid, n: nat, typeNumber: int, cells: seq<Cell>)
    requires Square(g, n) && forall x :: x in cells ==> Inside(n, x)
    requires forall x :: Inside(n, x) ==> (At(g, n, x).Some? <==> FunctionModule(typeNumber, x.0, x.1))
    ensures Free(g, n, cells) == Chosen(typeNumber, cells)
  {
    if cells == [] {
    } else {
      hide FunctionModule, At;
      assert cells == cells[..|cells| - 1] + [cells[|cells| - 1]];
      FreeIsChosen(g, n, typeNumber, cells[..|cells| - 1]);
    }
  }

  lemma {:induction false} ChosenCells(typeNumber: int, cells: seq<Cell>)
    requires Distinct(cells)
    ensures Distinct(Chosen(typeNumber, cells))
    ensures forall x :: x in Chosen(typeNumber, cells) <==> x in cells && !FunctionModule(typeNumber, x.0, x.1)
  {
    if cells == [] {
    } else {
      hide FunctionModule;
      var k := |cells| - 1;
      DistinctPrefix(cells, k);
      assert cells == cells[..k] + [cells[k]];
      ChosenCells(typeNumber, cells[..k]);
      if !FunctionModule(typeNumber, cells[k].0, cells[k].1) {
        DistinctConcat(Chosen(typeNumber, cells[..k]), [cells[k]]);
      }
    }
  }

  lemma ColumnSix(typeNumber: int, x: Cell)
    ensures x.1 == 6 ==> FunctionModule(typeNumber, x.0, x.1)
  {
  }

  lemma DataCellsAre(typeNumber: nat, x: Cell)
    requires 1 <= typeNumber <= 40
    ensures var n := typeNumber * 4 + 17;
      && (x in DataCells(typeNumber) <==> Inside(n, x) && !FunctionModule(typeNumber, x.0, x.1))
      && (x in DataCells(typeNumber) <==> x in Visited(n) && x !in FunctionCells(typeNumber))
      && (x in FunctionCells(typeNumber) ==> x in Visited(n))
  {
    hide FunctionModule, Walk, Visited, FunctionCells, Chosen;
    WalkVisitsOnce(typeNumber * 4 + 17);
    ChosenCells(typeNumber, Walk(typeNumber * 4 + 17));
    InFunction(typeNumber, x);
    ColumnSix(typeNumber, x);
  }

  lemma Difference<T>(all: set<T>, some: set<T>)
    requires forall x :: x in some ==> x in all
    ensures |all - some| == |all| - |some|
  {
    assert some <= all;
  }

  lemma DataCellsDistinct(typeNumber: nat)
    requires 1 <= typeNumber <= 40
    ensures Distinct(DataCells(typeNumber))
  {
    hide Walk, Chosen, Distinct;
    WalkVisitsOnce(typeNumber * 4 + 17);
    ChosenCells(typeNumber, Walk(typeNumber * 4 + 17));
  }

  lemma DataCellsRest(typeNumber: nat)
    requires 1 <= typeNumber <= 40
    ensures var n := typeNumber * 4 + 17;
      |DataCells(typeNumber)| == |Visited(n)| - |FunctionCells(typeNumber)|
  {
    hide *;
    var n := typeNumber * 4 + 17;
    forall x: Cell
      ensures x in FunctionCells(typeNumber) ==> x in Visited(n)
      ensures x in DataCells(typeNumber) <==> x in Visited(n) - FunctionCells(typeNumber)
    {
      DataCellsAre(typeNumber, x);
    }
    DataCellsDistinct(typeNumber);
    DistinctSize(DataCells(typeNumber), Visited(n) - FunctionCells(typeNumber));
    Difference(Visited(n), FunctionCells(typeNumber));
  }

  /** The walk meets each module that holds data, once, and there are as many as the standard says. */
  lemma DataCellsCount(typeNumber: nat)
    requires 1 <= typeNumber <= 40
    ensures var n := typeNumber * 4 + 17;
      && Distinct(DataCells(typeNumber))
      && (forall x :: x in DataCells(typeNumber) <==> Inside(n, x) && !FunctionModule(typeNumber, x.0, x.1))
      && |DataCells(typeNumber)| == DataModules(typeNumber)
  {
    hide Walk, DataCells, Visited, FunctionCells, FunctionModule, Distinct, Alignments, AlignmentModules;
    VisitedSize(typeNumber * 4 + 17);
    FunctionSize(typeNumber);
    DataCellsDistinct(typeNumber);
    DataCellsRest(typeNumber);
    forall x: Cell
      ensures x in DataCells(typeNumber) <==> Inside(typeNumber * 4 + 17, x) && !FunctionModule(typeNumber, x.0, x.1)
    {
      DataCellsAre(typeNumber, x);
    }
  }

  /** At every level the codewords of every version fit, and eight modules more would be one codeword more. */
  lemma Capacity(level: Level, typeNumber: nat)
    requires 1 <= typeNumber <= 40
    ensures var total := TotalCount(Blocks(level, typeNumber)); 8 * total <= |DataCells(typeNumber)| < 8 * total + 8
  {
    BlockFacts(level, typeNumber);
    CodewordsFill(typeNumber);
    DataCellsCount(typeNumber);
    hide Blocks, TotalCount, DataCells, DataModules, DataCount, AllSound, CodewordCount;
  }
}
