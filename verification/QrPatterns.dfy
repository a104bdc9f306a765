/** The function patterns of src/web/qrcode.js (section 6.3 and annex E of ISO/IEC 18004:2015): the set-up
    methods that run before mapData. */
module QrPatterns {
  import opened Basics
  import opened BitStrings
  import opened RsBlocks
  import opened Placement
  import opened QrBch

  // ---------- position and timing patterns ----------

  predicate ProbeDark(r: int, c: int) {
    (0 <= r <= 6 && (c == 0 || c == 6)) || (0 <= c <= 6 && (r == 0 || r == 6)) || (2 <= r <= 4 && 2 <= c <= 4)
  }

  /** setupPositionProbePattern: nine by nine modules, as far as they lie in the symbol. */
  method SetupPositionProbePattern(modules: array2<Option<bool>>, row: int, col: int)
    requires modules.Length0 == modules.Length1
    modifies modules
    ensures forall i, j :: 0 <= i < modules.Length0 && 0 <= j < modules.Length1 ==>
      modules[i, j] == if row - 1 <= i <= row + 7 && col - 1 <= j <= col + 7 then Some(ProbeDark(i - row, j - col))
                       else old(modules[i, j])
  {
    for r := -1 to 8
      invariant forall i, j :: 0 <= i < modules.Length0 && 0 <= j < modules.Length1 ==>
        modules[i, j] == if row - 1 <= i < row + r && col - 1 <= j <= col + 7 then Some(ProbeDark(i - row, j - col))
                         else old(modules[i, j])
    {
      if row + r <= -1 || modules.Length0 <= row + r {
        continue;
      }
      for c := -1 to 8
        invariant forall i, j :: 0 <= i < modules.Length0 && 0 <= j < modules.Length1 ==>
          modules[i, j] == if row - 1 <= i <= row + r && col - 1 <= j <= col + 7 && (i < row + r || j < col + c)
                           then Some(ProbeDark(i - row, j - col))
                           else old(modules[i, j])
      {
        if col + c <= -1 || modules.Length0 <= col + c {
          continue;
        }
        modules[row + r, col + c] := Some(ProbeDark(r, c));
      }
    }
  }

  method SetupTimingPattern(modules: array2<Option<bool>>)
    requires modules.Length0 == modules.Length1 && modules.Length0 >= 21
    modifies modules
    ensures forall i, j :: 0 <= i < modules.Length0 && 0 <= j < modules.Length1 ==>
      modules[i, j] == if old(modules[i, j]) == None && j == 6 && 8 <= i < modules.Length0 - 8 then Some(i % 2 == 0)
                       else if old(modules[i, j]) == None && i == 6 && 8 <= j < modules.Length0 - 8 then Some(j % 2 == 0)
                       else old(modules[i, j])
  {
    for r := 8 to modules.Length0 - 8
      invariant forall i, j :: 0 <= i < modules.Length0 && 0 <= j < modules.Length1 ==>
        modules[i, j] == if old(modules[i, j]) == None && j == 6 && 8 <= i < r then Some(i % 2 == 0) else old(modules[i, j])
    {
      if modules[r, 6] != None {
        continue;
      }
      modules[r, 6] := Some(r % 2 == 0);
    }
    for c := 8 to modules.Length0 - 8
      invariant forall i, j :: 0 <= i < modules.Length0 && 0 <= j < modules.Length1 ==>
        modules[i, j] == if old(modules[i, j]) == None && j == 6 && 8 <= i < modules.Length0 - 8 then Some(i % 2 == 0)
                         else if old(modules[i, j]) == None && i == 6 && 8 <= j < c then Some(j % 2 == 0)
                         else old(modules[i, j])
    {
      if modules[6, c] != None {
        continue;
      }
      modules[6, c] := Some(c % 2 == 0);
    }
  }

  // ---------- alignment patterns ----------

  /** PATTERN_POSITION_TABLE: the centres of the alignment patterns. */
  function Positions(typeNumber: int): seq<int> {
    if typeNumber == 1 then []
    else if typeNumber == 2 then [6, 18]
    else if typeNumber == 3 then [6, 22]
    else if typeNumber == 4 then [6, 26]
    else if typeNumber == 5 then [6, 30]
    else if typeNumber == 6 then [6, 34]
    else if typeNumber == 7 then [6, 22, 38]
    else if typeNumber == 8 then [6, 24, 42]
    else if typeNumber == 9 then [6, 26, 46]
    else if typeNumber == 10 then [6, 28, 50]
    else if typeNumber == 11 then [6, 30, 54]
    else if typeNumber == 12 then [6, 32, 58]
    else if typeNumber == 13 then [6, 34, 62]
    else if typeNumber == 14 then [6, 26, 46, 66]
    else if typeNumber == 15 then [6, 26, 48, 70]
    else if typeNumber == 16 then [6, 26, 50, 74]
    else if typeNumber == 17 then [6, 30, 54, 78]
    else if typeNumber == 18 then [6, 30, 56, 82]
    else if typeNumber == 19 then [6, 30, 58, 86]
    else if typeNumber == 20 then [6, 34, 62, 90]
    else if typeNumber == 21 then [6, 28, 50, 72, 94]
    else if typeNumber == 22 then [6, 26, 50, 74, 98]
    else if typeNumber == 23 then [6, 30, 54, 78, 102]
    else if typeNumber == 24 then [6, 28, 54, 80, 106]
    else if typeNumber == 25 then [6, 32, 58, 84, 110]
    else if typeNumber == 26 then [6, 30, 58, 86, 114]
    else if typeNumber == 27 then [6, 34, 62, 90, 118]
    else if typeNumber == 28 then [6, 26, 50, 74, 98, 122]
    else if typeNumber == 29 then [6, 30, 54, 78, 102, 126]
    else if typeNumber == 30 then [6, 26, 52, 78, 104, 130]
    else if typeNumber == 31 then [6, 30, 56, 82, 108, 134]
    else if typeNumber == 32 then [6, 34, 60, 86, 112, 138]
    else if typeNumber == 33 then [6, 30, 58, 86, 114, 142]
    else if typeNumber == 34 then [6, 34, 62, 90, 118, 146]
    else if typeNumber == 35 then [6, 30, 54, 78, 102, 126, 150]
    else if typeNumber == 36 then [6, 24, 50, 76, 102, 128, 154]
    else if typeNumber == 37 then [6, 28, 54, 80, 106, 132, 158]
    else if typeNumber == 38 then [6, 32, 58, 84, 110, 136, 162]
    else if typeNumber == 39 then [6, 26, 54, 82, 110, 138, 166]
    else if typeNumber == 40 then [6, 30, 58, 86, 114, 142, 170]
    else []
  }

  /** The positions keep their distance, from the timing line to the position patterns. */
  predicate WellPlaced(pos: seq<int>, n: int) {
    && |pos| != 1 && (pos != [] ==> pos[0] == 6 && pos[|pos| - 1] == n - 7)
    && forall a :: 0 < a < |pos| ==> pos[a - 1] + 12 <= pos[a]
  }

  /** Every one of them is even. */
  predicate AllEven(pos: seq<int>) {
    forall a :: 0 <= a < |pos| ==> pos[a] % 2 == 0
  }

  lemma LowEven(typeNumber: int)
    requires 1 <= typeNumber <= 20
    ensures AllEven(Positions(typeNumber))
  {
  }

  lemma MiddleEven(typeNumber: int)
    requires 21 <= typeNumber <= 30
    ensures AllEven(Positions(typeNumber))
  {
  }

  lemma HighEven(typeNumber: int)
    requires 31 <= typeNumber <= 35
    ensures AllEven(Positions(typeNumber))
  {
  }

  lemma LastEven(typeNumber: int)
    requires 36 <= typeNumber <= 40
    ensures AllEven(Positions(typeNumber))
  {
  }

  lemma PositionsEven(typeNumber: int)
    requires 1 <= typeNumber <= 40
    ensures AllEven(Positions(typeNumber))
  {
    hide *;
    if typeNumber <= 20 {
      LowEven(typeNumber);
    } else if typeNumber <= 30 {
      MiddleEven(typeNumber);
    } else if typeNumber <= 35 {
      HighEven(typeNumber);
    } else {
      LastEven(typeNumber);
    }
  }

  /** WellPlaced for at most seven positions, one by one. */
  predicate RowPlaced(pos: seq<int>, n: int) {
    && |pos| <= 7 && |pos| != 1 && (pos != [] ==> pos[0] == 6 && pos[|pos| - 1] == n - 7)
    && (1 < |pos| ==> pos[0] + 12 <= pos[1]) && (2 < |pos| ==> pos[1] + 12 <= pos[2])
    && (3 < |pos| ==> pos[2] + 12 <= pos[3]) && (4 < |pos| ==> pos[3] + 12 <= pos[4])
    && (5 < |pos| ==> pos[4] + 12 <= pos[5]) && (6 < |pos| ==> pos[5] + 12 <= pos[6])
  }

  lemma LowRows(typeNumber: int)
    requires 1 <= typeNumber <= 20
    ensures var pos := Positions(typeNumber); |pos| == Alignments(typeNumber) && RowPlaced(pos, typeNumber * 4 + 17)
  {
  }

  lemma MiddleRows(typeNumber: int)
    requires 21 <= typeNumber <= 30
    ensures var pos := Positions(typeNumber); |pos| == Alignments(typeNumber) && RowPlaced(pos, typeNumber * 4 + 17)
  {
  }

  lemma HighRows(typeNumber: int)
    requires 31 <= typeNumber <= 40
    ensures var pos := Positions(typeNumber); |pos| == Alignments(typeNumber) && RowPlaced(pos, typeNumber * 4 + 17)
  {
  }

  lemma PositionsFacts(typeNumber: int)
    requires 1 <= typeNumber <= 40
    ensures |Positions(typeNumber)| == Alignments(typeNumber) && WellPlaced(Positions(typeNumber), typeNumber * 4 + 17)
  {
    hide Positions, Alignments;
    if typeNumber <= 20 {
      LowRows(typeNumber);
    } else if typeNumber <= 30 {
      MiddleRows(typeNumber);
    } else {
      HighRows(typeNumber);
    }
  }

  lemma {:induction false} Apart(pos: seq<int>, n: int, a: nat, b: nat)
    requires WellPlaced(pos, n) && a < b < |pos|
    ensures pos[a] + 12 <= pos[b]
  {
    if a + 1 == b {
    } else {
      Apart(pos, n, a, b - 1);
    }
  }

  lemma Between(pos: seq<int>, n: int, a: nat)
    requires WellPlaced(pos, n) && a < |pos| && n >= 21
    ensures 6 <= pos[a] <= n - 7 && (a > 0 ==> 18 <= pos[a]) && (a < |pos| - 1 ==> pos[a] <= n - 19)
  {
    if a > 0 {
      Apart(pos, n, 0, a);
    }
    if a < |pos| - 1 {
      Apart(pos, n, a, |pos| - 1);
    }
  }

  /** The index of the position within two modules of i, or -1. */
  function Near(pos: seq<int>, i: int): (a: int)
    ensures -1 <= a < |pos|
    ensures a >= 0 ==> pos[a] - 2 <= i <= pos[a] + 2
  {
    if pos == [] then -1
    else
      var last := |pos| - 1;
      if pos[last] - 2 <= i <= pos[last] + 2 then last else Near(pos[..last], i)
  }

  lemma {:induction false} NearNone(pos: seq<int>, i: int, a: nat)
    requires a < |pos| && pos[a] - 2 <= i <= pos[a] + 2
    ensures Near(pos, i) >= 0
  {
    if a == |pos| - 1 {
    } else {
      NearNone(pos[..|pos| - 1], i, a);
    }
  }

  /** There is no choice. */
  lemma NearIs(pos: seq<int>, n: int, i: int, a: nat)
    requires WellPlaced(pos, n) && a < |pos|
    ensures Near(pos, i) == a <==> pos[a] - 2 <= i <= pos[a] + 2
  {
    var b := Near(pos, i);
    if pos[a] - 2 <= i <= pos[a] + 2 {
      NearNone(pos, i, a);
      if a < b {
        Apart(pos, n, a, b);
      } else if b < a {
        Apart(pos, n, b, a);
      }
    }
  }

  predicate AdjustDark(r: int, c: int) {
    r == -2 || r == 2 || c == -2 || c == 2 || (r == 0 && c == 0)
  }

  /** The two inner loops of setupPositionAdjustPattern. */
  method AdjustAround(modules: array2<Option<bool>>, row: int, col: int)
    requires modules.Length0 == modules.Length1 && 2 <= row < modules.Length0 - 2 && 2 <= col < modules.Length0 - 2
    modifies modules
    ensures forall i, j :: 0 <= i < modules.Length0 && 0 <= j < modules.Length1 ==>
      modules[i, j] == if row - 2 <= i <= row + 2 && col - 2 <= j <= col + 2 then Some(AdjustDark(i - row, j - col))
                       else old(modules[i, j])
  {
    for r := -2 to 3
      invariant forall i, j :: 0 <= i < modules.Length0 && 0 <= j < modules.Length1 ==>
        modules[i, j] == if row - 2 <= i < row + r && col - 2 <= j <= col + 2 then Some(AdjustDark(i - row, j - col))
                         else old(modules[i, j])
    {
      for c := -2 to 3
        invariant forall i, j :: 0 <= i < modules.Length0 && 0 <= j < modules.Length1 ==>
          modules[i, j] == if row - 2 <= i <= row + r && col - 2 <= j <= col + 2 && (i < row + r || j < col + c)
                           then Some(AdjustDark(i - row, j - col))
                           else old(modules[i, j])
      {
        modules[row + r, col + c] := Some(AdjustDark(r, c));
      }
    }
  }

  /** A module near two positions belongs to an alignment pattern if their crossing was empty. */
  function Adjusted(g: Grid, n: nat, pos: seq<int>, i: int, j: int): Option<bool>
    requires Square(g, n) && Inside(n, (i, j)) && forall a :: 0 <= a < |pos| ==> 0 <= pos[a] < n
  {
    var a, b := Near(pos, i), Near(pos, j);
    if a >= 0 && b >= 0 && g[pos[a]][pos[b]].None? then Some(AdjustDark(i - pos[a], j - pos[b])) else g[i][j]
  }

  /** The loops have passed (i, j) when they stand at the positions a and b. */
  predicate Passed(pos: seq<int>, i: int, j: int, a: int, b: int) {
    Near(pos, i) < a || (Near(pos, i) == a && Near(pos, j) < b)
  }

  ghost predicate AdjustedTo(modules: array2<Option<bool>>, g: Grid, pos: seq<int>, a: int, b: int)
    reads modules
  {
    var n := modules.Length0;
    && n == modules.Length1 && n >= 21 && Square(g, n) && WellPlaced(pos, n)
    && (forall a :: 0 <= a < |pos| ==> 6 <= pos[a] <= n - 7)
    && forall i, j :: 0 <= i < n && 0 <= j < n ==>
         modules[i, j] == if Passed(pos, i, j, a, b) then Adjusted(g, n, pos, i, j) else g[i][j]
  }

  /** The body of the outer loops. */
  method AdjustAt(modules: array2<Option<bool>>, pos: seq<int>, a: nat, b: nat, ghost g: Grid)
    requires AdjustedTo(modules, g, pos, a, b) && a < |pos| && b < |pos|
    modifies modules
    ensures AdjustedTo(modules, g, pos, a, b + 1)
  {
    ghost var n := modules.Length0;
    forall i ensures Near(pos, i) == a <==> pos[a] - 2 <= i <= pos[a] + 2 {
      NearIs(pos, n, i, a);
    }
    forall j ensures Near(pos, j) == b <==> pos[b] - 2 <= j <= pos[b] + 2 {
      NearIs(pos, n, j, b);
    }
    hide Near, AdjustDark;
    if modules[pos[a], pos[b]] != None {
      return;
    }
    AdjustAround(modules, pos[a], pos[b]);
  }

  lemma RowDone(modules: array2<Option<bool>>, g: Grid, pos: seq<int>, a: nat)
    requires AdjustedTo(modules, g, pos, a, |pos|)
    ensures AdjustedTo(modules, g, pos, a + 1, 0)
  {
    hide AdjustDark;
  }

  method SetupPositionAdjustPattern(modules: array2<Option<bool>>, typeNumber: int)
    requires 1 <= typeNumber <= 40 && modules.Length0 == modules.Length1 == typeNumber * 4 + 17
    modifies modules
    ensures AdjustedTo(modules, old(Snapshot(modules)), Positions(typeNumber), |Positions(typeNumber)|, 0)
  {
    var pos := Positions(typeNumber);
    PositionsFacts(typeNumber);
    hide Positions;
    ghost var g := Snapshot(modules);
    forall a | 0 <= a < |pos| ensures 6 <= pos[a] <= modules.Length0 - 7 {
      Between(pos, modules.Length0, a);
    }
    assert AdjustedTo(modules, g, pos, 0, 0);
    hide AdjustedTo, Snapshot;
    for i := 0 to |pos|
      invariant AdjustedTo(modules, g, pos, i, 0)
    {
      for j := 0 to |pos|
        invariant AdjustedTo(modules, g, pos, i, j)
      {
        AdjustAt(modules, pos, i, j, g);
      }
      RowDone(modules, g, pos, i);
    }
  }

  // ---------- format and version information ----------

  /** The i-th module of a word; a trial symbol leaves them light. */
  predicate WordDark(test: bool, bits: nat, i: nat) {
    !test && Shr(bits, i) % 2 == 1
  }

  function InfoRow(n: int, i: int): int {
    if i < 6 then i else if i < 8 then i + 1 else n - 15 + i
  }

  function InfoCol(n: int, i: int): int {
    if i < 8 then n - i - 1 else if i < 9 then 15 - i - 1 + 1 else 15 - i - 1
  }

  /** The two copies of the format information and the fixed module. */
  predicate InfoModule(n: int, i: int, j: int) {
    (j == 8 && (i <= 8 || i >= n - 8) && i != 6) || (i == 8 && (j <= 8 || j >= n - 8) && j != 6)
  }

  predicate OnColumn(n: int, i: int, j: int, count: int) {
    j == 8 && exists k :: 0 <= k < count && i == InfoRow(n, k)
  }

  predicate OnRow(n: int, i: int, j: int, count: int) {
    i == 8 && exists k :: 0 <= k < count && j == InfoCol(n, k)
  }

  lemma InfoModules(n: int, i: int, j: int)
    requires n >= 21 && 0 <= i < n && 0 <= j < n
    ensures InfoModule(n, i, j) <==> OnColumn(n, i, j, 15) || OnRow(n, i, j, 15) || (i, j) == (n - 8, 8)
  {
    if j == 8 && InfoModule(n, i, j) && i != n - 8 {
      var k := if i < 6 then i else if i < 9 then i - 1 else i + 15 - n;
      assert i == InfoRow(n, k);
    } else if i == 8 && InfoModule(n, i, j) {
      var k := if j < 6 then 14 - j else if j == 7 then 8 else n - 1 - j;
      assert j == InfoCol(n, k);
    }
  }

  method SetupInfoColumn(modules: array2<Option<bool>>, bits: nat, test: bool)
    requires modules.Length0 == modules.Length1 >= 21
    modifies modules
    ensures forall k :: 0 <= k < 15 ==> modules[InfoRow(modules.Length0, k), 8] == Some(WordDark(test, bits, k))
    ensures forall i, j :: 0 <= i < modules.Length0 && 0 <= j < modules.Length1 ==>
      if OnColumn(modules.Length0, i, j, 15) then modules[i, j].Some? else modules[i, j] == old(modules[i, j])
  {
    hide WordDark;
    ghost var n := modules.Length0;
    for i := 0 to 15
      invariant forall k :: 0 <= k < i ==> modules[InfoRow(n, k), 8] == Some(WordDark(test, bits, k))
      invariant forall r, c :: 0 <= r < n && 0 <= c < n ==>
        if OnColumn(n, r, c, i) then modules[r, c].Some? else modules[r, c] == old(modules[r, c])
    {
      if i < 6 {
        modules[i, 8] := Some(WordDark(test, bits, i));
      } else if i < 8 {
        modules[i + 1, 8] := Some(WordDark(test, bits, i));
      } else {
        modules[modules.Length0 - 15 + i, 8] := Some(WordDark(test, bits, i));
      }
    }
  }

  method SetupInfoRow(modules: array2<Option<bool>>, bits: nat, test: bool)
    requires modules.Length0 == modules.Length1 >= 21
    modifies modules
    ensures forall k :: 0 <= k < 15 ==> modules[8, InfoCol(modules.Length0, k)] == Some(WordDark(test, bits, k))
    ensures forall i, j :: 0 <= i < modules.Length0 && 0 <= j < modules.Length1 ==>
      if OnRow(modules.Length0, i, j, 15) then modules[i, j].Some? else modules[i, j] == old(modules[i, j])
  {
    hide WordDark;
    ghost var n := modules.Length0;
    for i := 0 to 15
      invariant forall k :: 0 <= k < i ==> modules[8, InfoCol(n, k)] == Some(WordDark(test, bits, k))
      invariant forall r, c :: 0 <= r < n && 0 <= c < n ==>
        if OnRow(n, r, c, i) then modules[r, c].Some? else modules[r, c] == old(modules[r, c])
    {
      if i < 8 {
        modules[8, modules.Length0 - i - 1] := Some(WordDark(test, bits, i));
      } else if i < 9 {
        modules[8, 15 - i - 1 + 1] := Some(WordDark(test, bits, i));
      } else {
        modules[8, 15 - i - 1] := Some(WordDark(test, bits, i));
      }
    }
  }

  /** setupTypeInfo: both copies hold the word, the fixed module is dark, and nothing else changes. */
  method SetupTypeInfo(modules: array2<Option<bool>>, bits: nat, test: bool)
    requires modules.Length0 == modules.Length1 >= 21
    modifies modules
    ensures var n := modules.Length0;
      && (forall k :: 0 <= k < 15 ==>
            modules[InfoRow(n, k), 8] == modules[8, InfoCol(n, k)] == Some(WordDark(test, bits, k)))
      && modules[n - 8, 8] == Some(!test)
    ensures forall i, j :: 0 <= i < modules.Length0 && 0 <= j < modules.Length1 ==>
      if InfoModule(modules.Length0, i, j) then modules[i, j].Some? else modules[i, j] == old(modules[i, j])
  {
    hide WordDark;
    SetupInfoColumn(modules, bits, test);
    SetupInfoRow(modules, bits, test);
    modules[modules.Length0 - 8, 8] := Some(!test);
    forall i, j | 0 <= i < modules.Length0 && 0 <= j < modules.Length1
      ensures if InfoModule(modules.Length0, i, j) then modules[i, j].Some? else modules[i, j] == old(modules[i, j])
    {
      InfoModules(modules.Length0, i, j);
      hide OnColumn, OnRow, InfoModule;
    }
  }

  predicate NumberModule(n: int, i: int, j: int) {
    (0 <= i < 6 && n - 11 <= j < n - 8) || (0 <= j < 6 && n - 11 <= i < n - 8)
  }

  /** One of the first `count` places of a copy that has three columns from `first` on. */
  predicate InNumber(r: int, c: int, first: int, count: int) {
    0 <= r && 0 <= c - first < 3 && 3 * r + c - first < count
  }

  lemma NumberPlace(k: nat, first: int)
    requires k < 18 && first >= 6
    ensures var r, c := k / 3, k % 3 + first;
      InNumber(r, c, first, 18) && !InNumber(c, r, first, 18) && 3 * r + c - first == k
  {
  }

  lemma NumberModules(n: int, i: int, j: int)
    requires n >= 21 && 0 <= i && 0 <= j
    ensures NumberModule(n, i, j) <==> InNumber(i, j, n - 11, 18) || InNumber(j, i, n - 11, 18)
  {
  }

  /** The first loop of setupTypeNumber. */
  method SetupNumberRight(modules: array2<Option<bool>>, bits: nat, test: bool)
    requires modules.Length0 == modules.Length1 >= 21
    modifies modules
    ensures var first := modules.Length0 - 11;
      forall r, c :: 0 <= r < modules.Length0 && 0 <= c < modules.Length1 ==>
        modules[r, c] == if InNumber(r, c, first, 18) then Some(WordDark(test, bits, 3 * r + c - first))
                         else old(modules[r, c])
  {
    hide WordDark;
    ghost var n, first := modules.Length0, modules.Length0 - 11;
    for i := 0 to 18
      invariant forall r, c :: 0 <= r < n && 0 <= c < n ==>
        modules[r, c] == if InNumber(r, c, first, i) then Some(WordDark(test, bits, 3 * r + c - first))
                         else old(modules[r, c])
    {
      assert 3 * (i / 3) + i % 3 == i;
      modules[i / 3, i % 3 + modules.Length0 - 8 - 3] := Some(WordDark(test, bits, i));
    }
  }

  /** The second one. */
  method SetupNumberBelow(modules: array2<Option<bool>>, bits: nat, test: bool)
    requires modules.Length0 == modules.Length1 >= 21
    modifies modules
    ensures var first := modules.Length0 - 11;
      forall r, c :: 0 <= r < modules.Length0 && 0 <= c < modules.Length1 ==>
        modules[r, c] == if InNumber(c, r, first, 18) then Some(WordDark(test, bits, 3 * c + r - first))
                         else old(modules[r, c])
  {
    hide WordDark;
    ghost var n, first := modules.Length0, modules.Length0 - 11;
    for i := 0 to 18
      invariant forall r, c :: 0 <= r < n && 0 <= c < n ==>
        modules[r, c] == if InNumber(c, r, first, i) then Some(WordDark(test, bits, 3 * c + r - first))
                         else old(modules[r, c])
    {
      assert 3 * (i / 3) + i % 3 == i;
      modules[i % 3 + modules.Length0 - 8 - 3, i / 3] := Some(WordDark(test, bits, i));
    }
  }

  /** setupTypeNumber: both copies hold the word, and nothing else changes. */
  method SetupTypeNumber(modules: array2<Option<bool>>, bits: nat, test: bool)
    requires modules.Length0 == modules.Length1 >= 21
    modifies modules
    ensures var n := modules.Length0;
      forall k :: 0 <= k < 18 ==>
        modules[k / 3, k % 3 + n - 8 - 3] == modules[k % 3 + n - 8 - 3, k / 3] == Some(WordDark(test, bits, k))
    ensures forall i, j :: 0 <= i < modules.Length0 && 0 <= j < modules.Length1 ==>
      if NumberModule(modules.Length0, i, j) then modules[i, j].Some? else modules[i, j] == old(modules[i, j])
  {
    hide WordDark, InNumber, NumberModule;
    ghost var n, first := modules.Length0, modules.Length0 - 11;
    SetupNumberRight(modules, bits, test);
    SetupNumberBelow(modules, bits, test);
    forall k | 0 <= k < 18
      ensures modules[k / 3, k % 3 + n - 8 - 3] == modules[k % 3 + n - 8 - 3, k / 3] == Some(WordDark(test, bits, k))
    {
      NumberPlace(k, first);
    }
    forall i, j | 0 <= i < n && 0 <= j < n
      ensures if NumberModule(n, i, j) then modules[i, j].Some? else modules[i, j] == old(modules[i, j])
    {
      NumberModules(n, i, j);
    }
  }

  // ---------- all patterns ----------

  /** The three position patterns with the light lines around them. */
  predicate ProbeModule(n: int, i: int, j: int) {
    (i < 8 && (j < 8 || j >= n - 8)) || (i >= n - 8 && j < 8)
  }

  predicate AdjustModule(n: int, pos: seq<int>, i: int, j: int) {
    var a, b := Near(pos, i), Near(pos, j);
    a >= 0 && b >= 0 && !ProbeModule(n, pos[a], pos[b])
  }

  /** The modules that never hold data. */
  predicate FunctionModule(typeNumber: int, i: int, j: int) {
    var n := typeNumber * 4 + 17;
    || ProbeModule(n, i, j) || AdjustModule(n, Positions(typeNumber), i, j) || i == 6 || j == 6 || InfoModule(n, i, j)
    || (typeNumber >= 7 && NumberModule(n, i, j))
  }

  // ---------- the colours ----------

  /** The three position patterns. */
  ghost predicate ProbesShown(g: Grid, n: nat)
    requires Square(g, n)
  {
    forall i, j :: 0 <= i < n && 0 <= j < n && ProbeModule(n, i, j) ==>
      g[i][j] == Some(ProbeDark(if i < 8 then i else i - (n - 7), if j < 8 then j else j - (n - 7)))
  }

  ghost predicate AdjustsShown(g: Grid, n: nat, pos: seq<int>)
    requires Square(g, n)
  {
    forall i, j :: 0 <= i < n && 0 <= j < n && AdjustModule(n, pos, i, j) ==>
      g[i][j] == Some(AdjustDark(i - pos[Near(pos, i)], j - pos[Near(pos, j)]))
  }

  /** Dark and light in turn, alignment patterns on the line included. */
  ghost predicate TimingShown(g: Grid, n: nat)
    requires Square(g, n)
  {
    forall k :: 8 <= k < n - 8 ==> g[k][6] == g[6][k] == Some(k % 2 == 0)
  }

  ghost predicate InfoShown(g: Grid, n: nat, bits: nat, test: bool)
    requires Square(g, n) && n >= 21
  {
    && (forall k :: 0 <= k < 15 ==> g[InfoRow(n, k)][8] == g[8][InfoCol(n, k)] == Some(WordDark(test, bits, k)))
    && g[n - 8][8] == Some(!test)
  }

  ghost predicate NumberShown(g: Grid, n: nat, number: nat, test: bool)
    requires Square(g, n) && n >= 21
  {
    forall k :: 0 <= k < 18 ==>
      g[k / 3][k % 3 + n - 11] == g[k % 3 + n - 11][k / 3] == Some(WordDark(test, number, k))
  }

  ghost predicate BaseShown(g: Grid, n: nat, pos: seq<int>)
    requires Square(g, n)
  {
    ProbesShown(g, n) && AdjustsShown(g, n, pos) && TimingShown(g, n)
  }

  /** Every function module with its colour. */
  ghost predicate PatternsShown(g: Grid, typeNumber: int, bits: nat, number: nat, test: bool)
    requires 1 <= typeNumber <= 40 && Square(g, typeNumber * 4 + 17)
  {
    var n := typeNumber * 4 + 17;
    && BaseShown(g, n, Positions(typeNumber)) && InfoShown(g, n, bits, test)
    && (typeNumber >= 7 ==> NumberShown(g, n, number, test))
  }

  method SetupProbes(modules: array2<Option<bool>>)
    requires modules.Length0 == modules.Length1 >= 21
    requires forall i, j :: 0 <= i < modules.Length0 && 0 <= j < modules.Length1 ==> modules[i, j].None?
    modifies modules
    ensures forall i, j :: 0 <= i < modules.Length0 && 0 <= j < modules.Length1 ==>
      (modules[i, j].Some? <==> ProbeModule(modules.Length0, i, j))
    ensures ProbesShown(Snapshot(modules), modules.Length0)
  {
    hide ProbeDark;
    SetupPositionProbePattern(modules, 0, 0);
    SetupPositionProbePattern(modules, modules.Length0 - 7, 0);
    SetupPositionProbePattern(modules, 0, modules.Length0 - 7);
  }

  /** The alignment patterns appear exactly where they do not meet a position pattern. */
  lemma AdjustFills(modules: array2<Option<bool>>, g: Grid, pos: seq<int>)
    requires AdjustedTo(modules, g, pos, |pos|, 0)
    requires forall i, j :: 0 <= i < |g| && 0 <= j < |g| ==> (g[i][j].Some? <==> ProbeModule(|g|, i, j))
    ensures forall i, j :: 0 <= i < modules.Length0 && 0 <= j < modules.Length1 ==>
      (modules[i, j].Some? <==> ProbeModule(|g|, i, j) || AdjustModule(|g|, pos, i, j))
  {
    hide AdjustDark, ProbeModule, WellPlaced;
  }

  /** A position pattern has no module near a crossing of two positions but for the crossings in its own area. */
  lemma AdjustsApart(n: nat, pos: seq<int>, i: int, j: int)
    requires WellPlaced(pos, n) && n >= 21 && 0 <= i < n && 0 <= j < n && AdjustModule(n, pos, i, j)
    ensures !ProbeModule(n, i, j) && !InfoModule(n, i, j) && !NumberModule(n, i, j)
  {
    Between(pos, n, Near(pos, i));
    Between(pos, n, Near(pos, j));
  }

  lemma AdjustColours(modules: array2<Option<bool>>, g: Grid, pos: seq<int>)
    requires AdjustedTo(modules, g, pos, |pos|, 0) && ProbesShown(g, modules.Length0)
    requires forall i, j :: 0 <= i < |g| && 0 <= j < |g| ==> (g[i][j].Some? <==> ProbeModule(|g|, i, j))
    ensures ProbesShown(Snapshot(modules), modules.Length0)
    ensures AdjustsShown(Snapshot(modules), modules.Length0, pos)
  {
    var n, h := modules.Length0, Snapshot(modules);
    hide AdjustDark, ProbeDark;
    forall i, j | 0 <= i < n && 0 <= j < n && ProbeModule(n, i, j) ensures h[i][j] == g[i][j] {
      if AdjustModule(n, pos, i, j) {
        AdjustsApart(n, pos, i, j);
      }
    }
  }

  method SetupFirst(modules: array2<Option<bool>>, typeNumber: int)
    requires 1 <= typeNumber <= 40 && modules.Length0 == modules.Length1 == typeNumber * 4 + 17
    requires forall i, j :: 0 <= i < modules.Length0 && 0 <= j < modules.Length1 ==> modules[i, j].None?
    modifies modules
    ensures forall i, j :: 0 <= i < modules.Length0 && 0 <= j < modules.Length1 ==>
      (modules[i, j].Some? <==>
        ProbeModule(modules.Length0, i, j) || AdjustModule(modules.Length0, Positions(typeNumber), i, j))
    ensures ProbesShown(Snapshot(modules), modules.Length0)
    ensures AdjustsShown(Snapshot(modules), modules.Length0, Positions(typeNumber))
  {
    hide ProbesShown, AdjustsShown;
    SetupProbes(modules);
    ghost var g := Snapshot(modules);
    hide AdjustedTo, ProbeModule, AdjustModule;
    SetupPositionAdjustPattern(modules, typeNumber);
    AdjustFills(modules, g, Positions(typeNumber));
    AdjustColours(modules, g, Positions(typeNumber));
  }

  /** What setupTimingPattern makes of a grid. */
  ghost predicate TimingStep(g: Grid, h: Grid, n: nat)
    requires Square(g, n) && Square(h, n)
  {
    forall i, j :: 0 <= i < n && 0 <= j < n ==>
      h[i][j] == if g[i][j] == None && j == 6 && 8 <= i < n - 8 then Some(i % 2 == 0)
                 else if g[i][j] == None && i == 6 && 8 <= j < n - 8 then Some(j % 2 == 0)
                 else g[i][j]
  }

  /** Where an alignment pattern crosses the timing line it has its colours. */
  lemma OnTheLine(n: nat, pos: seq<int>, k: int)
    requires WellPlaced(pos, n) && n >= 21 && AllEven(pos) && 8 <= k < n - 8
    ensures AdjustModule(n, pos, k, 6) ==>
      var r, c := k - pos[Near(pos, k)], 6 - pos[Near(pos, 6)];
      AdjustDark(r, c) == AdjustDark(c, r) == (k % 2 == 0)
    ensures AdjustModule(n, pos, k, 6) <==> AdjustModule(n, pos, 6, k)
  {
    if Near(pos, 6) >= 0 {
      NearIs(pos, n, 6, 0);
    }
  }

  lemma TimingColours(g: Grid, h: Grid, n: nat, pos: seq<int>)
    requires Square(g, n) && Square(h, n) && WellPlaced(pos, n) && n >= 21 && AllEven(pos)
    requires forall i, j :: 0 <= i < n && 0 <= j < n ==>
      (g[i][j].Some? <==> ProbeModule(n, i, j) || AdjustModule(n, pos, i, j))
    requires TimingStep(g, h, n) && ProbesShown(g, n) && AdjustsShown(g, n, pos)
    ensures ProbesShown(h, n) && AdjustsShown(h, n, pos) && TimingShown(h, n)
  {
    hide ProbeDark, WellPlaced, AllEven;
    assert ProbesShown(h, n);
    forall k | 8 <= k < n - 8 ensures h[k][6] == h[6][k] == Some(k % 2 == 0) {
      OnTheLine(n, pos, k);
      hide AdjustDark, Near;
    }
    hide AdjustDark, Near, ProbeModule, AdjustModule;
  }

  /** What the last two steps make of a grid. */
  ghost predicate InfoStep(g: Grid, h: Grid, n: nat)
    requires Square(g, n) && Square(h, n)
  {
    forall i, j :: 0 <= i < n && 0 <= j < n && !InfoModule(n, i, j) ==> h[i][j] == g[i][j]
  }

  ghost predicate NumberStep(g: Grid, h: Grid, n: nat)
    requires Square(g, n) && Square(h, n)
  {
    forall i, j :: 0 <= i < n && 0 <= j < n && !NumberModule(n, i, j) ==> h[i][j] == g[i][j]
  }

  lemma InfoKeeps(g: Grid, h: Grid, n: nat, pos: seq<int>)
    requires Square(g, n) && Square(h, n) && WellPlaced(pos, n) && n >= 21
    requires ProbesShown(g, n) && AdjustsShown(g, n, pos) && TimingShown(g, n) && InfoStep(g, h, n)
    ensures ProbesShown(h, n) && AdjustsShown(h, n, pos) && TimingShown(h, n)
  {
    hide ProbeDark, AdjustDark, WellPlaced, AdjustModule, Near;
    assert ProbesShown(h, n) && TimingShown(h, n);
    forall i, j | 0 <= i < n && 0 <= j < n && AdjustModule(n, pos, i, j) ensures h[i][j] == g[i][j] {
      AdjustsApart(n, pos, i, j);
    }
  }

  lemma NumberKeeps(g: Grid, h: Grid, n: nat, pos: seq<int>, bits: nat, test: bool)
    requires Square(g, n) && Square(h, n) && WellPlaced(pos, n) && n >= 45
    requires ProbesShown(g, n) && AdjustsShown(g, n, pos) && TimingShown(g, n) && InfoShown(g, n, bits, test)
    requires NumberStep(g, h, n)
    ensures ProbesShown(h, n) && AdjustsShown(h, n, pos) && TimingShown(h, n) && InfoShown(h, n, bits, test)
  {
    hide ProbeDark, AdjustDark, WellPlaced, AdjustModule, Near, WordDark;
    assert ProbesShown(h, n) && TimingShown(h, n) && InfoShown(h, n, bits, test);
    forall i, j | 0 <= i < n && 0 <= j < n && AdjustModule(n, pos, i, j) ensures h[i][j] == g[i][j] {
      AdjustsApart(n, pos, i, j);
    }
  }

  /** The numbers of the error correction levels. */
  function LevelNumber(level: Level): (k: nat)
    ensures k < 4
  {
    match level
    case L => 1
    case M => 0
    case Q => 3
    case H => 2
  }

  method SetupTiming(modules: array2<Option<bool>>, typeNumber: int)
    requires 1 <= typeNumber <= 40 && modules.Length0 == modules.Length1 == typeNumber * 4 + 17
    requires forall i, j :: 0 <= i < modules.Length0 && 0 <= j < modules.Length1 ==>
      (modules[i, j].Some? <==>
        ProbeModule(modules.Length0, i, j) || AdjustModule(modules.Length0, Positions(typeNumber), i, j))
    requires ProbesShown(Snapshot(modules), modules.Length0)
    requires AdjustsShown(Snapshot(modules), modules.Length0, Positions(typeNumber))
    modifies modules
    ensures forall i, j :: 0 <= i < modules.Length0 && 0 <= j < modules.Length1 ==>
      (modules[i, j].Some? <==>
        || ProbeModule(modules.Length0, i, j) || AdjustModule(modules.Length0, Positions(typeNumber), i, j)
        || i == 6 || j == 6)
    ensures BaseShown(Snapshot(modules), modules.Length0, Positions(typeNumber))
  {
    PositionsFacts(typeNumber);
    PositionsEven(typeNumber);
    ghost var n, g, pos := modules.Length0, Snapshot(modules), Positions(typeNumber);
    hide AdjustModule, Positions, AdjustsShown, ProbesShown, TimingShown, WellPlaced, AllEven;
    SetupTimingPattern(modules);
    ghost var h := Snapshot(modules);
    assert TimingStep(g, h, n);
    TimingColours(g, h, n, pos);
  }

  method SetupInfo(modules: array2<Option<bool>>, level: Level, mask: Mask, test: bool, ghost pos: seq<int>)
    returns (ghost bits: nat)
    requires modules.Length0 == modules.Length1 >= 21 && WellPlaced(pos, modules.Length0)
    requires BaseShown(Snapshot(modules), modules.Length0, pos)
    modifies modules
    ensures forall i, j :: 0 <= i < modules.Length0 && 0 <= j < modules.Length1 ==>
      (modules[i, j].Some? <==> old(modules[i, j]).Some? || InfoModule(modules.Length0, i, j))
    ensures Word(Xor(bits, G15_MASK), 8 * LevelNumber(level) + mask, G15, 10)
    ensures var g := Snapshot(modules);
      BaseShown(g, modules.Length0, pos) && InfoShown(g, modules.Length0, bits, test)
  {
    hide Xor, Word, WordDark, AdjustsShown, ProbesShown, TimingShown, WellPlaced;
    ghost var n, g := modules.Length0, Snapshot(modules);
    var info := GetBchTypeInfo(8 * LevelNumber(level) + mask);
    SetupTypeInfo(modules, info, test);
    ghost var h := Snapshot(modules);
    assert InfoStep(g, h, n);
    InfoKeeps(g, h, n, pos);
    bits := info;
  }

  method SetupNumber(modules: array2<Option<bool>>, typeNumber: int, test: bool, ghost pos: seq<int>, ghost bits: nat)
    returns (ghost number: nat)
    requires 7 <= typeNumber <= 40 && modules.Length0 == modules.Length1 == typeNumber * 4 + 17
    requires WellPlaced(pos, modules.Length0) && BaseShown(Snapshot(modules), modules.Length0, pos)
    requires InfoShown(Snapshot(modules), modules.Length0, bits, test)
    modifies modules
    ensures forall i, j :: 0 <= i < modules.Length0 && 0 <= j < modules.Length1 ==>
      (modules[i, j].Some? <==> old(modules[i, j]).Some? || NumberModule(modules.Length0, i, j))
    ensures Word(number, typeNumber, G18, 12)
    ensures var n, g := modules.Length0, Snapshot(modules);
      BaseShown(g, n, pos) && InfoShown(g, n, bits, test) && NumberShown(g, n, number, test)
  {
    hide Word, WordDark, AdjustsShown, ProbesShown, TimingShown, InfoShown, WellPlaced;
    ghost var n, g := modules.Length0, Snapshot(modules);
    number := 0;
    var word := GetBchTypeNumber(typeNumber);
    SetupTypeNumber(modules, word, test);
    ghost var h := Snapshot(modules);
    assert NumberStep(g, h, n);
    NumberKeeps(g, h, n, pos, bits, test);
    number := word;
  }

  /** The set-up methods of makeImpl, in their order, on an empty grid: just the function modules are filled,
      and each of them has its colour. */
  method SetupPatterns(modules: array2<Option<bool>>, typeNumber: int, level: Level, mask: Mask, test: bool)
    returns (ghost bits: nat, ghost number: nat)
    requires 1 <= typeNumber <= 40 && modules.Length0 == modules.Length1 == typeNumber * 4 + 17
    requires forall i, j :: 0 <= i < modules.Length0 && 0 <= j < modules.Length1 ==> modules[i, j].None?
    modifies modules
    ensures forall i, j :: 0 <= i < modules.Length0 && 0 <= j < modules.Length1 ==>
      (modules[i, j].Some? <==> FunctionModule(typeNumber, i, j))
    ensures PatternsShown(Snapshot(modules), typeNumber, bits, number, test)
    ensures Word(Xor(bits, G15_MASK), 8 * LevelNumber(level) + mask, G15, 10)
    ensures typeNumber >= 7 ==> Word(number, typeNumber, G18, 12)
  {
    PositionsFacts(typeNumber);
    ghost var pos := Positions(typeNumber);
    hide Xor, Word, AdjustModule, Positions, ProbesShown, AdjustsShown, BaseShown, InfoShown, NumberShown, WellPlaced;
    SetupFirst(modules, typeNumber);
    SetupTiming(modules, typeNumber);
    bits := SetupInfo(modules, level, mask, test, pos);
    number := 0;
    if typeNumber >= 7 {
      number := SetupNumber(modules, typeNumber, test, pos, bits);
    }
  }
}
