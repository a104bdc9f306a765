/** The block table of src/web/qrcode.js against the two numbers that ISO/IEC 18004:2015 gives each version and
    level (table 9): how many blocks there are, and how many check symbols each of them has. */
module RsDivision {
  import opened RsBlocks

  function CountsL(t: int): nat
    requires 1 <= t <= 40
  {
    if t <= 10 then [1, 1, 1, 1, 1, 2, 2, 2, 2, 4][t - 1]
    else if t <= 20 then [4, 4, 4, 4, 6, 6, 6, 6, 7, 8][t - 11]
    else if t <= 30 then [8, 9, 9, 10, 12, 12, 12, 13, 14, 15][t - 21]
    else [16, 17, 18, 19, 19, 20, 21, 22, 24, 25][t - 31]
  }

  function ChecksL(t: int): nat
    requires 1 <= t <= 40
  {
    if t <= 10 then [7, 10, 15, 20, 26, 18, 20, 24, 30, 18][t - 1]
    else if t <= 20 then [20, 24, 26, 30, 22, 24, 28, 30, 28, 28][t - 11]
    else if t <= 30 then [28, 28, 30, 30, 26, 28, 30, 30, 30, 30][t - 21]
    else [30, 30, 30, 30, 30, 30, 30, 30, 30, 30][t - 31]
  }

  function CountsM(t: int): nat
    requires 1 <= t <= 40
  {
    if t <= 10 then [1, 1, 1, 2, 2, 4, 4, 4, 5, 5][t - 1]
    else if t <= 20 then [5, 8, 9, 9, 10, 10, 11, 13, 14, 16][t - 11]
    else if t <= 30 then [17, 17, 18, 20, 21, 23, 25, 26, 28, 29][t - 21]
    else [31, 33, 35, 37, 38, 40, 43, 45, 47, 49][t - 31]
  }

  function ChecksM(t: int): nat
    requires 1 <= t <= 40
  {
    if t <= 10 then [10, 16, 26, 18, 24, 16, 18, 22, 22, 26][t - 1]
    else if t <= 20 then [30, 22, 22, 24, 24, 28, 28, 26, 26, 26][t - 11]
    else if t <= 30 then [26, 28, 28, 28, 28, 28, 28, 28, 28, 28][t - 21]
    else [28, 28, 28, 28, 28, 28, 28, 28, 28, 28][t - 31]
  }

  function CountsQ(t: int): nat
    requires 1 <= t <= 40
  {
    if t <= 10 then [1, 1, 2, 2, 4, 4, 6, 6, 8, 8][t - 1]
    else if t <= 20 then [8, 10, 12, 16, 12, 17, 16, 18, 21, 20][t - 11]
    else if t <= 30 then [23, 23, 25, 27, 29, 34, 34, 35, 38, 40][t - 21]
    else [43, 45, 48, 51, 53, 56, 59, 62, 65, 68][t - 31]
  }

  function ChecksQ(t: int): nat
    requires 1 <= t <= 40
  {
    if t <= 10 then [13, 22, 18, 26, 18, 24, 18, 22, 20, 24][t - 1]
    else if t <= 20 then [28, 26, 24, 20, 30, 24, 28, 28, 26, 30][t - 11]
    else if t <= 30 then [28, 30, 30, 30, 30, 28, 30, 30, 30, 30][t - 21]
    else [30, 30, 30, 30, 30, 30, 30, 30, 30, 30][t - 31]
  }

  function CountsH(t: int): nat
    requires 1 <= t <= 40
  {
    if t <= 10 then [1, 1, 2, 4, 4, 4, 5, 6, 8, 8][t - 1]
    else if t <= 20 then [11, 11, 16, 16, 18, 16, 19, 21, 25, 25][t - 11]
    else if t <= 30 then [25, 34, 30, 32, 35, 37, 40, 42, 45, 48][t - 21]
    else [51, 54, 57, 60, 63, 66, 70, 74, 77, 81][t - 31]
  }

  function ChecksH(t: int): nat
    requires 1 <= t <= 40
  {
    if t <= 10 then [17, 28, 22, 16, 22, 28, 26, 26, 24, 28][t - 1]
    else if t <= 20 then [24, 28, 22, 24, 24, 30, 28, 28, 26, 28][t - 11]
    else if t <= 30 then [30, 24, 30, 30, 30, 30, 30, 30, 30, 30][t - 21]
    else [30, 30, 30, 30, 30, 30, 30, 30, 30, 30][t - 31]
  }

  /** The number of blocks. */
  function Count(level: Level, t: int): nat
    requires 1 <= t <= 40
  {
    match level
    case L => CountsL(t)
    case M => CountsM(t)
    case Q => CountsQ(t)
    case H => CountsH(t)
  }

  /** The number of check symbols of each block. */
  function Check(level: Level, t: int): nat
    requires 1 <= t <= 40
  {
    match level
    case L => ChecksL(t)
    case M => ChecksM(t)
    case Q => ChecksQ(t)
    case H => ChecksH(t)
  }

  /** So many blocks with so many check symbols each, those with one more data codeword last. */
  predicate Shaped(row: seq<nat>, count: nat, check: nat) {
    if |row| == 3 then 0 < row[0] == count && row[1] == row[2] + check
    else
      && |row| == 6 && 0 < row[0] && 0 < row[3] && row[0] + row[3] == count
      && row[1] == row[2] + check && row[4] == row[1] + 1 && row[5] == row[2] + 1
  }

  function Total(row: seq<nat>): nat {
    if |row| == 3 then row[0] * row[1] else if |row| == 6 then row[0] * row[1] + row[3] * row[4] else 0
  }

  lemma RowsL1(t: int)
    requires 1 <= t <= 10
    ensures Shaped(RowL(t), CountsL(t), ChecksL(t))
  {
  }

  lemma RowsL11(t: int)
    requires 11 <= t <= 20
    ensures Shaped(RowL(t), CountsL(t), ChecksL(t))
  {
  }

  lemma RowsL21(t: int)
    requires 21 <= t <= 30
    ensures Shaped(RowL(t), CountsL(t), ChecksL(t))
  {
  }

  lemma RowsL31(t: int)
    requires 31 <= t <= 40
    ensures Shaped(RowL(t), CountsL(t), ChecksL(t))
  {
  }

  lemma RowsM1(t: int)
    requires 1 <= t <= 10
    ensures Shaped(RowM(t), CountsM(t), ChecksM(t))
  {
  }

  lemma RowsM11(t: int)
    requires 11 <= t <= 20
    ensures Shaped(RowM(t), CountsM(t), ChecksM(t))
  {
  }

  lemma RowsM21(t: int)
    requires 21 <= t <= 30
    ensures Shaped(RowM(t), CountsM(t), ChecksM(t))
  {
  }

  lemma RowsM31(t: int)
    requires 31 <= t <= 40
    ensures Shaped(RowM(t), CountsM(t), ChecksM(t))
  {
  }

  lemma RowsQ1(t: int)
    requires 1 <= t <= 10
    ensures Shaped(RowQ(t), CountsQ(t), ChecksQ(t))
  {
  }

  lemma RowsQ11(t: int)
    requires 11 <= t <= 20
    ensures Shaped(RowQ(t), CountsQ(t), ChecksQ(t))
  {
  }

  lemma RowsQ21(t: int)
    requires 21 <= t <= 30
    ensures Shaped(RowQ(t), CountsQ(t), ChecksQ(t))
  {
  }

  lemma RowsQ31(t: int)
    requires 31 <= t <= 40
    ensures Shaped(RowQ(t), CountsQ(t), ChecksQ(t))
  {
  }

  lemma RowsH1(t: int)
    requires 1 <= t <= 10
    ensures Shaped(RowH(t), CountsH(t), ChecksH(t))
  {
  }

  lemma RowsH11(t: int)
    requires 11 <= t <= 20
    ensures Shaped(RowH(t), CountsH(t), ChecksH(t))
  {
  }

  lemma RowsH21(t: int)
    requires 21 <= t <= 30
    ensures Shaped(RowH(t), CountsH(t), ChecksH(t))
  {
  }

  lemma RowsH31(t: int)
    requires 31 <= t <= 40
    ensures Shaped(RowH(t), CountsH(t), ChecksH(t))
  {
  }

  /** Every row deals the codewords of its version out to the blocks as the standard says. */
  lemma RowsAreShaped(level: Level, t: int)
    requires 1 <= t <= 40
    ensures Shaped(Row(level, t), Count(level, t), Check(level, t)) && Total(Row(level, t)) == CodewordCount(t)
  {
    RowFacts(level, t);
    hide RowL, RowM, RowQ, RowH, CountsL, CountsM, CountsQ, CountsH, ChecksL, ChecksM, ChecksQ, ChecksH, Shaped, CodewordCount,
      Sound;
    match level
    case L => if t <= 10 { RowsL1(t); } else if t <= 20 { RowsL11(t); } else if t <= 30 { RowsL21(t); } else { RowsL31(t); }
    case M => if t <= 10 { RowsM1(t); } else if t <= 20 { RowsM11(t); } else if t <= 30 { RowsM21(t); } else { RowsM31(t); }
    case Q => if t <= 10 { RowsQ1(t); } else if t <= 20 { RowsQ11(t); } else if t <= 30 { RowsQ21(t); } else { RowsQ31(t); }
    case H => if t <= 10 { RowsH1(t); } else if t <= 20 { RowsH11(t); } else if t <= 30 { RowsH21(t); } else { RowsH31(t); }
  }

  lemma TimesOrder(c: nat, a: nat, b: nat)
    requires a <= b
    ensures c * a <= c * b
  {
  }

  /** The size of the shorter blocks is what division leaves. */
  lemma TotalBetween(row: seq<nat>, count: nat, check: nat)
    requires Shaped(row, count, check)
    ensures count * row[1] <= Total(row) < count * (row[1] + 1)
    ensures Total(row) == count * row[1] + if |row| == 6 then row[3] else 0
  {
    if |row| == 6 {
      var a, b, s := row[0], row[3], row[1];
      assert (a + b) * s == a * s + b * s;
      assert b * (s + 1) == b * s + b;
      assert (a + b) * (s + 1) == (a + b) * s + (a + b);
    } else {
      assert count * (row[1] + 1) == count * row[1] + count;
    }
  }

  lemma SameSize(count: nat, s: nat, t: nat, total: nat)
    requires count * s <= total < count * (s + 1) && count * t <= total < count * (t + 1)
    ensures s == t
  {
    if s < t {
      TimesOrder(count, s + 1, t);
    } else if t < s {
      TimesOrder(count, t + 1, s);
    }
  }

  /** And there is only one way to do so. */
  lemma RowUnique(row: seq<nat>, other: seq<nat>, count: nat, check: nat)
    requires Shaped(row, count, check) && Shaped(other, count, check) && Total(row) == Total(other)
    ensures row == other
  {
    TotalBetween(row, count, check);
    TotalBetween(other, count, check);
    hide Total;
    SameSize(count, row[1], other[1], Total(row));
  }
}
