/** The patterns of a symbol as the pictures of ISO/IEC 18004:2015, against the formulas of src/web/qrcode.js. */
module QrPictures {
  import opened Basics
  import opened BitStrings
  import opened QrData
  import opened RsBlocks
  import opened Placement
  import opened QrPatterns

  // ---------- the mask patterns, as pictures ----------

  /** The repeating tile of each mask, row by row; '#' inverts a module (table 10 of the standard). */
  function Tile(mask: Mask): (t: seq<string>)
    ensures |t| > 0 && forall r :: 0 <= r < |t| ==> |t[r]| == |t[0]| > 0
  {
    match mask
    case 0 => ["#.", ".#"]
    case 1 => ["#", "."]
    case 2 => ["#.."]
    case 3 => ["#..", "..#", ".#."]
    case 4 => ["###...", "###...", "...###", "...###"]
    case 5 => ["######", "#.....", "#..#..", "#.#.#.", "#..#..", "#....."]
    case 6 => ["######", "###...", "##.##.", "#.#.#.", "#.##.#", "#...##"]
    case _ => ["#.#.#.", "...###", "#...##", ".#.#.#", "###...", ".###.."]
  }

  predicate Marked(mask: Mask, i: nat, j: nat) {
    var t := Tile(mask);
    t[i % |t|][j % |t[0]|] == '#'
  }

  lemma SumParity(i: nat, j: nat)
    ensures (i + j) % 2 == if i % 2 == j % 2 then 0 else 1
  {
  }

  lemma SumThirds(i: nat, j: nat)
    ensures (i + j) % 3 == 0 <==> (i % 3 + j % 3) % 3 == 0
  {
  }

  lemma Distribute(a: int, b: int, c: int)
    ensures (a - b) * c == a * c - b * c && c * (a - b) == c * a - c * b
  {
  }

  lemma ParityStep(x: int, y: nat)
    ensures (x + 2 * y) % 2 == x % 2
  {
  }

  lemma SmallParity(i: nat, j: nat)
    requires i < 2 && j < 2
    ensures i * j == if i == 1 && j == 1 then 1 else 0
  {
    if i == 0 {
      assert i * j == 0;
    } else {
      assert i * j == j;
    }
  }

  lemma {:induction false} ProductParity(i: nat, j: nat)
    ensures i * j % 2 == if i % 2 == 1 && j % 2 == 1 then 1 else 0
  {
    if i >= 2 {
      ProductParity(i - 2, j);
      Distribute(i, 2, j);
      ParityStep((i - 2) * j, j);
      ParityStep(i - 2, 1);
    } else if j >= 2 {
      ProductParity(i, j - 2);
      Distribute(j, 2, i);
      ParityStep(i * (j - 2), i);
      ParityStep(j - 2, 1);
    } else {
      SmallParity(i, j);
    }
  }

  lemma ThirdsStep(x: int, y: nat)
    ensures (x + 3 * y) % 3 == x % 3
  {
  }

  lemma SmallThirds(i: nat, j: nat)
    requires i < 3 && j < 3
    ensures i * j % 3 == if i == 0 || j == 0 then 0 else if i == j then 1 else 2
  {
    if i == 0 {
      assert i * j == 0;
    } else if i == 1 {
      assert i * j == j;
    } else {
      assert i * j == 2 * j;
    }
  }

  lemma {:induction false} ProductThirds(i: nat, j: nat)
    ensures i * j % 3 == if i % 3 == 0 || j % 3 == 0 then 0 else if i % 3 == j % 3 then 1 else 2
  {
    if i >= 3 {
      ProductThirds(i - 3, j);
      Distribute(i, 3, j);
      ThirdsStep((i - 3) * j, j);
      ThirdsStep(i - 3, 1);
    } else if j >= 3 {
      ProductThirds(i, j - 3);
      Distribute(j, 3, i);
      ThirdsStep(i * (j - 3), i);
      ThirdsStep(j - 3, 1);
    } else {
      SmallThirds(i, j);
    }
  }

  lemma {:induction false} TwoOfSix(q: nat, r: nat)
    ensures (6 * q + r) % 2 == r % 2
  {
    if q == 0 {
    } else {
      TwoOfSix(q - 1, r);
    }
  }

  lemma {:induction false} ThreeOfSix(q: nat, r: nat)
    ensures (6 * q + r) % 3 == r % 3
  {
    if q == 0 {
    } else {
      ThreeOfSix(q - 1, r);
    }
  }

  lemma {:induction false} HalfOfSix(q: nat, r: nat)
    requires r < 6
    ensures (6 * q + r) / 3 % 2 == r / 3
  {
    if q == 0 {
    } else {
      HalfOfSix(q - 1, r);
    }
  }

  lemma OfSix(i: nat)
    ensures i % 2 == i % 6 % 2 && i % 3 == i % 6 % 3 && i / 3 % 2 == i % 6 / 3
  {
    var q, r := i / 6, i % 6;
    assert i == 6 * q + r;
    TwoOfSix(q, r);
    ThreeOfSix(q, r);
    HalfOfSix(q, r);
  }

  lemma OfFour(i: nat)
    ensures i / 2 % 2 == i % 4 / 2
  {
    var q, r := i / 4, i % 4;
    assert i == 4 * q + r;
  }
  // ---------- each picture against its formula ----------

  lemma Tile0(r: nat, s: nat)
    requires r < 2 && s < 2
    ensures r == s <==> Tile(0)[r][s] == '#'
  {
  }

  lemma Tile1(r: nat)
    requires r < 2
    ensures r == 0 <==> Tile(1)[r][0] == '#'
  {
  }

  lemma Tile2(s: nat)
    requires s < 3
    ensures s == 0 <==> Tile(2)[0][s] == '#'
  {
  }

  lemma Tile3(r: nat, s: nat)
    requires r < 3 && s < 3
    ensures (r + s) % 3 == 0 <==> Tile(3)[r][s] == '#'
  {
  }

  lemma Tile4(r: nat, s: nat)
    requires r < 4 && s < 6
    ensures r / 2 == s / 3 <==> Tile(4)[r][s] == '#'
  {
  }

  function Odd(r: nat, s: nat): nat {
    if r % 2 == 1 && s % 2 == 1 then 1 else 0
  }

  function Thirds(r: nat, s: nat): nat {
    if r % 3 == 0 || s % 3 == 0 then 0 else if r % 3 == s % 3 then 1 else 2
  }

  lemma Tile5(r: nat, s: nat)
    requires r < 6 && s < 6
    ensures Odd(r, s) + Thirds(r, s) == 0 <==> Tile(5)[r][s] == '#'
  {
  }

  lemma Tile6(r: nat, s: nat)
    requires r < 6 && s < 6
    ensures (Odd(r, s) + Thirds(r, s)) % 2 == 0 <==> Tile(6)[r][s] == '#'
  {
  }

  lemma Tile7(r: nat, s: nat)
    requires r < 6 && s < 6
    ensures (Thirds(r, s) + if r % 2 == s % 2 then 0 else 1) % 2 == 0 <==> Tile(7)[r][s] == '#'
  {
  }

  lemma TileSizes(mask: Mask)
    ensures var t := Tile(mask);
      && |t| == [2, 2, 1, 3, 4, 6, 6, 6][mask] && |t[0]| == [2, 1, 3, 3, 6, 6, 6, 6][mask]
  {
  }

  lemma FlipsLow(mask: Mask, i: nat, j: nat)
    requires mask < 5
    ensures Flips(mask, i, j) <==> Marked(mask, i, j)
  {
    hide Tile;
    TileSizes(mask);
    match mask
    case 0 => SumParity(i, j); Tile0(i % 2, j % 2);
    case 1 => Tile1(i % 2);
    case 2 => Tile2(j % 3);
    case 3 => SumThirds(i, j); Tile3(i % 3, j % 3);
    case 4 => OfFour(i); OfSix(j); SumParity(i / 2, j / 3); Tile4(i % 4, j % 6);
  }

  lemma Flips5(i: nat, j: nat)
    ensures Flips(5, i, j) <==> Marked(5, i, j)
  {
    hide Tile;
    TileSizes(5);
    OfSix(i);
    OfSix(j);
    ProductParity(i, j);
    ProductThirds(i, j);
    Tile5(i % 6, j % 6);
  }

  lemma Flips6(i: nat, j: nat)
    ensures Flips(6, i, j) <==> Marked(6, i, j)
  {
    hide Tile;
    TileSizes(6);
    OfSix(i);
    OfSix(j);
    ProductParity(i, j);
    ProductThirds(i, j);
    Tile6(i % 6, j % 6);
  }

  lemma Flips7(i: nat, j: nat)
    ensures Flips(7, i, j) <==> Marked(7, i, j)
  {
    hide Tile;
    TileSizes(7);
    OfSix(i);
    OfSix(j);
    ProductParity(i, j);
    ProductThirds(i, j);
    SumParity(i, j);
    Tile7(i % 6, j % 6);
  }

  /** Whether a mask inverts a module can be read off its picture, for every module. */
  lemma FlipsByTile(mask: Mask, i: nat, j: nat)
    ensures Flips(mask, i, j) <==> Marked(mask, i, j)
  {
    hide Flips, Marked;
    if mask < 5 {
      FlipsLow(mask, i, j);
    } else if mask == 5 {
      Flips5(i, j);
    } else if mask == 6 {
      Flips6(i, j);
    } else {
      Flips7(i, j);
    }
  }

  /** A free module is dark if its bit is set, or if it is not and its mask inverts it, but not both. */
  lemma MaskedByTile(g: Grid, n: nat, free: seq<Cell>, data: seq<nat>, mask: Mask, i: nat)
    requires Square(g, n) && Distinct(free) && (forall x :: x in free ==> Inside(n, x)) && i < |free|
    ensures At(Placed(g, n, free, data, mask), n, free[i])
      == Some((i < 8 * |data| && MsbBytes(data)[i]) != Marked(mask, free[i].0, free[i].1))
  {
    PlacedCells(g, n, free, data, mask);
    assert free[i] in free;
    FlipsByTile(mask, free[i].0, free[i].1);
    if i < 8 * |data| {
      DataBitIs(data, i);
    }
    hide Flips, Marked, Placed, MsbBytes, Distinct;
  }

  // ---------- the order of the walk ----------

  /** The place of a module in the walk: pairs of columns from the right, stepping over column 6; the first
      pair upwards, the next one downwards; in each row the right module before the left one. */
  function WalkIndex(n: nat, x: Cell): int {
    var fromRight := if x.1 > 6 then n - 1 - x.1 else n - 2 - x.1;
    var pair, left := fromRight / 2, fromRight % 2;
    2 * n * pair + 2 * (if pair % 2 == 0 then n - 1 - x.0 else x.0) + left
  }

  lemma {:induction false} StripAt(n: nat, p: nat, k: nat, j: nat)
    ensures |Strip(n, p, k)| == 2 * k
    ensures j < k ==> Strip(n, p, k)[2 * j] == (RowAt(n, p, j), RightColumn(n, p))
    ensures j < k ==> Strip(n, p, k)[2 * j + 1] == (RowAt(n, p, j), RightColumn(n, p) - 1)
  {
    if k == 0 {
    } else {
      hide RowAt, RightColumn;
      StripAt(n, p, k - 1, j);
    }
  }

  lemma OneStripMore(n: nat, k: nat)
    ensures 2 * n * (k + 1) == 2 * n * k + 2 * n
  {
  }

  lemma {:induction false} StripsAt(n: nat, k: nat, p: nat, t: nat)
    ensures |Strips(n, k)| == 2 * n * k
    ensures p < k && t < 2 * n ==>
      |Strip(n, p, n)| == 2 * n && 2 * n * p + t < |Strips(n, k)| && Strips(n, k)[2 * n * p + t] == Strip(n, p, n)[t]
  {
    if k == 0 {
    } else {
      StripsAt(n, k - 1, p, t);
      StripAt(n, k - 1, n, 0);
      OneStripMore(n, k - 1);
      StripsStep(n, k, (0, 0));
      hide Strips, Strip;
    }
  }

  lemma PairAndRow(n: nat, x: Cell)
    requires n % 2 == 1 && n >= 9 && Inside(n, x) && x.1 != 6
    ensures var fromRight := if x.1 > 6 then n - 1 - x.1 else n - 2 - x.1; var p := fromRight / 2;
      && 0 <= p < n / 2 && x.1 == RightColumn(n, p) - fromRight % 2
      && x.0 == RowAt(n, p, if p % 2 == 0 then n - 1 - x.0 else x.0)
  {
  }

  lemma WalkPlace(n: nat, p: nat, j: nat, left: nat)
    requires p < n / 2 && j < n && left < 2
    ensures 0 <= 2 * n * p + (2 * j + left) < |Walk(n)|
    ensures Walk(n)[2 * n * p + (2 * j + left)] == (RowAt(n, p, j), RightColumn(n, p) - left)
  {
    hide Strip, Strips, RowAt, RightColumn;
    StripAt(n, p, n, j);
    StripsAt(n, n / 2, p, 2 * j + left);
  }

  /** Where the walk meets a module. */
  lemma WalkOrder(n: nat, x: Cell)
    requires n % 2 == 1 && n >= 9 && Inside(n, x) && x.1 != 6
    ensures 0 <= WalkIndex(n, x) < |Walk(n)| && Walk(n)[WalkIndex(n, x)] == x
  {
    hide Walk, RowAt, RightColumn;
    PairAndRow(n, x);
    var fromRight := if x.1 > 6 then n - 1 - x.1 else n - 2 - x.1;
    var p := fromRight / 2;
    WalkPlace(n, p, if p % 2 == 0 then n - 1 - x.0 else x.0, fromRight % 2);
  }

  // ---------- position, alignment, format ----------

  const PROBE: seq<string> := ["#######", "#.....#", "#.###.#", "#.###.#", "#.###.#", "#.....#", "#######"]
  const ADJUST: seq<string> := ["#####", "#...#", "#.#.#", "#...#", "#####"]

  /** The position pattern, with a light line around it. */
  lemma ProbePicture(r: int, c: int)
    ensures ProbeDark(r, c) <==> 0 <= r < 7 && 0 <= c < 7 && PROBE[r][c] == '#'
  {
  }

  /** The alignment pattern around its centre. */
  lemma AdjustPicture(r: int, c: int)
    requires -2 <= r <= 2 && -2 <= c <= 2
    ensures AdjustDark(r, c) <==> ADJUST[r + 2][c + 2] == '#'
  {
  }

  /** Where the fifteen modules of the format word stand, the last bit first: down column 8 past the timing
      line and at the bottom, and along row 8 from the right end and back past the timing line. */
  lemma InfoPlaces(n: int, k: nat)
    requires k < 15
    ensures InfoRow(n, k) == [0, 1, 2, 3, 4, 5, 7, 8, n - 7, n - 6, n - 5, n - 4, n - 3, n - 2, n - 1][k]
    ensures InfoCol(n, k) == [n - 1, n - 2, n - 3, n - 4, n - 5, n - 6, n - 7, n - 8, 7, 5, 4, 3, 2, 1, 0][k]
  {
  }

  /** The numbers of the levels, as bits (table 12 of the standard). */
  lemma LevelBits(level: Level)
    ensures Msb(LevelNumber(level), 2) == match level
      case L => [false, true]
      case M => [false, false]
      case Q => [true, true]
      case H => [true, false]
  {
    assert Msb(0, 1) == [false] && Msb(1, 1) == [true];
    assert Msb(0, 2) == [false, false] && Msb(1, 2) == [false, true];
    assert Msb(2, 2) == [true, false] && Msb(3, 2) == [true, true];
  }

  // ---------- the positions of the alignment patterns ----------

  /** The distance of neighbouring alignment patterns, from the second one on. */
  function Spacing(typeNumber: int): int
    requires 2 <= typeNumber <= 40
  {
    var k := typeNumber / 7 + 2;
    (8 * typeNumber + 3 * k + 5) / (4 * k - 4) * 2
  }

  lemma Positions2(t: int)
    requires 2 <= t <= 6
    ensures var last, d := t * 4 + 10, Spacing(t); Positions(t) == [6, last]
  {
  }

  lemma Positions3(t: int)
    requires 7 <= t <= 13
    ensures var last, d := t * 4 + 10, Spacing(t); Positions(t) == [6, last - d, last]
  {
  }

  lemma Positions4(t: int)
    requires 14 <= t <= 20
    ensures var last, d := t * 4 + 10, Spacing(t); Positions(t) == [6, last - 2 * d, last - d, last]
  {
  }

  lemma Positions5(t: int)
    requires 21 <= t <= 27
    ensures var last, d := t * 4 + 10, Spacing(t); Positions(t) == [6, last - 3 * d, last - 2 * d, last - d, last]
  {
  }

  lemma Positions6(t: int)
    requires 28 <= t <= 34
    ensures var last, d := t * 4 + 10, Spacing(t); Positions(t) == [6, last - 4 * d, last - 3 * d, last - 2 * d, last - d, last]
  {
  }

  lemma Positions7(t: int)
    requires 35 <= t <= 40
    ensures var last, d := t * 4 + 10, Spacing(t);
      Positions(t) == [6, last - 5 * d, last - 4 * d, last - 3 * d, last - 2 * d, last - d, last]
  {
  }

  /** The positions of every version: one on the timing line, the others evenly spaced up to the position
      pattern (annex E of the standard). */
  lemma PositionsSpaced(t: int, a: nat)
    requires 2 <= t <= 40 && a < t / 7 + 2
    ensures |Positions(t)| == t / 7 + 2
    ensures Positions(t)[a] == if a == 0 then 6 else t * 4 + 10 - (t / 7 + 1 - a) * Spacing(t)
  {
    hide Positions, Spacing;
    if t < 7 {
      Positions2(t);
    } else if t < 14 {
      Positions3(t);
    } else if t < 21 {
      Positions4(t);
    } else if t < 28 {
      Positions5(t);
    } else if t < 35 {
      Positions6(t);
    } else {
      Positions7(t);
    }
  }
}
