/** The Reed-Solomon blocks of the four error correction levels in src/web/qrcode.js (table 9 of
    ISO/IEC 18004:2015). */
module RsBlocks {
  import opened Basics

  datatype RsBlock = RsBlock(totalCount: nat, dataCount: nat) {
    function EcCount(): int {
      totalCount - dataCount
    }
  }

  /** The error correction levels. */
  datatype Level = L | M | Q | H

  /** RS_BLOCK_TABLE, one function for each level: triples of a count, a total and a data count. */
  function RowL(typeNumber: int): seq<nat> {
    if typeNumber == 1 then [1, 26, 19]
    else if typeNumber == 2 then [1, 44, 34]
    else if typeNumber == 3 then [1, 70, 55]
    else if typeNumber == 4 then [1, 100, 80]
    else if typeNumber == 5 then [1, 134, 108]
    else if typeNumber == 6 then [2, 86, 68]
    else if typeNumber == 7 then [2, 98, 78]
    else if typeNumber == 8 then [2, 121, 97]
    else if typeNumber == 9 then [2, 146, 116]
    else if typeNumber == 10 then [2, 86, 68, 2, 87, 69]
    else if typeNumber == 11 then [4, 101, 81]
    else if typeNumber == 12 then [2, 116, 92, 2, 117, 93]
    else if typeNumber == 13 then [4, 133, 107]
    else if typeNumber == 14 then [3, 145, 115, 1, 146, 116]
    else if typeNumber == 15 then [5, 109, 87, 1, 110, 88]
    else if typeNumber == 16 then [5, 122, 98, 1, 123, 99]
    else if typeNumber == 17 then [1, 135, 107, 5, 136, 108]
    else if typeNumber == 18 then [5, 150, 120, 1, 151, 121]
    else if typeNumber == 19 then [3, 141, 113, 4, 142, 114]
    else if typeNumber == 20 then [3, 135, 107, 5, 136, 108]
    else if typeNumber == 21 then [4, 144, 116, 4, 145, 117]
    else if typeNumber == 22 then [2, 139, 111, 7, 140, 112]
    else if typeNumber == 23 then [4, 151, 121, 5, 152, 122]
    else if typeNumber == 24 then [6, 147, 117, 4, 148, 118]
    else if typeNumber == 25 then [8, 132, 106, 4, 133, 107]
    else if typeNumber == 26 then [10, 142, 114, 2, 143, 115]
    else if typeNumber == 27 then [8, 152, 122, 4, 153, 123]
    else if typeNumber == 28 then [3, 147, 117, 10, 148, 118]
    else if typeNumber == 29 then [7, 146, 116, 7, 147, 117]
    else if typeNumber == 30 then [5, 145, 115, 10, 146, 116]
    else if typeNumber == 31 then [13, 145, 115, 3, 146, 116]
    else if typeNumber == 32 then [17, 145, 115]
    else if typeNumber == 33 then [17, 145, 115, 1, 146, 116]
    else if typeNumber == 34 then [13, 145, 115, 6, 146, 116]
    else if typeNumber == 35 then [12, 151, 121, 7, 152, 122]
    else if typeNumber == 36 then [6, 151, 121, 14, 152, 122]
    else if typeNumber == 37 then [17, 152, 122, 4, 153, 123]
    else if typeNumber == 38 then [4, 152, 122, 18, 153, 123]
    else if typeNumber == 39 then [20, 147, 117, 4, 148, 118]
    else if typeNumber == 40 then [19, 148, 118, 6, 149, 119]
    else []
  }

  function RowM(typeNumber: int): seq<nat> {
    if typeNumber == 1 then [1, 26, 16]
    else if typeNumber == 2 then [1, 44, 28]
    else if typeNumber == 3 then [1, 70, 44]
    else if typeNumber == 4 then [2, 50, 32]
    else if typeNumber == 5 then [2, 67, 43]
    else if typeNumber == 6 then [4, 43, 27]
    else if typeNumber == 7 then [4, 49, 31]
    else if typeNumber == 8 then [2, 60, 38, 2, 61, 39]
    else if typeNumber == 9 then [3, 58, 36, 2, 59, 37]
    else if typeNumber == 10 then [4, 69, 43, 1, 70, 44]
    else if typeNumber == 11 then [1, 80, 50, 4, 81, 51]
    else if typeNumber == 12 then [6, 58, 36, 2, 59, 37]
    else if typeNumber == 13 then [8, 59, 37, 1, 60, 38]
    else if typeNumber == 14 then [4, 64, 40, 5, 65, 41]
    else if typeNumber == 15 then [5, 65, 41, 5, 66, 42]
    else if typeNumber == 16 then [7, 73, 45, 3, 74, 46]
    else if typeNumber == 17 then [10, 74, 46, 1, 75, 47]
    else if typeNumber == 18 then [9, 69, 43, 4, 70, 44]
    else if typeNumber == 19 then [3, 70, 44, 11, 71, 45]
    else if typeNumber == 20 then [3, 67, 41, 13, 68, 42]
    else if typeNumber == 21 then [17, 68, 42]
    else if typeNumber == 22 then [17, 74, 46]
    else if typeNumber == 23 then [4, 75, 47, 14, 76, 48]
    else if typeNumber == 24 then [6, 73, 45, 14, 74, 46]
    else if typeNumber == 25 then [8, 75, 47, 13, 76, 48]
    else if typeNumber == 26 then [19, 74, 46, 4, 75, 47]
    else if typeNumber == 27 then [22, 73, 45, 3, 74, 46]
    else if typeNumber == 28 then [3, 73, 45, 23, 74, 46]
    else if typeNumber == 29 then [21, 73, 45, 7, 74, 46]
    else if typeNumber == 30 then [19, 75, 47, 10, 76, 48]
    else if typeNumber == 31 then [2, 74, 46, 29, 75, 47]
    else if typeNumber == 32 then [10, 74, 46, 23, 75, 47]
    else if typeNumber == 33 then [14, 74, 46, 21, 75, 47]
    else if typeNumber == 34 then [14, 74, 46, 23, 75, 47]
    else if typeNumber == 35 then [12, 75, 47, 26, 76, 48]
    else if typeNumber == 36 then [6, 75, 47, 34, 76, 48]
    else if typeNumber == 37 then [29, 74, 46, 14, 75, 47]
    else if typeNumber == 38 then [13, 74, 46, 32, 75, 47]
    else if typeNumber == 39 then [40, 75, 47, 7, 76, 48]
    else if typeNumber == 40 then [18, 75, 47, 31, 76, 48]
    else []
  }

  function RowQ(typeNumber: int): seq<nat> {
    if typeNumber == 1 then [1, 26, 13]
    else if typeNumber == 2 then [1, 44, 22]
    else if typeNumber == 3 then [2, 35, 17]
    else if typeNumber == 4 then [2, 50, 24]
    else if typeNumber == 5 then [2, 33, 15, 2, 34, 16]
    else if typeNumber == 6 then [4, 43, 19]
    else if typeNumber == 7 then [2, 32, 14, 4, 33, 15]
    else if typeNumber == 8 then [4, 40, 18, 2, 41, 19]
    else if typeNumber == 9 then [4, 36, 16, 4, 37, 17]
    else if typeNumber == 10 then [6, 43, 19, 2, 44, 20]
    else if typeNumber == 11 then [4, 50, 22, 4, 51, 23]
    else if typeNumber == 12 then [4, 46, 20, 6, 47, 21]
    else if typeNumber == 13 then [8, 44, 20, 4, 45, 21]
    else if typeNumber == 14 then [11, 36, 16, 5, 37, 17]
    else if typeNumber == 15 then [5, 54, 24, 7, 55, 25]
    else if typeNumber == 16 then [15, 43, 19, 2, 44, 20]
    else if typeNumber == 17 then [1, 50, 22, 15, 51, 23]
    else if typeNumber == 18 then [17, 50, 22, 1, 51, 23]
    else if typeNumber == 19 then [17, 47, 21, 4, 48, 22]
    else if typeNumber == 20 then [15, 54, 24, 5, 55, 25]
    else if typeNumber == 21 then [17, 50, 22, 6, 51, 23]
    else if typeNumber == 22 then [7, 54, 24, 16, 55, 25]
    else if typeNumber == 23 then [11, 54, 24, 14, 55, 25]
    else if typeNumber == 24 then [11, 54, 24, 16, 55, 25]
    else if typeNumber == 25 then [7, 54, 24, 22, 55, 25]
    else if typeNumber == 26 then [28, 50, 22, 6, 51, 23]
    else if typeNumber == 27 then [8, 53, 23, 26, 54, 24]
    else if typeNumber == 28 then [4, 54, 24, 31, 55, 25]
    else if typeNumber == 29 then [1, 53, 23, 37, 54, 24]
    else if typeNumber == 30 then [15, 54, 24, 25, 55, 25]
    else if typeNumber == 31 then [42, 54, 24, 1, 55, 25]
    else if typeNumber == 32 then [10, 54, 24, 35, 55, 25]
    else if typeNumber == 33 then [29, 54, 24, 19, 55, 25]
    else if typeNumber == 34 then [44, 54, 24, 7, 55, 25]
    else if typeNumber == 35 then [39, 54, 24, 14, 55, 25]
    else if typeNumber == 36 then [46, 54, 24, 10, 55, 25]
    else if typeNumber == 37 then [49, 54, 24, 10, 55, 25]
    else if typeNumber == 38 then [48, 54, 24, 14, 55, 25]
    else if typeNumber == 39 then [43, 54, 24, 22, 55, 25]
    else if typeNumber == 40 then [34, 54, 24, 34, 55, 25]
    else []
  }

  function RowH(typeNumber: int): seq<nat> {
    if typeNumber == 1 then [1, 26, 9]
    else if typeNumber == 2 then [1, 44, 16]
    else if typeNumber == 3 then [2, 35, 13]
    else if typeNumber == 4 then [4, 25, 9]
    else if typeNumber == 5 then [2, 33, 11, 2, 34, 12]
    else if typeNumber == 6 then [4, 43, 15]
    else if typeNumber == 7 then [4, 39, 13, 1, 40, 14]
    else if typeNumber == 8 then [4, 40, 14, 2, 41, 15]
    else if typeNumber == 9 then [4, 36, 12, 4, 37, 13]
    else if typeNumber == 10 then [6, 43, 15, 2, 44, 16]
    else if typeNumber == 11 then [3, 36, 12, 8, 37, 13]
    else if typeNumber == 12 then [7, 42, 14, 4, 43, 15]
    else if typeNumber == 13 then [12, 33, 11, 4, 34, 12]
    else if typeNumber == 14 then [11, 36, 12, 5, 37, 13]
    else if typeNumber == 15 then [11, 36, 12, 7, 37, 13]
    else if typeNumber == 16 then [3, 45, 15, 13, 46, 16]
    else if typeNumber == 17 then [2, 42, 14, 17, 43, 15]
    else if typeNumber == 18 then [2, 42, 14, 19, 43, 15]
    else if typeNumber == 19 then [9, 39, 13, 16, 40, 14]
    else if typeNumber == 20 then [15, 43, 15, 10, 44, 16]
    else if typeNumber == 21 then [19, 46, 16, 6, 47, 17]
    else if typeNumber == 22 then [34, 37, 13]
    else if typeNumber == 23 then [16, 45, 15, 14, 46, 16]
    else if typeNumber == 24 then [30, 46, 16, 2, 47, 17]
    else if typeNumber == 25 then [22, 45, 15, 13, 46, 16]
    else if typeNumber == 26 then [33, 46, 16, 4, 47, 17]
    else if typeNumber == 27 then [12, 45, 15, 28, 46, 16]
    else if typeNumber == 28 then [11, 45, 15, 31, 46, 16]
    else if typeNumber == 29 then [19, 45, 15, 26, 46, 16]
    else if typeNumber == 30 then [23, 45, 15, 25, 46, 16]
    else if typeNumber == 31 then [23, 45, 15, 28, 46, 16]
    else if typeNumber == 32 then [19, 45, 15, 35, 46, 16]
    else if typeNumber == 33 then [11, 45, 15, 46, 46, 16]
    else if typeNumber == 34 then [59, 46, 16, 1, 47, 17]
    else if typeNumber == 35 then [22, 45, 15, 41, 46, 16]
    else if typeNumber == 36 then [2, 45, 15, 64, 46, 16]
    else if typeNumber == 37 then [24, 45, 15, 46, 46, 16]
    else if typeNumber == 38 then [42, 45, 15, 32, 46, 16]
    else if typeNumber == 39 then [10, 45, 15, 67, 46, 16]
    else if typeNumber == 40 then [20, 45, 15, 61, 46, 16]
    else []
  }

  function Row(level: Level, typeNumber: int): seq<nat> {
    match level
    case L => RowL(typeNumber)
    case M => RowM(typeNumber)
    case Q => RowQ(typeNumber)
    case H => RowH(typeNumber)
  }

  function Repeated(count: nat, b: RsBlock): (bs: seq<RsBlock>)
    ensures |bs| == count && forall i :: 0 <= i < count ==> bs[i] == b
  {
    seq(count, _ => b)
  }

  function RowBlocks(row: seq<nat>): seq<RsBlock> {
    if |row| < 3 then [] else Repeated(row[0], RsBlock(row[1], row[2])) + RowBlocks(row[3..])
  }

  function Blocks(level: Level, typeNumber: int): seq<RsBlock> {
    RowBlocks(Row(level, typeNumber))
  }

  method AddRepeated(list: seq<RsBlock>, count: nat, block: RsBlock) returns (longer: seq<RsBlock>)
    ensures longer == list + Repeated(count, block)
  {
    longer := list;
    for j := 0 to count
      invariant longer == list + Repeated(j, block)
    {
      longer := longer + [block];
    }
  }

  lemma RowStep(row: seq<nat>)
    requires |row| >= 3
    ensures RowBlocks(row) == Repeated(row[0], RsBlock(row[1], row[2])) + RowBlocks(row[3..])
  {
  }

  lemma RowEnd(row: seq<nat>)
    requires row == []
    ensures forall a: seq<RsBlock> :: a + RowBlocks(row) == a
  {
  }

  method Expand(rsBlock: seq<nat>) returns (list: seq<RsBlock>)
    requires |rsBlock| % 3 == 0
    ensures list == RowBlocks(rsBlock)
  {
    hide RowBlocks, Repeated;
    list := [];
    assert rsBlock[0..] == rsBlock;
    for i := 0 to |rsBlock| / 3
      invariant list + RowBlocks(rsBlock[3 * i..]) == RowBlocks(rsBlock)
    {
      RowStep(rsBlock[3 * i..]);
      var block := RsBlock(rsBlock[3 * i + 1], rsBlock[3 * i + 2]);
      assert rsBlock[3 * i..][3..] == rsBlock[3 * (i + 1)..];
      list := AddRepeated(list, rsBlock[3 * i], block);
    }
    assert rsBlock[3 * (|rsBlock| / 3)..] == [];
    RowEnd([]);
  }

  /** A code of at most 255 symbols, at most 30 of them check symbols. */
  predicate Sound(b: RsBlock) {
    0 < b.dataCount < b.totalCount <= 255 && b.EcCount() <= 30
  }

  /** The number of codewords of a version (table 1 of the standard). */
  function CodewordCount(typeNumber: int): nat {
    if typeNumber == 1 then 26
    else if typeNumber == 2 then 44
    else if typeNumber == 3 then 70
    else if typeNumber == 4 then 100
    else if typeNumber == 5 then 134
    else if typeNumber == 6 then 172
    else if typeNumber == 7 then 196
    else if typeNumber == 8 then 242
    else if typeNumber == 9 then 292
    else if typeNumber == 10 then 346
    else if typeNumber == 11 then 404
    else if typeNumber == 12 then 466
    else if typeNumber == 13 then 532
    else if typeNumber == 14 then 581
    else if typeNumber == 15 then 655
    else if typeNumber == 16 then 733
    else if typeNumber == 17 then 815
    else if typeNumber == 18 then 901
    else if typeNumber == 19 then 991
    else if typeNumber == 20 then 1085
    else if typeNumber == 21 then 1156
    else if typeNumber == 22 then 1258
    else if typeNumber == 23 then 1364
    else if typeNumber == 24 then 1474
    else if typeNumber == 25 then 1588
    else if typeNumber == 26 then 1706
    else if typeNumber == 27 then 1828
    else if typeNumber == 28 then 1921
    else if typeNumber == 29 then 2051
    else if typeNumber == 30 then 2185
    else if typeNumber == 31 then 2323
    else if typeNumber == 32 then 2465
    else if typeNumber == 33 then 2611
    else if typeNumber == 34 then 2761
    else if typeNumber == 35 then 2876
    else if typeNumber == 36 then 3034
    else if typeNumber == 37 then 3196
    else if typeNumber == 38 then 3362
    else if typeNumber == 39 then 3532
    else if typeNumber == 40 then 3706
    else 0
  }

  /** The codewords are as many as the version takes, and the length field of a segment can count the data. */
  predicate FillsVersion(typeNumber: int, total: int, data: int) {
    data <= (if typeNumber < 10 then 256 else 65536) && total == CodewordCount(typeNumber)
  }

  /** One or two kinds of blocks, each of them sound, that fit the version. */
  predicate GoodRow(row: seq<nat>, typeNumber: int) {
    if |row| == 3 then
      Sound(RsBlock(row[1], row[2])) && FillsVersion(typeNumber, row[0] * row[1], row[0] * row[2])
    else
      && |row| == 6
      && Sound(RsBlock(row[1], row[2])) && Sound(RsBlock(row[4], row[5]))
      && FillsVersion(typeNumber, row[0] * row[1] + row[3] * row[4], row[0] * row[2] + row[3] * row[5])
  }

  lemma LowRowsL(typeNumber: int)
    requires 1 <= typeNumber <= 20
    ensures GoodRow(RowL(typeNumber), typeNumber)
  {
  }

  lemma HighRowsL(typeNumber: int)
    requires 21 <= typeNumber <= 40
    ensures GoodRow(RowL(typeNumber), typeNumber)
  {
  }

  lemma LowRowsM(typeNumber: int)
    requires 1 <= typeNumber <= 20
    ensures GoodRow(RowM(typeNumber), typeNumber)
  {
  }

  lemma HighRowsM(typeNumber: int)
    requires 21 <= typeNumber <= 40
    ensures GoodRow(RowM(typeNumber), typeNumber)
  {
  }

  lemma LowRowsQ(typeNumber: int)
    requires 1 <= typeNumber <= 20
    ensures GoodRow(RowQ(typeNumber), typeNumber)
  {
  }

  lemma HighRowsQ(typeNumber: int)
    requires 21 <= typeNumber <= 40
    ensures GoodRow(RowQ(typeNumber), typeNumber)
  {
  }

  lemma LowRowsH(typeNumber: int)
    requires 1 <= typeNumber <= 20
    ensures GoodRow(RowH(typeNumber), typeNumber)
  {
  }

  lemma HighRowsH(typeNumber: int)
    requires 21 <= typeNumber <= 40
    ensures GoodRow(RowH(typeNumber), typeNumber)
  {
  }

  lemma RowFacts(level: Level, typeNumber: int)
    requires 1 <= typeNumber <= 40
    ensures GoodRow(Row(level, typeNumber), typeNumber)
  {
    hide RowL, RowM, RowQ, RowH, GoodRow;
    match level
    case L => if typeNumber <= 20 { LowRowsL(typeNumber); } else { HighRowsL(typeNumber); }
    case M => if typeNumber <= 20 { LowRowsM(typeNumber); } else { HighRowsM(typeNumber); }
    case Q => if typeNumber <= 20 { LowRowsQ(typeNumber); } else { HighRowsQ(typeNumber); }
    case H => if typeNumber <= 20 { LowRowsH(typeNumber); } else { HighRowsH(typeNumber); }
  }

  lemma RowShape(level: Level, typeNumber: int)
    ensures if 1 <= typeNumber <= 40 then |Row(level, typeNumber)| in {3, 6} else Row(level, typeNumber) == []
  {
    if 1 <= typeNumber <= 40 {
      RowFacts(level, typeNumber);
      hide RowL, RowM, RowQ, RowH, Row, Sound, FillsVersion;
    } else {
      match level
      case L =>
      case M =>
      case Q =>
      case H =>
    }
  }

  method GetRsBlocks(level: Level, typeNumber: int) returns (r: Result<seq<RsBlock>>)
    ensures r == if 1 <= typeNumber <= 40 then Ok(Blocks(level, typeNumber)) else Thrown
  {
    hide Row, RowBlocks;
    var rsBlock := Row(level, typeNumber);
    RowShape(level, typeNumber);
    if rsBlock == [] {
      return Thrown;
    }
    var list := Expand(rsBlock);
    r := Ok(list);
  }

  // ---------- sizes ----------

  /** The number of data codewords. */
  function DataCount(blocks: seq<RsBlock>): nat {
    if blocks == [] then 0 else DataCount(blocks[..|blocks| - 1]) + blocks[|blocks| - 1].dataCount
  }

  /** The number of all codewords. */
  function TotalCount(blocks: seq<RsBlock>): nat {
    if blocks == [] then 0 else TotalCount(blocks[..|blocks| - 1]) + blocks[|blocks| - 1].totalCount
  }

  method TotalDataCount(blocks: seq<RsBlock>) returns (n: nat)
    ensures n == DataCount(blocks)
  {
    n := 0;
    for i := 0 to |blocks|
      invariant n == DataCount(blocks[..i])
    {
      assert blocks[..i + 1][..i] == blocks[..i];
      n := n + blocks[i].dataCount;
    }
    assert blocks[..|blocks|] == blocks;
  }

  lemma {:induction false} CountsConcat(a: seq<RsBlock>, b: seq<RsBlock>)
    ensures DataCount(a + b) == DataCount(a) + DataCount(b)
    ensures TotalCount(a + b) == TotalCount(a) + TotalCount(b)
  {
    if b == [] {
      assert a + b == a;
    } else {
      CountsConcat(a, b[..|b| - 1]);
      assert (a + b)[..|a + b| - 1] == a + b[..|b| - 1];
    }
  }

  lemma {:induction false} CountsRepeated(count: nat, b: RsBlock)
    ensures DataCount(Repeated(count, b)) == count * b.dataCount
    ensures TotalCount(Repeated(count, b)) == count * b.totalCount
  {
    if count == 0 {
    } else {
      CountsRepeated(count - 1, b);
      assert Repeated(count, b)[..count - 1] == Repeated(count - 1, b);
    }
  }

  predicate AllSound(blocks: seq<RsBlock>) {
    forall i :: 0 <= i < |blocks| ==> Sound(blocks[i])
  }

  /** The number of alignment patterns along a side. */
  function Alignments(typeNumber: int): int {
    if typeNumber < 2 then 0 else typeNumber / 7 + 2
  }

  /** What the alignment patterns take: 25 modules each, 20 on a timing line, and none at three corners. */
  function AlignmentModules(k: int): int {
    if k == 0 then 0 else 25 * (k - 1) * (k - 1) + 40 * (k - 2)
  }

  /** The number of modules that hold data: all but column 6, the three position patterns, the timing row, the
      format information with the fixed module, the version information and the alignment patterns. */
  function DataModules(typeNumber: int): int {
    var n := typeNumber * 4 + 17;
    n * (n - 1) - 176 - (n - 16) - 31 - (if typeNumber >= 7 then 36 else 0) - AlignmentModules(Alignments(typeNumber))
  }

  lemma AlignmentValues()
    ensures AlignmentModules(0) == 0 && AlignmentModules(2) == 25 && AlignmentModules(3) == 140
    ensures AlignmentModules(4) == 305 && AlignmentModules(5) == 520 && AlignmentModules(6) == 785
    ensures AlignmentModules(7) == 1100
  {
  }

  /** All codewords fill the data modules, except for at most seven of them. */
  lemma CodewordsFill(typeNumber: int)
    requires 1 <= typeNumber <= 40
    ensures 8 * CodewordCount(typeNumber) <= DataModules(typeNumber) < 8 * CodewordCount(typeNumber) + 8
  {
    AlignmentValues();
    hide AlignmentModules;
  }

  lemma OneTriple(row: seq<nat>)
    requires |row| == 3 && Sound(RsBlock(row[1], row[2]))
    ensures var blocks := RowBlocks(row);
      AllSound(blocks) && DataCount(blocks) == row[0] * row[2] && TotalCount(blocks) == row[0] * row[1]
  {
    RowEnd(row[3..]);
    CountsRepeated(row[0], RsBlock(row[1], row[2]));
    hide Sound, DataCount, TotalCount;
  }

  lemma TwoTriples(row: seq<nat>)
    requires |row| == 6 && Sound(RsBlock(row[1], row[2])) && Sound(RsBlock(row[4], row[5]))
    ensures var blocks := RowBlocks(row);
      && AllSound(blocks) && DataCount(blocks) == row[0] * row[2] + row[3] * row[5]
      && TotalCount(blocks) == row[0] * row[1] + row[3] * row[4]
  {
    var tail := row[3..];
    assert tail[0] == row[3] && tail[1] == row[4] && tail[2] == row[5];
    hide Sound;
    OneTriple(tail);
    RowStep(row);
    CountsRepeated(row[0], RsBlock(row[1], row[2]));
    CountsConcat(Repeated(row[0], RsBlock(row[1], row[2])), RowBlocks(tail));
    hide RowBlocks, DataCount, TotalCount;
  }

  /** At every level and in every version each block is a Reed-Solomon code of at most 255 symbols, the codewords
      are as many at each level, and the length fields can count the data codewords. */
  lemma BlockFacts(level: Level, typeNumber: int)
    requires 1 <= typeNumber <= 40
    ensures var blocks := Blocks(level, typeNumber);
      AllSound(blocks) && FillsVersion(typeNumber, TotalCount(blocks), DataCount(blocks))
  {
    var row := Row(level, typeNumber);
    RowFacts(level, typeNumber);
    hide Row, Sound, FillsVersion, AllSound, RowBlocks, DataCount, TotalCount;
    if |row| == 3 {
      OneTriple(row);
    } else {
      TwoTriples(row);
    }
  }
}
