/** createBytes and createData of src/web/qrcode.js: the codewords of a QR code, and how a reader gets the
    text back out of them. */
module QrBytes {
  import opened Basics
  import opened BitStrings
  import opened GaloisField
  import opened GfTables
  import opened Polynomial
  import opened ReedSolomon
  import opened RsBlocks
  import opened QrData
  import opened Interleave

  // ---------- the blocks ----------

  /** 0xff & getBuffer()[i]; a cell beyond the buffer counts as zero. */
  function Cell(buffer: seq<nat>, i: nat): bv8 {
    if i < |buffer| then (buffer[i] % 256) as bv8 else 0
  }

  function DataBlock(buffer: seq<nat>, offset: nat, n: nat): (p: Poly)
    ensures |p| == n
  {
    seq(n, i requires 0 <= i < n => Cell(buffer, offset + i))
  }

  /** The data cells of the blocks, one block after the other. */
  function DataBlocks(buffer: seq<nat>, blocks: seq<RsBlock>): (ps: seq<Poly>)
    ensures |ps| == |blocks|
  {
    if blocks == [] then []
    else
      var n := |blocks| - 1;
      DataBlocks(buffer, blocks[..n]) + [DataBlock(buffer, DataCount(blocks[..n]), blocks[n].dataCount)]
  }

  ghost function EcBlocks(buffer: seq<nat>, blocks: seq<RsBlock>): (ps: seq<Poly>)
    requires AllSound(blocks)
    ensures |ps| == |blocks|
  {
    if blocks == [] then []
    else
      var n := |blocks| - 1;
      EcBlocks(buffer, blocks[..n])
        + [EcCells(DataBlock(buffer, DataCount(blocks[..n]), blocks[n].dataCount), blocks[n].EcCount())]
  }

  method FillBlock(buffer: seq<nat>, offset: nat, n: nat) returns (p: Poly)
    ensures p == DataBlock(buffer, offset, n)
  {
    var dc := new bv8[n];
    for i := 0 to n
      invariant forall k :: 0 <= k < i ==> dc[k] == Cell(buffer, offset + k)
    {
      dc[i] := Cell(buffer, i + offset);
    }
    p := dc[..];
  }

  /** The first loop of createBytes. */
  method MakeBlocks(m: QRMath, buffer: seq<nat>, blocks: seq<RsBlock>) returns (r: Result<(seq<Poly>, seq<Poly>)>)
    requires m.Valid()
    requires AllSound(blocks)
    ensures r == Ok((DataBlocks(buffer, blocks), EcBlocks(buffer, blocks)))
  {
    hide EcCells, DataBlock, QRMath.Valid;
    var dcdata: seq<Poly>, ecdata: seq<Poly> := [], [];
    var offset := 0;
    for i := 0 to |blocks|
      invariant offset == DataCount(blocks[..i])
      invariant dcdata == DataBlocks(buffer, blocks[..i]) && ecdata == EcBlocks(buffer, blocks[..i])
    {
      assert Sound(blocks[i]);
      assert blocks[..i + 1][..i] == blocks[..i];
      var dc := FillBlock(buffer, offset, blocks[i].dataCount);
      offset := offset + blocks[i].dataCount;
      var ec := ComputeEcCells(m, dc, blocks[i].totalCount - blocks[i].dataCount);
      if ec.Thrown? {
        return Thrown;
      }
      dcdata, ecdata := dcdata + [dc], ecdata + [ec.value];
    }
    assert blocks[..|blocks|] == blocks;
    r := Ok((dcdata, ecdata));
  }

  // ---------- the output ----------

  lemma ColumnStep(ps: seq<Poly>, r: nat, i: nat)
    requires r < |ps|
    ensures Column(ps[..r + 1], i) == Column(ps[..r], i) + if i < |ps[r]| then [ps[r][i]] else []
  {
    assert ps[..r + 1][..r] == ps[..r];
  }

  /** There is room for the next cell. */
  lemma Room(ps: seq<Poly>, r: nat, i: nat, n: nat)
    requires r < |ps| && i < |ps[r]| && i < n
    ensures |Columns(ps, i)| + |Column(ps[..r], i)| < |Columns(ps, n)|
  {
    var sizes := Sizes(ps);
    ColumnsLength(ps, i);
    ColumnsLength(ps, n);
    ColumnAt(ps[..r], 0, i);
    assert Sizes(ps[..r]) == sizes[..r];
    PositionBound(sizes, r, i, n);
  }

  lemma NoColumn(ps: seq<Poly>, i: nat)
    ensures Column(ps[..0], i) == []
  {
  }

  /** One column, written from `start` on. */
  method WriteColumn(data: array<bv8>, start: nat, ps: seq<Poly>, i: nat, n: nat, ghost base: nat) returns (index: nat)
    requires i < n && start == base + |Columns(ps, i)| <= data.Length && base + |Columns(ps, n)| <= data.Length
    modifies data
    ensures index == start + |Column(ps, i)| <= data.Length
    ensures data[..index] == old(data[..start]) + Column(ps, i)
  {
    hide Columns, Column;
    index := start;
    NoColumn(ps, i);
    for r := 0 to |ps|
      invariant index == start + |Column(ps[..r], i)| <= data.Length
      invariant data[..index] == old(data[..start]) + Column(ps[..r], i)
    {
      ColumnStep(ps, r, i);
      if i < |ps[r]| {
        Room(ps, r, i, n);
        data[index] := ps[r][i];
        index := index + 1;
      }
    }
    assert ps[..|ps|] == ps;
  }

  lemma MoreColumns(ps: seq<Poly>, i: nat, n: nat)
    requires i < n
    ensures |Columns(ps, i + 1)| <= |Columns(ps, n)|
  {
    ColumnsLength(ps, i + 1);
    ColumnsLength(ps, n);
    StartGrows(Sizes(ps), i + 1, n);
  }

  lemma ColumnsStep(ps: seq<Poly>, i: nat)
    ensures Columns(ps, i + 1) == Columns(ps, i) + Column(ps, i)
  {
  }

  /** The two loops that write blocks column by column. */
  method WriteColumns(data: array<bv8>, start: nat, ps: seq<Poly>, n: nat) returns (index: nat)
    requires start + |Columns(ps, n)| <= data.Length
    modifies data
    ensures index == start + |Columns(ps, n)|
    ensures data[..index] == old(data[..start]) + Columns(ps, n)
  {
    hide Column;
    index := start;
    for i := 0 to n
      invariant index == start + |Columns(ps, i)| <= data.Length
      invariant data[..index] == old(data[..start]) + Columns(ps, i)
    {
      MoreColumns(ps, i, n);
      index := WriteColumn(data, index, ps, i, n, start);
      ColumnsStep(ps, i);
    }
  }

  /** All data cells, interleaved, and then all error correction cells, interleaved. */
  ghost function Codewords(buffer: seq<nat>, blocks: seq<RsBlock>): Poly
    requires AllSound(blocks)
  {
    Interleaved(DataBlocks(buffer, blocks)) + Interleaved(EcBlocks(buffer, blocks))
  }

  function DataSizes(blocks: seq<RsBlock>): (s: seq<nat>)
    ensures |s| == |blocks|
  {
    seq(|blocks|, i requires 0 <= i < |blocks| => blocks[i].dataCount)
  }

  function EcSizes(blocks: seq<RsBlock>): (s: seq<nat>)
    ensures |s| == |blocks|
  {
    seq(|blocks|, i requires 0 <= i < |blocks| =>
      if blocks[i].totalCount >= blocks[i].dataCount then blocks[i].totalCount - blocks[i].dataCount else 0)
  }

  lemma {:induction false} DataBlockSizes(buffer: seq<nat>, blocks: seq<RsBlock>)
    ensures Sizes(DataBlocks(buffer, blocks)) == DataSizes(blocks)
    ensures Sum(DataSizes(blocks)) == DataCount(blocks)
  {
    if blocks == [] {
    } else {
      hide DataBlock;
      var n := |blocks| - 1;
      DataBlockSizes(buffer, blocks[..n]);
      assert DataSizes(blocks)[..n] == DataSizes(blocks[..n]);
      assert DataSizes(blocks) == DataSizes(blocks[..n]) + [blocks[n].dataCount];
    }
  }

  lemma SizesAppend(ps: seq<Poly>, p: Poly)
    ensures Sizes(ps + [p]) == Sizes(ps) + [|p|]
  {
  }

  lemma SumAppend(sizes: seq<nat>, n: nat)
    ensures Sum(sizes + [n]) == Sum(sizes) + n
  {
    assert (sizes + [n])[..|sizes|] == sizes;
  }

  lemma LastEcSize(blocks: seq<RsBlock>)
    requires blocks != [] && AllSound(blocks)
    ensures var n := |blocks| - 1;
      blocks[n].EcCount() >= 0 && EcSizes(blocks) == EcSizes(blocks[..n]) + [blocks[n].EcCount()]
  {
    assert Sound(blocks[|blocks| - 1]);
  }

  lemma {:induction false} EcBlockSizes(buffer: seq<nat>, blocks: seq<RsBlock>)
    requires AllSound(blocks)
    ensures Sizes(EcBlocks(buffer, blocks)) == EcSizes(blocks)
    ensures DataCount(blocks) + Sum(EcSizes(blocks)) == TotalCount(blocks)
  {
    if blocks == [] {
    } else {
      var n := |blocks| - 1;
      LastEcSize(blocks);
      EcBlockSizes(buffer, blocks[..n]);
      hide EcCells, DataBlock, EcSizes, Sizes, Sum;
      SumAppend(EcSizes(blocks[..n]), blocks[n].EcCount());
      SizesAppend(EcBlocks(buffer, blocks[..n]),
                  EcCells(DataBlock(buffer, DataCount(blocks[..n]), blocks[n].dataCount), blocks[n].EcCount()));
    }
  }

  lemma CodewordsLength(buffer: seq<nat>, blocks: seq<RsBlock>)
    requires AllSound(blocks)
    ensures |Interleaved(DataBlocks(buffer, blocks))| == DataCount(blocks)
    ensures |Codewords(buffer, blocks)| == TotalCount(blocks)
  {
    DataBlockSizes(buffer, blocks);
    EcBlockSizes(buffer, blocks);
    InterleavedLength(DataBlocks(buffer, blocks));
    InterleavedLength(EcBlocks(buffer, blocks));
  }

  method LongestOf(ps: seq<Poly>) returns (n: nat)
    ensures n == Longest(ps)
  {
    n := 0;
    for r := 0 to |ps|
      invariant n == Longest(ps[..r])
    {
      assert ps[..r + 1][..r] == ps[..r];
      n := if |ps[r]| > n then |ps[r]| else n;
    }
    assert ps[..|ps|] == ps;
  }

  method TotalCodeCount(blocks: seq<RsBlock>) returns (n: nat)
    ensures n == TotalCount(blocks)
  {
    n := 0;
    for i := 0 to |blocks|
      invariant n == TotalCount(blocks[..i])
    {
      assert blocks[..i + 1][..i] == blocks[..i];
      n := n + blocks[i].totalCount;
    }
    assert blocks[..|blocks|] == blocks;
  }

  /** createBytes fills its output array exactly. */
  method CreateBytes(m: QRMath, buffer: seq<nat>, blocks: seq<RsBlock>) returns (r: Result<Poly>)
    requires m.Valid() && AllSound(blocks)
    ensures r == Ok(Codewords(buffer, blocks))
  {
    hide DataBlocks, EcBlocks, Columns, Longest, QRMath.Valid;
    var made := MakeBlocks(m, buffer, blocks);
    var dcdata, ecdata := made.value.0, made.value.1;
    CodewordsLength(buffer, blocks);
    var maxDcCount := LongestOf(dcdata);
    var maxEcCount := LongestOf(ecdata);
    var totalCodeCount := TotalCodeCount(blocks);
    var data := new bv8[totalCodeCount];
    var index := WriteColumns(data, 0, dcdata, maxDcCount);
    assert data[..index] == Interleaved(dcdata);
    index := WriteColumns(data, index, ecdata, maxEcCount);
    assert data[..] == data[..index];
    r := Ok(data[..]);
  }

  lemma {:induction false} DataBlocksAt(buffer: seq<nat>, blocks: seq<RsBlock>, r: nat)
    requires r < |blocks|
    ensures DataBlocks(buffer, blocks)[r] == DataBlock(buffer, DataCount(blocks[..r]), blocks[r].dataCount)
  {
    var n := |blocks| - 1;
    if r < n {
      hide DataBlock;
      DataBlocksAt(buffer, blocks[..n], r);
      assert blocks[..n][..r] == blocks[..r];
    }
  }

  lemma DataBlockAt(buffer: seq<nat>, offset: nat, n: nat, i: nat)
    requires i < n
    ensures DataBlock(buffer, offset, n)[i] == Cell(buffer, offset + i)
  {
  }

  lemma InterleavedDataAt(buffer: seq<nat>, blocks: seq<RsBlock>, r: nat, i: nat)
    requires r < |blocks| && i < |DataBlocks(buffer, blocks)[r]|
    ensures var k, out := Position(DataSizes(blocks), r, i), Interleaved(DataBlocks(buffer, blocks));
      k < |out| && out[k] == DataBlocks(buffer, blocks)[r][i]
  {
    hide DataBlocks, Interleaved, Position, DataSizes, DataCount, Sum;
    DataBlockSizes(buffer, blocks);
    InterleavedAt(DataBlocks(buffer, blocks), r, i);
  }

  /** Where the data codewords go: the blocks are consecutive pieces of the buffer, and their cells stand in
      the order of Interleave.PositionOrder at the front. */
  lemma DataCellAt(buffer: seq<nat>, blocks: seq<RsBlock>, r: nat, i: nat)
    requires AllSound(blocks) && r < |blocks| && i < blocks[r].dataCount
    ensures var k := Position(DataSizes(blocks), r, i);
      && k < DataCount(blocks) <= |Codewords(buffer, blocks)|
      && Codewords(buffer, blocks)[k] == Cell(buffer, DataCount(blocks[..r]) + i)
  {
    hide DataBlocks, DataBlock, EcBlocks, Interleaved, Position, Cell, DataSizes, DataCount, AllSound, TotalCount;
    CodewordsLength(buffer, blocks);
    DataBlocksAt(buffer, blocks, r);
    DataBlockAt(buffer, DataCount(blocks[..r]), blocks[r].dataCount, i);
    InterleavedDataAt(buffer, blocks, r, i);
  }

  lemma InterleavedChecksAt(buffer: seq<nat>, blocks: seq<RsBlock>, r: nat, i: nat)
    requires AllSound(blocks) && r < |blocks| && i < |EcBlocks(buffer, blocks)[r]|
    ensures var k, out := Position(EcSizes(blocks), r, i), Interleaved(EcBlocks(buffer, blocks));
      k < |out| && out[k] == EcBlocks(buffer, blocks)[r][i]
  {
    hide EcBlocks, Interleaved, Position, EcSizes, DataCount, TotalCount, Sum, AllSound;
    EcBlockSizes(buffer, blocks);
    InterleavedAt(EcBlocks(buffer, blocks), r, i);
  }

  /** The check cells stand behind all data cells, in the same order. */
  lemma CheckCellAt(buffer: seq<nat>, blocks: seq<RsBlock>, r: nat, i: nat)
    requires AllSound(blocks) && r < |blocks| && i < |EcBlocks(buffer, blocks)[r]|
    ensures var k := DataCount(blocks) + Position(EcSizes(blocks), r, i);
      k < |Codewords(buffer, blocks)| && Codewords(buffer, blocks)[k] == EcBlocks(buffer, blocks)[r][i]
  {
    hide DataBlocks, EcBlocks, Interleaved, Position, EcSizes, DataCount, TotalCount, AllSound;
    CodewordsLength(buffer, blocks);
    InterleavedChecksAt(buffer, blocks, r, i);
  }

  // ---------- createData ----------

  /** The data list fits into the version. */
  predicate Fits(level: Level, typeNumber: nat, segments: seq<Bytes>) {
    |Stream(segments, LengthInBits(typeNumber))| <= 8 * DataCount(Blocks(level, typeNumber))
  }

  /** The data codewords are the padded stream of the data list. */
  predicate Carries(level: Level, typeNumber: nat, segments: seq<Bytes>, codewords: seq<nat>) {
    && Fits(level, typeNumber, segments)
    && |codewords| == DataCount(Blocks(level, typeNumber)) && (forall i :: 0 <= i < |codewords| ==> codewords[i] < 256)
    && MsbBytes(codewords) == Padded(Stream(segments, LengthInBits(typeNumber)), |codewords|)
  }

  /** createData throws exactly for a data list that does not fit, and otherwise yields the interleaved
      codewords of exactly the data codewords of the version. */
  method CreateData(m: QRMath, level: Level, typeNumber: nat, segments: seq<Bytes>)
    returns (r: Result<Poly>, ghost codewords: seq<nat>)
    requires m.Valid() && 1 <= typeNumber <= 40
    ensures r.Ok? <==> Fits(level, typeNumber, segments)
    ensures r.Ok? ==>
      && Carries(level, typeNumber, segments, codewords)
      && AllSound(Blocks(level, typeNumber)) && r.value == Codewords(codewords, Blocks(level, typeNumber))
  {
    hide Stream, Padded, Codewords, Blocks, AllSound, DataCount, QRMath.Valid, LengthInBits, MsbBytes;
    var found := GetRsBlocks(level, typeNumber);
    var blocks := found.value;
    BlockFacts(level, typeNumber);
    var total := TotalDataCount(blocks);
    var made := CreateCodewords(typeNumber, segments, total);
    codewords := [];
    if made.Thrown? {
      return Thrown, codewords;
    }
    codewords := made.value;
    r := CreateBytes(m, made.value, blocks);
  }

  /** The choice of the version in make: the smallest one that fits, and 40 if none does. */
  method ChooseType(level: Level, segments: seq<Bytes>) returns (typeNumber: nat)
    ensures 1 <= typeNumber <= 40
    ensures forall t: nat :: 1 <= t < typeNumber ==> !Fits(level, t, segments)
    ensures typeNumber < 40 ==> Fits(level, typeNumber, segments)
  {
    hide Stream, Blocks, DataCount, LengthInBits;
    typeNumber := 1;
    while typeNumber < 40
      invariant 1 <= typeNumber <= 40
      invariant forall t: nat :: 1 <= t < typeNumber ==> !Fits(level, t, segments)
    {
      var found := GetRsBlocks(level, typeNumber);
      var buffer := WriteStream(typeNumber, segments);
      var total := TotalDataCount(found.value);
      if buffer.length <= total * 8 {
        assert |buffer.Bits()| == buffer.length;
        break;
      }
      assert |buffer.Bits()| == buffer.length;
      typeNumber := typeNumber + 1;
    }
  }

  // ---------- the reader ----------

  function Flattened(ps: seq<Poly>): Poly {
    if ps == [] then [] else Flattened(ps[..|ps| - 1]) + ps[|ps| - 1]
  }

  function Numbers(p: Poly): (s: seq<nat>)
    ensures |s| == |p|
  {
    seq(|p|, i requires 0 <= i < |p| => p[i] as nat)
  }

  /** The blocks that a reader takes out of the codewords. */
  function ReadDataBlocks(blocks: seq<RsBlock>, data: Poly): seq<Poly>
    requires |data| >= Sum(DataSizes(blocks))
  {
    Deinterleaved(DataSizes(blocks), data[..Sum(DataSizes(blocks))])
  }

  function ReadEcBlocks(blocks: seq<RsBlock>, data: Poly): seq<Poly>
    requires |data| == Sum(DataSizes(blocks)) + Sum(EcSizes(blocks))
  {
    Deinterleaved(EcSizes(blocks), data[Sum(DataSizes(blocks))..])
  }

  lemma {:induction false} FlattenedBlocks(buffer: seq<nat>, blocks: seq<RsBlock>)
    ensures Flattened(DataBlocks(buffer, blocks)) == DataBlock(buffer, 0, DataCount(blocks))
  {
    if blocks == [] {
    } else {
      hide Cell;
      var n := |blocks| - 1;
      FlattenedBlocks(buffer, blocks[..n]);
      assert DataBlocks(buffer, blocks)[..n] == DataBlocks(buffer, blocks[..n]);
    }
  }

  lemma SmallRest(x: nat)
    requires x < 256
    ensures x % 256 == x
  {
  }

  lemma ByteBack(x: bv8)
    ensures (x as int) as bv8 == x
  {
  }

  lemma Successor(y: bv8)
    requires y != 255
    ensures (y + 1) as int == y as int + 1
  {
  }

  lemma {:induction false} ByteValue(x: nat)
    requires x < 256
    ensures (x as bv8) as int == x
  {
    if x == 0 {
    } else {
      var y := (x - 1) as bv8;
      ByteValue(x - 1);
      assert y != 255;
      Successor(y);
      ByteBack(y + 1);
    }
  }

  lemma CellValue(buffer: seq<nat>, i: nat)
    requires i < |buffer| && buffer[i] < 256
    ensures Cell(buffer, i) as nat == buffer[i]
  {
    SmallRest(buffer[i]);
    ByteValue(buffer[i]);
  }

  lemma WholeBlock(buffer: seq<nat>)
    requires forall i :: 0 <= i < |buffer| ==> buffer[i] < 256
    ensures Numbers(DataBlock(buffer, 0, |buffer|)) == buffer
  {
    hide Cell;
    forall i | 0 <= i < |buffer| ensures Numbers(DataBlock(buffer, 0, |buffer|))[i] == buffer[i] {
      CellValue(buffer, i);
    }
  }

  /** A reader takes the very blocks out again. */
  lemma BlocksComeBack(buffer: seq<nat>, blocks: seq<RsBlock>)
    requires AllSound(blocks)
    ensures var data := Codewords(buffer, blocks);
      && |data| == Sum(DataSizes(blocks)) + Sum(EcSizes(blocks))
      && ReadDataBlocks(blocks, data) == DataBlocks(buffer, blocks)
      && ReadEcBlocks(blocks, data) == EcBlocks(buffer, blocks)
  {
    DataBlockSizes(buffer, blocks);
    EcBlockSizes(buffer, blocks);
    CodewordsLength(buffer, blocks);
    hide Interleaved, DataBlocks, EcBlocks, Sizes, DataSizes, EcSizes, Sum;
    DeinterleavesInterleaved(DataBlocks(buffer, blocks));
    DeinterleavesInterleaved(EcBlocks(buffer, blocks));
  }

  lemma CellsAreCodeword(data: Poly, n: nat)
    ensures Codeword(data + EcCells(data, n), n)
  {
    hide EcCells;
    forall i: nat | 0 <= i < n ensures Eval(data + EcCells(data, n), AlphaPow(i)) == 0 {
      CodewordRoots(data, n, i);
    }
  }

  lemma {:induction false} BlockIsCodeword(buffer: seq<nat>, blocks: seq<RsBlock>, r: nat)
    requires AllSound(blocks) && r < |blocks|
    ensures var d, e := DataBlocks(buffer, blocks)[r], EcBlocks(buffer, blocks)[r];
      |d + e| == blocks[r].totalCount <= 255 && |e| == blocks[r].EcCount() && Codeword(d + e, |e|)
  {
    var n := |blocks| - 1;
    if r < n {
      hide DataBlock, EcCells, Codeword;
      BlockIsCodeword(buffer, blocks[..n], r);
    } else {
      assert Sound(blocks[n]);
      hide DataBlock, EcCells;
      CellsAreCodeword(DataBlock(buffer, DataCount(blocks[..n]), blocks[n].dataCount), blocks[n].EcCount());
    }
  }

  /** The whole way. For every level, every version and every data list that fits, a reader of the
      codewords finds blocks that are Reed-Solomon codewords of at most 255 symbols, and their data cells
      read as exactly the segments that were written. */
  lemma ReaderGetsSegments(level: Level, typeNumber: nat, segments: seq<Bytes>, codewords: seq<nat>)
    requires 1 <= typeNumber <= 40 && Carries(level, typeNumber, segments, codewords) && AllSound(Blocks(level, typeNumber))
    ensures var blocks := Blocks(level, typeNumber); var data := Codewords(codewords, blocks);
      && |data| == Sum(DataSizes(blocks)) + Sum(EcSizes(blocks))
      && var ds, es := ReadDataBlocks(blocks, data), ReadEcBlocks(blocks, data);
      && |ds| == |es| == |blocks|
      && (forall r :: 0 <= r < |blocks| ==>
            |ds[r] + es[r]| <= 255 && |es[r]| == blocks[r].EcCount() && Codeword(ds[r] + es[r], |es[r]|))
      && ReadSegments(MsbBytes(Numbers(Flattened(ds))), LengthInBits(typeNumber)) == Some(segments)
  {
    var blocks := Blocks(level, typeNumber);
    BlockFacts(level, typeNumber);
    ReadBack(typeNumber, segments, |codewords|, codewords);
    BlocksComeBack(codewords, blocks);
    FlattenedBlocks(codewords, blocks);
    WholeBlock(codewords);
    forall r | 0 <= r < |blocks|
      ensures var d, e := DataBlocks(codewords, blocks)[r], EcBlocks(codewords, blocks)[r];
        |d + e| <= 255 && |e| == blocks[r].EcCount() && Codeword(d + e, |e|)
    {
      hide Codeword;
      BlockIsCodeword(codewords, blocks, r);
    }
    hide *;
  }

  /** Within each block, errors in up to half as many cells as it has check cells leave the written
      codeword the only one within reach. */
  lemma ErrorsAreCorrectable(buffer: seq<nat>, blocks: seq<RsBlock>, r: nat, received: Poly, other: Poly)
    requires AllSound(blocks) && r < |blocks|
    requires var d, e := DataBlocks(buffer, blocks)[r], EcBlocks(buffer, blocks)[r];
      && |received| == |other| == |d + e| && Codeword(other, |e|)
      && 2 * |Differences(d + e, received)| <= |e| && 2 * |Differences(other, received)| <= |e|
    ensures other == DataBlocks(buffer, blocks)[r] + EcBlocks(buffer, blocks)[r]
  {
    BlockIsCodeword(buffer, blocks, r);
    var d, e := DataBlocks(buffer, blocks)[r], EcBlocks(buffer, blocks)[r];
    hide Codeword, DataBlocks, EcBlocks;
    CorrectionIsUnique(d + e, other, received, |e|);
  }
}
