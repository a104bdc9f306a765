/** The whole pipeline of src/web/qrcode.js from a data list to the modules of a symbol, and back. */
module QrSymbol {
  import opened Basics
  import opened BitStrings
  import opened GfTables
  import opened Polynomial
  import opened RsBlocks
  import opened QrData
  import opened Interleave
  import opened QrBytes
  import opened Placement
  import opened QrBch
  import opened QrPatterns
  import opened QrCapacity

  function Coefficients(bytes: Bytes): (p: Poly)
    ensures |p| == |bytes|
  {
    seq(|bytes|, i requires 0 <= i < |bytes| => bytes[i] as bv8)
  }

  function AsBytes(p: Poly): (b: Bytes)
    ensures |b| == |p|
  {
    seq(|p|, i requires 0 <= i < |p| => p[i] as int)
  }

  /** The codewords in the bits along the walk. */
  function ReadCodewords(bits: seq<bool>, count: nat): (data: Poly)
    requires 8 * count <= |bits|
  {
    Coefficients(BytesOf(bits[..8 * count], count))
  }

  /** The segments in the codewords. */
  function ReadText(level: Level, typeNumber: nat, data: Poly): Option<seq<Bytes>> {
    var blocks := Blocks(level, typeNumber);
    if |data| < Sum(DataSizes(blocks)) then None
    else ReadSegments(MsbBytes(Numbers(Flattened(ReadDataBlocks(blocks, data)))), LengthInBits(typeNumber))
  }

  lemma CoefficientsBack(p: Poly)
    ensures Coefficients(AsBytes(p)) == p && AsBytes(p) == Numbers(p)
  {
    forall i | 0 <= i < |p| ensures Coefficients(AsBytes(p))[i] == p[i] {
      ByteBack(p[i]);
    }
  }

  lemma CodewordsRead(p: Poly, bits: seq<bool>)
    requires 8 * |p| <= |bits| && bits[..8 * |p|] == MsbBytes(Numbers(p))
    ensures ReadCodewords(bits, |p|) == p
  {
    CoefficientsBack(p);
    BytesOfBits(AsBytes(p));
    hide MsbBytes, Numbers, Coefficients, AsBytes, BytesOf;
  }

  /** The cached codewords belong to the data list. */
  ghost predicate Encodes(level: Level, typeNumber: nat, segments: seq<Bytes>, data: Poly) {
    var blocks := Blocks(level, typeNumber);
    && 1 <= typeNumber <= 40 && AllSound(blocks)
    && exists codewords :: Carries(level, typeNumber, segments, codewords) && data == Codewords(codewords, blocks)
  }

  lemma TextRead(level: Level, typeNumber: nat, segments: seq<Bytes>, data: Poly)
    requires Encodes(level, typeNumber, segments, data)
    ensures |data| == TotalCount(Blocks(level, typeNumber))
    ensures ReadText(level, typeNumber, data) == Some(segments)
  {
    hide Blocks, Codewords, Sum, DataSizes, ReadDataBlocks, ReadSegments, MsbBytes, Numbers, Flattened, LengthInBits, Padded,
      Stream, Fits, ReadEcBlocks, DataCount, TotalCount, AllSound, Carries;
    var codewords :| Carries(level, typeNumber, segments, codewords) && data == Codewords(codewords, Blocks(level, typeNumber));
    ReaderGetsSegments(level, typeNumber, segments, codewords);
    CodewordsLength(codewords, Blocks(level, typeNumber));
  }

  // ---------- a reader of the modules ----------

  ghost predicate Complete(h: Grid, n: nat) {
    Square(h, n) && forall i, j :: 0 <= i < n && 0 <= j < n ==> h[i][j].Some?
  }

  ghost function InfoBits(h: Grid, n: nat): (bits: seq<bool>)
    requires Complete(h, n) && n >= 21
    ensures |bits| == 15
  {
    seq(15, k requires 0 <= k < 15 => h[InfoRow(n, k)][8].value)
  }

  /** The word beside the first position pattern, without its mask. */
  ghost function ReadInfo(h: Grid, n: nat): nat
    requires Complete(h, n) && n >= 21
  {
    Xor(FromBits(InfoBits(h, n)), G15_MASK)
  }

  function LevelOf(k: nat): Level {
    if k % 4 == 1 then L else if k % 4 == 0 then M else if k % 4 == 3 then Q else H
  }

  ghost function ReadLevel(h: Grid, n: nat): Level
    requires Complete(h, n) && n >= 21
  {
    LevelOf(Shr(ReadInfo(h, n), 10) / 8)
  }

  ghost function ReadMask(h: Grid, n: nat): Mask
    requires Complete(h, n) && n >= 21
  {
    Shr(ReadInfo(h, n), 10) % 8
  }

  /** The bits under a mask in the modules that are not function modules. */
  ghost function ReadData(h: Grid, typeNumber: nat, mask: Mask): seq<bool>
    requires Complete(h, typeNumber * 4 + 17)
    requires forall x :: x in DataCells(typeNumber) ==> Inside(typeNumber * 4 + 17, x)
  {
    ReadBits(h, typeNumber * 4 + 17, DataCells(typeNumber), mask)
  }

  /** All that a reader knows is the modules: their number gives the version, the format information gives the
      level and the mask, and the walk gives the codewords. */
  ghost function ReadSymbol(h: Grid, typeNumber: nat): Option<seq<Bytes>>
    requires 1 <= typeNumber <= 40 && Complete(h, typeNumber * 4 + 17)
  {
    DataCellsCount(typeNumber);
    var level, mask := ReadLevel(h, typeNumber * 4 + 17), ReadMask(h, typeNumber * 4 + 17);
    Capacity(level, typeNumber);
    var count := TotalCount(Blocks(level, typeNumber));
    ReadText(level, typeNumber, ReadCodewords(ReadData(h, typeNumber, mask), count))
  }

  lemma WordBound(bits: nat, data: nat)
    requires data < 32 && Word(Xor(bits, G15_MASK), data, G15, 10)
    ensures bits < Pow2(15)
  {
    assert Pow2(5) == 32 && Pow2(15) == 0x8000;
    ShrSmall(Xor(bits, G15_MASK), 10, 5);
    XorTwice(bits, G15_MASK);
    XorBound(Xor(bits, G15_MASK), G15_MASK, 15);
  }

  /** The modules beside the first position pattern hold the word of a level and a mask. */
  ghost predicate ShowsInfo(h: Grid, n: nat, level: Level, mask: Mask, bits: nat)
    requires Square(h, n) && n >= 21
  {
    && Word(Xor(bits, G15_MASK), 8 * LevelNumber(level) + mask, G15, 10)
    && forall k :: 0 <= k < 15 ==> h[InfoRow(n, k)][8] == Some(Shr(bits, k) % 2 == 1)
  }

  lemma InfoBitsAre(h: Grid, n: nat, level: Level, mask: Mask, bits: nat)
    requires Complete(h, n) && n >= 21 && ShowsInfo(h, n, level, mask, bits)
    ensures InfoBits(h, n) == ToBits(bits, 15)
  {
    hide ToBits, Word, Xor;
    forall k | 0 <= k < 15 ensures InfoBits(h, n)[k] == ToBits(bits, 15)[k] {
      ToBitsAt(bits, 15, k);
    }
  }

  lemma NumberBack(level: Level, mask: Mask)
    ensures var data := 8 * LevelNumber(level) + mask; data < 32 && LevelOf(data / 8) == level && data % 8 == mask
  {
  }

  lemma InfoReads(h: Grid, n: nat, level: Level, mask: Mask, bits: nat)
    requires Complete(h, n) && n >= 21 && ShowsInfo(h, n, level, mask, bits)
    ensures ReadLevel(h, n) == level && ReadMask(h, n) == mask
  {
    hide ToBits, FromBits, Xor, InfoBits, Pow2, LevelOf, LevelNumber, Complete;
    InfoBitsAre(h, n, level, mask, bits);
    NumberBack(level, mask);
    WordBound(bits, 8 * LevelNumber(level) + mask);
    FromToBits(bits, 15);
    hide Shr;
  }

  /** Just the function modules are filled. */
  ghost predicate Ready(g: Grid, n: nat, typeNumber: nat) {
    && 1 <= typeNumber <= 40 && n == typeNumber * 4 + 17 && Square(g, n)
    && (forall x :: Inside(n, x) ==> (At(g, n, x).Some? <==> FunctionModule(typeNumber, x.0, x.1)))
    && forall x :: x in Walk(n) ==> Inside(n, x)
  }

  /** What mapData leaves. */
  ghost function Filled(g: Grid, n: nat, typeNumber: nat, data: seq<nat>, mask: Mask): Grid
    requires Ready(g, n, typeNumber)
  {
    Placed(g, n, Free(g, n, Walk(n)), data, mask)
  }

  lemma ColumnIsFilled(g: Grid, n: nat, typeNumber: nat, r: int)
    requires Ready(g, n, typeNumber) && 0 <= r < n
    ensures At(g, n, (r, 6)).Some?
  {
    hide FunctionModule, At, Walk;
    ColumnSix(typeNumber, (r, 6));
    assert Inside(n, (r, 6));
  }

  lemma CompleteIs(h: Grid, n: nat)
    requires Square(h, n) && forall x :: Inside(n, x) ==> At(h, n, x).Some?
    ensures Complete(h, n)
  {
    forall i, j | 0 <= i < n && 0 <= j < n ensures h[i][j].Some? {
      assert At(h, n, (i, j)).Some?;
    }
  }

  lemma ReadyIsInside(g: Grid, n: nat, typeNumber: nat)
    requires Ready(g, n, typeNumber)
    ensures Square(g, n) && n >= 21 && n % 2 == 1 && forall x :: x in Walk(n) ==> Inside(n, x)
  {
    hide FunctionModule, At, Walk, Square;
  }

  /** Every module is decided, and what was filled before is not touched. */
  lemma FilledIsComplete(g: Grid, n: nat, typeNumber: nat, data: seq<nat>, mask: Mask)
    requires Ready(g, n, typeNumber)
    ensures var h := Filled(g, n, typeNumber, data, mask);
      Square(h, n) && Complete(h, n)
    ensures Square(g, n)
    ensures var h := Filled(g, n, typeNumber, data, mask);
      forall x :: Inside(n, x) && At(g, n, x).Some? ==> At(h, n, x) == At(g, n, x)
  {
    ReadyIsInside(g, n, typeNumber);
    hide Ready, Complete, At, Walk, Free, Placed, Square, Inside;
    var h: Grid := Filled(g, n, typeNumber, data, mask);
    forall r | 0 <= r < n ensures At(g, n, (r, 6)).Some? {
      ColumnIsFilled(g, n, typeNumber, r);
    }
    NoModuleStaysNull(g, n, data, mask);
    CompleteIs(h, n);
  }

  lemma InfoStays(g: Grid, h: Grid, n: nat, level: Level, mask: Mask, bits: nat)
    requires Square(g, n) && Square(h, n) && n >= 21 && ShowsInfo(g, n, level, mask, bits)
    requires forall x :: Inside(n, x) && At(g, n, x).Some? ==> At(h, n, x) == At(g, n, x)
    ensures ShowsInfo(h, n, level, mask, bits)
  {
    hide Word, Xor, Shr;
    forall k | 0 <= k < 15 ensures h[InfoRow(n, k)][8] == Some(Shr(bits, k) % 2 == 1) {
      assert At(h, n, (InfoRow(n, k), 8)) == At(g, n, (InfoRow(n, k), 8));
    }
  }

  lemma FreeIsData(g: Grid, n: nat, typeNumber: nat)
    requires Ready(g, n, typeNumber)
    ensures Free(g, n, Walk(n)) == DataCells(typeNumber)
  {
    hide FunctionModule, Walk, Free, Chosen, At;
    FreeIsChosen(g, n, typeNumber, Walk(n));
  }

  lemma BitsRead(data: Poly, g: Grid, n: nat, mask: Mask)
    requires Square(g, n) && n % 2 == 1 && n >= 9 && forall x :: x in Walk(n) ==> Inside(n, x)
    requires 8 * |data| <= |Free(g, n, Walk(n))|
    ensures var free := Free(g, n, Walk(n)); var h := Placed(g, n, free, Numbers(data), mask);
      && (forall x :: x in free ==> At(h, n, x).Some?)
      && ReadCodewords(ReadBits(h, n, free, mask), |data|) == data
  {
    WalkReadsBack(g, n, Numbers(data), mask);
    hide *;
    CodewordsRead(data, ReadBits(Placed(g, n, Free(g, n, Walk(n)), Numbers(data), mask), n, Free(g, n, Walk(n)), mask));
  }

  lemma DataReads(g: Grid, n: nat, typeNumber: nat, data: Poly, mask: Mask)
    requires Ready(g, n, typeNumber) && Complete(Filled(g, n, typeNumber, Numbers(data), mask), n)
    requires 8 * |data| <= |DataCells(typeNumber)|
    ensures forall x :: x in DataCells(typeNumber) ==> Inside(typeNumber * 4 + 17, x)
    ensures var bits := ReadData(Filled(g, n, typeNumber, Numbers(data), mask), typeNumber, mask);
      |bits| == |DataCells(typeNumber)| && ReadCodewords(bits, |data|) == data
  {
    hide Placed, Free, Walk, FunctionModule, DataCells, Numbers, Complete, ReadCodewords, ReadBits, At, DataModules;
    FreeIsData(g, n, typeNumber);
    DataCellsCount(typeNumber);
    BitsRead(data, g, n, mask);
  }

  lemma ReadsWith(level: Level, typeNumber: nat, segments: seq<Bytes>, data: Poly, h: Grid, mask: Mask)
    requires 1 <= typeNumber <= 40 && Complete(h, typeNumber * 4 + 17)
    requires ReadLevel(h, typeNumber * 4 + 17) == level && ReadMask(h, typeNumber * 4 + 17) == mask
    requires |data| == TotalCount(Blocks(level, typeNumber)) && 8 * |data| <= |DataCells(typeNumber)|
    requires forall x :: x in DataCells(typeNumber) ==> Inside(typeNumber * 4 + 17, x)
    requires ReadCodewords(ReadData(h, typeNumber, mask), |data|) == data
    requires ReadText(level, typeNumber, data) == Some(segments)
    ensures ReadSymbol(h, typeNumber) == Some(segments)
  {
    hide ReadText, ReadCodewords, ReadData, DataCells, ReadLevel, ReadMask, TotalCount, Blocks, Complete;
  }

  /** From the empty modules to the text: if just the function modules are filled, placing the codewords
      decides every module, and once the format information stands a reader gets the segments. */
  lemma SymbolReads(level: Level, typeNumber: nat, segments: seq<Bytes>, data: Poly, g: Grid, n: nat, mask: Mask, bits: nat)
    requires Encodes(level, typeNumber, segments, data) && Ready(g, n, typeNumber)
    ensures var h := Filled(g, n, typeNumber, Numbers(data), mask);
      && Complete(h, n)
      && (ShowsInfo(g, n, level, mask, bits) ==>
            ReadLevel(h, n) == level && ReadMask(h, n) == mask && ReadSymbol(h, typeNumber) == Some(segments))
  {
    hide Encodes, Filled, ShowsInfo, DataCells, ReadSymbol, ReadLevel, ReadMask, Numbers, ReadText, ReadCodewords, ReadData, At,
      Complete, TotalCount, Blocks, FunctionModule, Walk;
    var h := Filled(g, n, typeNumber, Numbers(data), mask);
    FilledIsComplete(g, n, typeNumber, Numbers(data), mask);
    TextRead(level, typeNumber, segments, data);
    Capacity(level, typeNumber);
    DataReads(g, n, typeNumber, data, mask);
    if ShowsInfo(g, n, level, mask, bits) {
      InfoStays(g, h, n, level, mask, bits);
      InfoReads(h, n, level, mask, bits);
      ReadsWith(level, typeNumber, segments, data, h, mask);
    }
  }

  // ---------- the whole symbol, module by module ----------

  /** Every function module with its colour; the words are those of the level, the mask and the version. */
  ghost predicate Patterned(h: Grid, typeNumber: nat, level: Level, mask: Mask, test: bool)
    requires 1 <= typeNumber <= 40 && Square(h, typeNumber * 4 + 17)
  {
    exists bits: nat, number: nat ::
      && PatternsShown(h, typeNumber, bits, number, test)
      && Word(Xor(bits, G15_MASK), 8 * LevelNumber(level) + mask, G15, 10)
      && (typeNumber >= 7 ==> Word(number, typeNumber, G18, 12))
  }

  /** Every other module with its bit under the mask. */
  ghost predicate DataShown(h: Grid, typeNumber: nat, data: seq<nat>, mask: Mask)
    requires 1 <= typeNumber <= 40 && Square(h, typeNumber * 4 + 17)
  {
    DataCellsCount(typeNumber);
    var cells := DataCells(typeNumber);
    forall i :: 0 <= i < |cells| ==> At(h, typeNumber * 4 + 17, cells[i]) == Some(Dark(data, mask, i, cells[i]))
  }

  /** A finished symbol, trial or not, for a data list. */
  ghost predicate Drawn(h: Grid, typeNumber: nat, level: Level, mask: Mask, segments: seq<Bytes>, test: bool) {
    && 1 <= typeNumber <= 40 && Complete(h, typeNumber * 4 + 17)
    && Patterned(h, typeNumber, level, mask, test)
    && exists data :: Encodes(level, typeNumber, segments, data) && DataShown(h, typeNumber, Numbers(data), mask)
  }

  lemma BaseStays(g: Grid, h: Grid, n: nat, pos: seq<int>)
    requires Square(g, n) && Square(h, n)
    requires forall x :: Inside(n, x) && At(g, n, x).Some? ==> At(h, n, x) == At(g, n, x)
    requires BaseShown(g, n, pos)
    ensures BaseShown(h, n, pos)
  {
    hide ProbeDark, AdjustDark, Near, ProbeModule, AdjustModule;
    forall i, j | 0 <= i < n && 0 <= j < n && g[i][j].Some? ensures h[i][j] == g[i][j] {
      assert At(h, n, (i, j)) == At(g, n, (i, j));
    }
  }

  lemma WordsStay(g: Grid, h: Grid, n: nat, bits: nat, number: nat, test: bool)
    requires Square(g, n) && Square(h, n) && n >= 21
    requires forall x :: Inside(n, x) && At(g, n, x).Some? ==> At(h, n, x) == At(g, n, x)
    ensures InfoShown(g, n, bits, test) ==> InfoShown(h, n, bits, test)
    ensures NumberShown(g, n, number, test) ==> NumberShown(h, n, number, test)
  {
    hide WordDark;
    forall i, j | 0 <= i < n && 0 <= j < n && g[i][j].Some? ensures h[i][j] == g[i][j] {
      assert At(h, n, (i, j)) == At(g, n, (i, j));
    }
  }

  /** Placing the codewords changes no function module. */
  lemma PatternsStay(g: Grid, h: Grid, n: nat, typeNumber: nat, level: Level, mask: Mask, test: bool)
    requires 1 <= typeNumber <= 40 && n == typeNumber * 4 + 17 && Square(g, n) && Square(h, n)
    requires forall x :: Inside(n, x) && At(g, n, x).Some? ==> At(h, n, x) == At(g, n, x)
    requires Patterned(g, typeNumber, level, mask, test)
    ensures Patterned(h, typeNumber, level, mask, test)
  {
    hide Word, Xor, BaseShown, InfoShown, NumberShown, At, Square, Inside;
    var pos := Positions(typeNumber);
    var bits: nat, number: nat :|
      && PatternsShown(g, typeNumber, bits, number, test)
      && Word(Xor(bits, G15_MASK), 8 * LevelNumber(level) + mask, G15, 10)
      && (typeNumber >= 7 ==> Word(number, typeNumber, G18, 12));
    hide Positions, LevelNumber;
    BaseStays(g, h, n, pos);
    WordsStay(g, h, n, bits, number, test);
    assert PatternsShown(h, typeNumber, bits, number, test);
  }

  lemma DataIsShown(g: Grid, n: nat, typeNumber: nat, data: seq<nat>, mask: Mask)
    requires Ready(g, n, typeNumber)
    ensures DataShown(Filled(g, n, typeNumber, data, mask), typeNumber, data, mask)
  {
    FreeIsData(g, n, typeNumber);
    DataCellsCount(typeNumber);
    hide DataCells, FunctionModule, Walk, Free, Placed, At, Dark, Distinct, DataModules;
    PlacedCells(g, n, DataCells(typeNumber), data, mask);
  }

  /** What mapData makes of a grid that is set up, module by module. */
  lemma SymbolDrawn(level: Level, typeNumber: nat, segments: seq<Bytes>, data: Poly, g: Grid, n: nat, mask: Mask, test: bool)
    requires Encodes(level, typeNumber, segments, data) && Ready(g, n, typeNumber)
    requires Square(g, n) && Patterned(g, typeNumber, level, mask, test)
    ensures Drawn(Filled(g, n, typeNumber, Numbers(data), mask), typeNumber, level, mask, segments, test)
  {
    hide Encodes, Filled, Patterned, DataShown, Complete, At, Square, FunctionModule, Walk, Numbers;
    FilledIsComplete(g, n, typeNumber, Numbers(data), mask);
    PatternsStay(g, Filled(g, n, typeNumber, Numbers(data), mask), n, typeNumber, level, mask, test);
    DataIsShown(g, n, typeNumber, Numbers(data), mask);
  }
}
