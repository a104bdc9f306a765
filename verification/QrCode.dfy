/** The qrcode object of src/web/qrcode.js: addData, make and makeImpl. */
module QrCode {
  import opened Basics
  import opened BitStrings
  import opened GfTables
  import opened Polynomial
  import opened RsBlocks
  import opened QrData
  import opened QrBytes
  import opened Placement
  import opened QrBch
  import opened QrPatterns
  import opened QrCapacity
  import opened QrSymbol

  method EmptyModules(moduleCount: nat) returns (modules: array2<Option<bool>>)
    ensures fresh(modules) && modules.Length0 == modules.Length1 == moduleCount
    ensures forall i, j :: 0 <= i < moduleCount && 0 <= j < moduleCount ==> modules[i, j].None?
  {
    modules := new Option<bool>[moduleCount, moduleCount];
    for row := 0 to moduleCount
      invariant forall i, j :: 0 <= i < row && 0 <= j < moduleCount ==> modules[i, j].None?
    {
      for col := 0 to moduleCount
        invariant forall i, j :: 0 <= i < row && 0 <= j < moduleCount ==> modules[i, j].None?
        invariant forall j :: 0 <= j < col ==> modules[row, j].None?
      {
        modules[row, col] := None;
      }
    }
  }

  /** The set-up methods leave just the function modules filled, each with its colour, and a real symbol shows its
      format. */
  method SetUp(modules: array2<Option<bool>>, typeNumber: nat, level: Level, mask: Mask, test: bool) returns (ghost bits: nat)
    requires 1 <= typeNumber <= 40 && modules.Length0 == modules.Length1 == typeNumber * 4 + 17
    requires forall i, j :: 0 <= i < modules.Length0 && 0 <= j < modules.Length1 ==> modules[i, j].None?
    modifies modules
    ensures Ready(Snapshot(modules), modules.Length0, typeNumber)
    ensures Patterned(Snapshot(modules), typeNumber, level, mask, test)
    ensures !test ==> ShowsInfo(Snapshot(modules), modules.Length0, level, mask, bits)
  {
    hide FunctionModule, Word, Xor, Shr, Walk, BaseShown, NumberShown;
    ghost var number;
    bits, number := SetupPatterns(modules, typeNumber, level, mask, test);
    WalkVisitsOnce(modules.Length0);
    hide Distinct;
  }

  /** The finished symbol: every module is as it should be, and a reader finds the mask and the data list. */
  ghost predicate Shows(h: Grid, typeNumber: nat, level: Level, mask: Mask, segments: seq<Bytes>) {
    var n := typeNumber * 4 + 17;
    && Drawn(h, typeNumber, level, mask, segments, false)
    && ReadLevel(h, n) == level && ReadMask(h, n) == mask && ReadSymbol(h, typeNumber) == Some(segments)
  }

  /** mapData on a grid that is set up. */
  method Fill(modules: array2<Option<bool>>, typeNumber: nat, level: Level, mask: Mask, test: bool, data: Poly,
              ghost segments: seq<Bytes>, ghost bits: nat)
    requires modules.Length0 == modules.Length1 && Ready(Snapshot(modules), modules.Length0, typeNumber)
    requires Patterned(Snapshot(modules), typeNumber, level, mask, test)
    requires !test ==> ShowsInfo(Snapshot(modules), modules.Length0, level, mask, bits)
    requires Encodes(level, typeNumber, segments, data)
    modifies modules
    ensures Drawn(Snapshot(modules), typeNumber, level, mask, segments, test)
    ensures !test ==> Shows(Snapshot(modules), typeNumber, level, mask, segments)
  {
    hide Snapshot, FunctionModule, ShowsInfo, Encodes, Numbers, Placed, Free, Walk, ReadSymbol, ReadLevel, ReadMask, Complete,
      Patterned, Drawn;
    SymbolReads(level, typeNumber, segments, data, Snapshot(modules), modules.Length0, mask, bits);
    SymbolDrawn(level, typeNumber, segments, data, Snapshot(modules), modules.Length0, mask, test);
    MapData(modules, Numbers(data), mask);
  }

  predicate Best(lost: seq<real>, mask: Mask)
    requires |lost| == 8
  {
    forall k :: 0 <= k < 8 ==> lost[mask] <= lost[k] && (k < mask ==> lost[mask] < lost[k])
  }

  /** The smallest version that holds the data list, or 40. */
  ghost predicate SmallestFit(level: Level, typeNumber: int, segments: seq<Bytes>) {
    && 1 <= typeNumber <= 40
    && (forall t: nat :: 1 <= t < typeNumber ==> !Fits(level, t, segments))
    && (typeNumber < 40 ==> Fits(level, typeNumber, segments))
  }

  lemma EncodesIs(level: Level, typeNumber: nat, segments: seq<Bytes>, data: Poly, codewords: seq<nat>)
    requires 1 <= typeNumber <= 40 && AllSound(Blocks(level, typeNumber))
    requires Carries(level, typeNumber, segments, codewords) && data == Codewords(codewords, Blocks(level, typeNumber))
    ensures Encodes(level, typeNumber, segments, data)
  {
    hide Carries, Codewords, Blocks, AllSound;
  }

  lemma EncodesFits(level: Level, typeNumber: nat, segments: seq<Bytes>, data: Poly)
    requires Encodes(level, typeNumber, segments, data)
    ensures 1 <= typeNumber <= 40 && Fits(level, typeNumber, segments)
  {
    hide Codewords, Blocks, AllSound, Fits;
  }

  class Symbol {
    const math: QRMath
    const level: Level
    var typeNumber: int
    var dataList: seq<Bytes>
    var dataCache: Option<Poly>
    var modules: array2<Option<bool>>
    var moduleCount: int

    constructor (math: QRMath, typeNumber: int, level: Level)
      requires math.Valid()
      ensures Valid() && this.typeNumber == typeNumber && this.level == level && dataList == []
    {
      this.math, this.typeNumber, this.level := math, typeNumber, level;
      dataList, dataCache, moduleCount := [], None, 0;
      modules := new Option<bool>[0, 0];
    }

    /** What is cached was made from the present data list. */
    ghost predicate Valid()
      reads this
    {
      math.Valid() && (dataCache.Some? ==> typeNumber >= 1 && Encodes(level, typeNumber, dataList, dataCache.value))
    }

    method AddData(data: Bytes)
      requires Valid()
      modifies this
      ensures Valid() && typeNumber == old(typeNumber) && dataList == old(dataList) + [data]
    {
      dataList := dataList + [data];
      dataCache := None;
    }

    /** The codewords are made once for a data list, and only if it fits. */
    method Cache() returns (ok: bool)
      requires Valid() && 1 <= typeNumber <= 40
      modifies this`dataCache
      ensures Valid() && ok == Fits(level, typeNumber, dataList) && (ok <==> dataCache.Some?)
    {
      hide Fits, Encodes, QRMath.Valid;
      if dataCache == None {
        var created, codewords := CreateData(math, level, typeNumber, dataList);
        if created.Thrown? {
          return false;
        }
        dataCache := Some(created.value);
        EncodesIs(level, typeNumber, dataList, created.value, codewords);
      }
      EncodesFits(level, typeNumber, dataList, dataCache.value);
      ok := true;
    }

    /** makeImpl returns exactly for a data list that fits; then every module is as it should be, and a symbol that
        is not a trial can be read. */
    method MakeImpl(test: bool, mask: Mask) returns (ok: bool)
      requires Valid() && typeNumber >= 1
      modifies this
      ensures Valid() && typeNumber == old(typeNumber) && dataList == old(dataList)
      ensures ok <==> typeNumber <= 40 && Fits(level, typeNumber, dataList)
      ensures ok ==> fresh(modules) && moduleCount == modules.Length0 == modules.Length1 == typeNumber * 4 + 17
      ensures ok ==> Drawn(Snapshot(modules), typeNumber, level, mask, dataList, test)
      ensures ok && !test ==> Shows(Snapshot(modules), typeNumber, level, mask, dataList)
    {
      hide Fits, Encodes, QRMath.Valid, Ready, ShowsInfo, Shows, Snapshot, Patterned, Drawn;
      moduleCount := typeNumber * 4 + 17;
      modules := EmptyModules(moduleCount);
      if typeNumber > 40 {
        return false;
      }
      ghost var bits := SetUp(modules, typeNumber, level, mask, test);
      ok := Cache();
      if ok {
        Fill(modules, typeNumber, level, mask, test, dataCache.value, dataList, bits);
      }
    }

    /** The mask with the fewest lost points, and the first of several; lost[i] are the points that getLostPoint
        gives the trial symbol of mask i. */
    method GetBestMaskPattern(lost: seq<real>) returns (ok: bool, pattern: Mask)
      requires Valid() && typeNumber >= 1 && |lost| == 8
      modifies this
      ensures Valid() && typeNumber == old(typeNumber) && dataList == old(dataList)
      ensures ok <==> typeNumber <= 40 && Fits(level, typeNumber, dataList)
      ensures ok ==> Best(lost, pattern)
    {
      hide Fits, Encodes, QRMath.Valid, Drawn, Shows, Snapshot;
      ok := true;
      pattern := 0;
      var minLostPoint := 0.0;
      for i := 0 to 8
        invariant Valid() && typeNumber == old(typeNumber) && dataList == old(dataList)
        invariant i > 0 ==> ok && typeNumber <= 40 && Fits(level, typeNumber, dataList)
        invariant i > 0 ==> pattern < i && minLostPoint == lost[pattern]
        invariant forall k :: 0 <= k < i ==> minLostPoint <= lost[k] && (k < pattern ==> minLostPoint < lost[k])
      {
        ok := MakeImpl(true, i);
        if !ok {
          return;
        }
        var lostPoint := lost[i];
        if i == 0 || minLostPoint > lostPoint {
          minLostPoint := lostPoint;
          pattern := i;
        }
      }
    }

    /** make chooses the version if there is none yet, and the best mask. It returns exactly if the data list
        fits, and then whoever reads the modules finds that mask and the data list. */
    method Make(lost: seq<real>) returns (ok: bool)
      requires Valid() && |lost| == 8
      modifies this
      ensures Valid() && dataList == old(dataList)
      ensures if old(typeNumber) >= 1 then typeNumber == old(typeNumber) else SmallestFit(level, typeNumber, dataList)
      ensures ok <==> typeNumber <= 40 && Fits(level, typeNumber, dataList)
      ensures ok ==> moduleCount == modules.Length0 == modules.Length1 == typeNumber * 4 + 17
      ensures ok ==> exists mask ::
        Best(lost, mask) && Shows(Snapshot(modules), typeNumber, level, mask, dataList)
    {
      hide Fits, Encodes, QRMath.Valid, Drawn, Shows, Snapshot, Best;
      if typeNumber < 1 {
        typeNumber := ChooseType(level, dataList);
      }
      var pattern;
      ok, pattern := GetBestMaskPattern(lost);
      if ok {
        ok := MakeImpl(false, pattern);
      }
    }
  }
}
