/** The format and version words of src/web/qrcode.js against the tables of ISO/IEC 18004:2015 (tables C.1
    and D.1), place by place. */
module QrWords {
  import opened BitStrings
  import opened RsBlocks
  import opened Placement
  import opened QrBch
  import opened QrPatterns

  /** The format words, first bit first (table C.1 of the standard). */
  function FormatPicture(level: Level, mask: Mask): (w: string)
    ensures |w| == 15
  {
    match level
    case L => [
      "111011111000100",
      "111001011110011",
      "111110110101010",
      "111100010011101",
      "110011000101111",
      "110001100011000",
      "110110001000001",
      "110100101110110"][mask]
    case M => [
      "101010000010010",
      "101000100100101",
      "101111001111100",
      "101101101001011",
      "100010111111001",
      "100000011001110",
      "100111110010111",
      "100101010100000"][mask]
    case Q => [
      "011010101011111",
      "011000001101000",
      "011111100110001",
      "011101000000110",
      "010010010110100",
      "010000110000011",
      "010111011011010",
      "010101111101101"][mask]
    case H => [
      "001011010001001",
      "001001110111110",
      "001110011100111",
      "001100111010000",
      "000011101100010",
      "000001001010101",
      "000110100001100",
      "000100000111011"][mask]
  }

  lemma {:induction false} ShrAgain(n: nat, i: nat, j: nat)
    ensures Shr(Shr(n, i), j) == Shr(n, i + j)
  {
    if i == 0 {
    } else {
      ShrAgain(n / 2, i - 1, j);
    }
  }

  lemma CoefAbove(w: nat, k: nat, i: nat)
    ensures Coef(Shr(w, k), i) == Coef(w, k + i)
  {
    ShrAgain(w, k, i);
  }

  lemma FiveDigits(q: nat) returns (a: bool, b: bool, c: bool, d: bool, e: bool)
    requires q < 32
    ensures q == Number5(a, b, c, d, e)
  {
    if q == 0 {
      a, b, c, d, e := false, false, false, false, false;
    } else {
      a, b, c, d, e := Digits5(q);
    }
  }

  lemma SmallFactor(q: nat, data: nat)
    requires data < 32 && Shr(Times(q, G15), 10) == data
    ensures q < 32
  {
    DigitsOfGenerators();
    PowersOfTwo();
    hide Times, Digits, Pow2;
    if q > 0 {
      TimesDigits(q, G15);
      ShrSmall(Times(q, G15), 10, 5);
      DigitsBound(Times(q, G15), 15);
      DigitsBound(q, 5);
    }
  }

  /** A format word is a sum of shifted generators, and its five first places are the data. */
  lemma WordPlaces(w: nat, data: nat) returns (a: bool, b: bool, c: bool, d: bool, e: bool)
    requires data < 32 && Word(w, data, G15, 10)
    ensures forall i: nat :: Coef(w, i) == Place15(a, b, c, d, e, i)
    ensures forall i: nat :: Coef(data, i) == Place15(a, b, c, d, e, 10 + i)
  {
    var q: nat :| w == Times(q, G15);
    SmallFactor(q, data);
    a, b, c, d, e := FiveDigits(q);
    hide Times, Coef, Place15, Number5, Shr;
    forall i: nat ensures Coef(w, i) == Place15(a, b, c, d, e, i) {
      PlaceIs15(a, b, c, d, e, i);
    }
    forall i: nat ensures Coef(data, i) == Place15(a, b, c, d, e, 10 + i) {
      CoefAbove(w, 10, i);
    }
  }

  lemma CoefOfMask(i: nat)
    ensures Coef(G15_MASK, i) <==> i in {1, 4, 10, 12, 14}
  {
    hide Coef;
    CoefStep(21522, i);
    if i >= 1 {
      CoefStep(10761, i - 1);
    }
    if i >= 2 {
      CoefStep(5380, i - 2);
    }
    if i >= 3 {
      CoefStep(2690, i - 3);
    }
    if i >= 4 {
      CoefStep(1345, i - 4);
    }
    if i >= 5 {
      CoefStep(672, i - 5);
    }
    if i >= 6 {
      CoefStep(336, i - 6);
    }
    if i >= 7 {
      CoefStep(168, i - 7);
    }
    if i >= 8 {
      CoefStep(84, i - 8);
    }
    if i >= 9 {
      CoefStep(42, i - 9);
    }
    if i >= 10 {
      CoefStep(21, i - 10);
    }
    if i >= 11 {
      CoefStep(10, i - 11);
    }
    if i >= 12 {
      CoefStep(5, i - 12);
    }
    if i >= 13 {
      CoefStep(2, i - 13);
    }
    if i >= 14 {
      CoefStep(1, i - 14);
    }
    if i >= 15 {
      CoefZero(i - 15);
    }
  }

  /** Bit i of the five data bits: the mask below the number of the level. */
  predicate DataPlace(k: nat, mask: Mask, i: nat) {
    match i
    case 0 => mask % 2 == 1
    case 1 => mask / 2 % 2 == 1
    case 2 => mask >= 4
    case 3 => k % 2 == 1
    case 4 => k >= 2
    case _ => false
  }

  lemma CoefOfData(k: nat, mask: Mask, i: nat)
    requires k < 4 && i < 5
    ensures Coef(8 * k + mask, i) <==> DataPlace(k, mask, i)
  {
    hide Coef;
    var d := 8 * k + mask;
    assert d / 2 == 4 * k + mask / 2 && d / 2 / 2 == 2 * k + mask / 4 && d / 2 / 2 / 2 == k;
    CoefStep(d, i);
    if i >= 1 {
      CoefStep(d / 2, i - 1);
    }
    if i >= 2 {
      CoefStep(d / 2 / 2, i - 2);
    }
    if i >= 3 {
      CoefStep(k, i - 3);
    }
    if i >= 4 {
      CoefStep(k / 2, i - 4);
    }
  }

  predicate Solves(k: nat, mask: Mask, a: bool, b: bool, c: bool, d: bool, e: bool) {
    && DataPlace(k, mask, 0) == Place15(a, b, c, d, e, 10) && DataPlace(k, mask, 1) == Place15(a, b, c, d, e, 11)
    && DataPlace(k, mask, 2) == Place15(a, b, c, d, e, 12) && DataPlace(k, mask, 3) == Place15(a, b, c, d, e, 13)
    && DataPlace(k, mask, 4) == Place15(a, b, c, d, e, 14)
  }

  lemma FormatL(mask: Mask, a: bool, b: bool, c: bool, d: bool, e: bool, i: nat)
    requires Solves(1, mask, a, b, c, d, e) && i < 15
    ensures (Place15(a, b, c, d, e, i) != (i in {1, 4, 10, 12, 14})) <==> FormatPicture(L, mask)[14 - i] == '1'
  {
  }

  lemma FormatM(mask: Mask, a: bool, b: bool, c: bool, d: bool, e: bool, i: nat)
    requires Solves(0, mask, a, b, c, d, e) && i < 15
    ensures (Place15(a, b, c, d, e, i) != (i in {1, 4, 10, 12, 14})) <==> FormatPicture(M, mask)[14 - i] == '1'
  {
  }

  lemma FormatQ(mask: Mask, a: bool, b: bool, c: bool, d: bool, e: bool, i: nat)
    requires Solves(3, mask, a, b, c, d, e) && i < 15
    ensures (Place15(a, b, c, d, e, i) != (i in {1, 4, 10, 12, 14})) <==> FormatPicture(Q, mask)[14 - i] == '1'
  {
  }

  lemma DarkIsCoef(bits: nat, i: nat)
    ensures WordDark(false, bits, i) <==> Coef(bits, i)
  {
  }

  lemma FormatH(mask: Mask, a: bool, b: bool, c: bool, d: bool, e: bool, i: nat)
    requires Solves(2, mask, a, b, c, d, e) && i < 15
    ensures (Place15(a, b, c, d, e, i) != (i in {1, 4, 10, 12, 14})) <==> FormatPicture(H, mask)[14 - i] == '1'
  {
  }
  /** The format information of every level and mask is the word of the table. */
  lemma FormatWord(level: Level, mask: Mask, bits: nat, i: nat)
    requires Word(Xor(bits, G15_MASK), 8 * LevelNumber(level) + mask, G15, 10) && i < 15
    ensures WordDark(false, bits, i) <==> FormatPicture(level, mask)[14 - i] == '1'
  {
    hide FormatPicture, Coef, Place15, DataPlace, Word, Xor;
    var k, w := LevelNumber(level), Xor(bits, G15_MASK);
    var a, b, c, d, e := WordPlaces(w, 8 * k + mask);
    CoefOfData(k, mask, 0);
    CoefOfData(k, mask, 1);
    CoefOfData(k, mask, 2);
    CoefOfData(k, mask, 3);
    CoefOfData(k, mask, 4);
    CoefXor(bits, G15_MASK, i);
    CoefOfMask(i);
    DarkIsCoef(bits, i);
    match level
    case L => FormatL(mask, a, b, c, d, e, i);
    case M => FormatM(mask, a, b, c, d, e, i);
    case Q => FormatQ(mask, a, b, c, d, e, i);
    case H => FormatH(mask, a, b, c, d, e, i);
  }

  // ---------- the version words ----------

  /** Some of the version words, first bit first (table D.1 of the standard). */
  function VersionPicture(t: nat): (w: string)
    requires t in {7, 8, 21, 32, 40}
    ensures |w| == 18
  {
    match t
    case 7 => "000111110010010100"
    case 8 => "001000010110111100"
    case 21 => "010101011010000011"
    case 32 => "100000100111010101"
    case _ => "101000110001101001"
  }

  lemma SixDigits(q: nat) returns (a: bool, b: bool, c: bool, d: bool, e: bool, f: bool)
    requires q < 64
    ensures q == Number6(a, b, c, d, e, f)
  {
    if q == 0 {
      a, b, c, d, e, f := false, false, false, false, false, false;
    } else {
      a, b, c, d, e, f := Digits6(q);
    }
  }

  lemma SmallVersionFactor(q: nat, t: nat)
    requires t < 64 && Shr(Times(q, G18), 12) == t
    ensures q < 64
  {
    DigitsOfGenerators();
    PowersOfTwo();
    hide Times, Digits, Pow2;
    if q > 0 {
      TimesDigits(q, G18);
      ShrSmall(Times(q, G18), 12, 6);
      DigitsBound(Times(q, G18), 18);
      DigitsBound(q, 6);
    }
  }

  lemma VersionPlaces(w: nat, t: nat) returns (a: bool, b: bool, c: bool, d: bool, e: bool, f: bool)
    requires t < 64 && Word(w, t, G18, 12)
    ensures forall i: nat :: Coef(w, i) == Place18(a, b, c, d, e, f, i)
    ensures forall i: nat :: Coef(t, i) == Place18(a, b, c, d, e, f, 12 + i)
  {
    var q: nat :| w == Times(q, G18);
    SmallVersionFactor(q, t);
    a, b, c, d, e, f := SixDigits(q);
    hide Times, Coef, Place18, Number6, Shr;
    forall i: nat ensures Coef(w, i) == Place18(a, b, c, d, e, f, i) {
      PlaceIs18(a, b, c, d, e, f, i);
    }
    forall i: nat ensures Coef(t, i) == Place18(a, b, c, d, e, f, 12 + i) {
      CoefAbove(w, 12, i);
    }
  }

  /** Bit i of a version. */
  predicate VersionPlace(t: nat, i: nat) {
    match i
    case 0 => t % 2 == 1
    case 1 => t / 2 % 2 == 1
    case 2 => t / 4 % 2 == 1
    case 3 => t / 8 % 2 == 1
    case 4 => t / 16 % 2 == 1
    case 5 => t / 32 % 2 == 1
    case _ => false
  }

  lemma CoefOfVersion(t: nat, i: nat)
    requires t < 64 && i < 6
    ensures Coef(t, i) <==> VersionPlace(t, i)
  {
    hide Coef;
    assert t / 2 / 2 == t / 4 && t / 4 / 2 == t / 8 && t / 8 / 2 == t / 16 && t / 16 / 2 == t / 32;
    CoefStep(t, i);
    if i >= 1 {
      CoefStep(t / 2, i - 1);
    }
    if i >= 2 {
      CoefStep(t / 4, i - 2);
    }
    if i >= 3 {
      CoefStep(t / 8, i - 3);
    }
    if i >= 4 {
      CoefStep(t / 16, i - 4);
    }
    if i >= 5 {
      CoefStep(t / 32, i - 5);
    }
  }

  predicate SolvesVersion(t: nat, a: bool, b: bool, c: bool, d: bool, e: bool, f: bool) {
    && VersionPlace(t, 0) == Place18(a, b, c, d, e, f, 12) && VersionPlace(t, 1) == Place18(a, b, c, d, e, f, 13)
    && VersionPlace(t, 2) == Place18(a, b, c, d, e, f, 14) && VersionPlace(t, 3) == Place18(a, b, c, d, e, f, 15)
    && VersionPlace(t, 4) == Place18(a, b, c, d, e, f, 16) && VersionPlace(t, 5) == Place18(a, b, c, d, e, f, 17)
  }

  lemma Version7(a: bool, b: bool, c: bool, d: bool, e: bool, f: bool, i: nat)
    requires SolvesVersion(7, a, b, c, d, e, f) && i < 18
    ensures Place18(a, b, c, d, e, f, i) <==> VersionPicture(7)[17 - i] == '1'
  {
  }

  lemma Version8(a: bool, b: bool, c: bool, d: bool, e: bool, f: bool, i: nat)
    requires SolvesVersion(8, a, b, c, d, e, f) && i < 18
    ensures Place18(a, b, c, d, e, f, i) <==> VersionPicture(8)[17 - i] == '1'
  {
  }

  lemma Version21(a: bool, b: bool, c: bool, d: bool, e: bool, f: bool, i: nat)
    requires SolvesVersion(21, a, b, c, d, e, f) && i < 18
    ensures Place18(a, b, c, d, e, f, i) <==> VersionPicture(21)[17 - i] == '1'
  {
  }

  lemma Version32(a: bool, b: bool, c: bool, d: bool, e: bool, f: bool, i: nat)
    requires SolvesVersion(32, a, b, c, d, e, f) && i < 18
    ensures Place18(a, b, c, d, e, f, i) <==> VersionPicture(32)[17 - i] == '1'
  {
  }

  lemma Version40(a: bool, b: bool, c: bool, d: bool, e: bool, f: bool, i: nat)
    requires SolvesVersion(40, a, b, c, d, e, f) && i < 18
    ensures Place18(a, b, c, d, e, f, i) <==> VersionPicture(40)[17 - i] == '1'
  {
  }

  /** The version information of these versions is the word of the table. */
  lemma VersionWord(t: nat, bits: nat, i: nat)
    requires t in {7, 8, 21, 32, 40} && Word(bits, t, G18, 12) && i < 18
    ensures WordDark(false, bits, i) <==> VersionPicture(t)[17 - i] == '1'
  {
    hide VersionPicture, Coef, Place18, VersionPlace, Word;
    var a, b, c, d, e, f := VersionPlaces(bits, t);
    CoefOfVersion(t, 0);
    CoefOfVersion(t, 1);
    CoefOfVersion(t, 2);
    CoefOfVersion(t, 3);
    CoefOfVersion(t, 4);
    CoefOfVersion(t, 5);
    DarkIsCoef(bits, i);
    match t
    case 7 => Version7(a, b, c, d, e, f, i);
    case 8 => Version8(a, b, c, d, e, f, i);
    case 21 => Version21(a, b, c, d, e, f, i);
    case 32 => Version32(a, b, c, d, e, f, i);
    case 40 => Version40(a, b, c, d, e, f, i);
  }
}
