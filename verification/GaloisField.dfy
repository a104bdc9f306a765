/** The field GF(256) of QR error correction, as built by the exponent and logarithm
    tables of src/web/qrcode.js: alpha is a root of x^8 + x^4 + x^3 + x^2 + 1. */
module GaloisField {

  /** Addition in the field: bitwise exclusive or. */
  function Add(x: bv8, y: bv8): bv8 {
    x ^ y
  }

  lemma AddLaws(x: bv8, y: bv8, z: bv8)
    ensures Add(x, y) == Add(y, x)
    ensures Add(Add(x, y), z) == Add(x, Add(y, z))
    ensures Add(x, 0) == x && Add(0, x) == x
    ensures Add(x, y) == 0 <==> x == y
  {
  }

  lemma AddRegroup(w: bv8, x: bv8, y: bv8, z: bv8)
    ensures Add(Add(w, x), Add(y, z)) == Add(Add(w, y), Add(x, z))
  {
    hide Add;
    AddLaws(w, x, Add(y, z));
    AddLaws(x, y, z);
    AddLaws(y, x, z);
    AddLaws(w, y, Add(x, z));
  }

  // ---------- multiplication by powers of alpha ----------

  /** One multiplication by alpha. */
  function Xtime(x: bv8): bv8 {
    (x << 1) ^ (if x & 0x80 != 0 then 0x1d else 0)
  }

  /** alpha^n * x. */
  function Scale(n: nat, x: bv8): bv8 {
    if n == 0 then x else Xtime(Scale(n - 1, x))
  }

  /** alpha^n. */
  function AlphaPow(n: nat): bv8 {
    Scale(n, 1)
  }

  lemma XtimeLinear(x: bv8, y: bv8)
    ensures Xtime(Add(x, y)) == Add(Xtime(x), Xtime(y))
  {
    assert (x ^ y) & 0x80 == (x & 0x80) ^ (y & 0x80);
    assert (x ^ y) << 1 == (x << 1) ^ (y << 1);
    if x & 0x80 == 0 {
      if y & 0x80 == 0 {} else {}
    } else {
      if y & 0x80 == 0 {} else {}
    }
  }

  lemma {:induction false} ScaleLinear(n: nat, x: bv8, y: bv8)
    ensures Scale(n, Add(x, y)) == Add(Scale(n, x), Scale(n, y))
  {
    hide Add, Xtime;
    if n == 0 {
    } else {
      ScaleLinear(n - 1, x, y);
      XtimeLinear(Scale(n - 1, x), Scale(n - 1, y));
    }
  }

  lemma {:induction false} ScaleZero(n: nat)
    ensures Scale(n, 0) == 0
  {
    if n == 0 {
    } else {
      ScaleZero(n - 1);
    }
  }

  lemma {:induction false} ScaleAdd(m: nat, n: nat, x: bv8)
    ensures Scale(m + n, x) == Scale(m, Scale(n, x))
  {
    if m == 0 {
    } else {
      ScaleAdd(m - 1, n, x);
    }
  }

  lemma {:induction false} ScaleInjective(n: nat, x: bv8, y: bv8)
    requires Scale(n, x) == Scale(n, y)
    ensures x == y
  {
    if n == 0 {
    } else {
      ScaleInjective(n - 1, x, y);
    }
  }

  lemma ScaleNonzero(n: nat, x: bv8)
    ensures Scale(n, x) == 0 <==> x == 0
  {
    ScaleZero(n);
    if Scale(n, x) == 0 {
      ScaleInjective(n, x, 0);
    }
  }

  // ---------- alpha has order 255 ----------

  function Xtime4(x: bv8): bv8 {
    Xtime(Xtime(Xtime(Xtime(x))))
  }

  function Xtime17(x: bv8): bv8 {
    Xtime(Xtime4(Xtime4(Xtime4(Xtime4(x)))))
  }

  lemma Scale4(n: nat, x: bv8)
    ensures Scale(n + 4, x) == Xtime4(Scale(n, x))
  {
    assert Scale(n + 2, x) == Xtime(Xtime(Scale(n, x)));
  }

  lemma Scale17(n: nat, x: bv8)
    ensures Scale(n + 17, x) == Xtime17(Scale(n, x))
  {
    Scale4(n, x);
    Scale4(n + 4, x);
    Scale4(n + 8, x);
    Scale4(n + 12, x);
  }

  lemma TableSteps()
    ensures Xtime(1) == 2 && Xtime(2) == 4 && Xtime(4) == 8 && Xtime(8) == 16 && Xtime(16) == 32 && Xtime(32) == 64
      && Xtime(64) == 128 && Xtime(128) == 29 && Xtime(29) == 58 && Xtime(58) == 116 && Xtime(116) == 232
      && Xtime(232) == 205 && Xtime(205) == 135 && Xtime(135) == 19 && Xtime(19) == 38 && Xtime(38) == 76
    ensures Xtime17(1) == 152 && Xtime17(152) == 78 && Xtime17(78) == 10
      && Xtime17(10) == 153 && Xtime17(153) == 214 && Xtime17(214) == 68
      && Xtime17(68) == 147 && Xtime17(147) == 79 && Xtime17(79) == 146 && Xtime17(146) == 215 && Xtime17(215) == 220
      && Xtime17(220) == 221 && Xtime17(221) == 69 && Xtime17(69) == 11 && Xtime17(11) == 1
  {
  }

  /** alpha^17 generates a group of 15 elements, and of alpha^0 .. alpha^16 only alpha^0 lies in it. */
  lemma BabySteps(r: nat)
    requires 0 < r < 17
    ensures AlphaPow(r) in {2, 4, 8, 16, 32, 64, 128, 29, 58, 116, 232, 205, 135, 19, 38, 76}
  {
    TableSteps();
    hide Xtime, Xtime17;
    assert AlphaPow(0) == 1;
    assert AlphaPow(1) == 2;
    assert AlphaPow(2) == 4;
    assert AlphaPow(3) == 8;
    assert AlphaPow(4) == 16;
    assert AlphaPow(5) == 32;
    assert AlphaPow(6) == 64;
    assert AlphaPow(7) == 128;
    assert AlphaPow(8) == 29;
    assert AlphaPow(9) == 58;
    assert AlphaPow(10) == 116;
    assert AlphaPow(11) == 232;
    assert AlphaPow(12) == 205;
    assert AlphaPow(13) == 135;
    assert AlphaPow(14) == 19;
    assert AlphaPow(15) == 38;
    assert AlphaPow(16) == 76;
  }

  lemma ScaleStart()
    ensures AlphaPow(0) == 1
  {
  }

  lemma GiantSteps(q: nat)
    requires q < 15
    ensures AlphaPow(17 * (q + 1)) in {152, 78, 10, 153, 214, 68, 147, 79, 146, 215, 220, 221, 69, 11, 1}
    ensures AlphaPow(17 * (q + 1)) == 1 ==> q == 14
    ensures AlphaPow(255) == 1
  {
    TableSteps();
    hide Xtime17;
    ScaleStart();
    hide Scale;
    Scale17(0, 1);
    Scale17(17, 1);
    Scale17(34, 1);
    Scale17(51, 1);
    Scale17(68, 1);
    Scale17(85, 1);
    Scale17(102, 1);
    Scale17(119, 1);
    Scale17(136, 1);
    Scale17(153, 1);
    Scale17(170, 1);
    Scale17(187, 1);
    Scale17(204, 1);
    Scale17(221, 1);
    Scale17(238, 1);
    assert AlphaPow(17) == 152;
    assert AlphaPow(34) == 78;
    assert AlphaPow(51) == 10;
    assert AlphaPow(68) == 153;
    assert AlphaPow(85) == 214;
    assert AlphaPow(102) == 68;
    assert AlphaPow(119) == 147;
    assert AlphaPow(136) == 79;
    assert AlphaPow(153) == 146;
    assert AlphaPow(170) == 215;
    assert AlphaPow(187) == 220;
    assert AlphaPow(204) == 221;
    assert AlphaPow(221) == 69;
    assert AlphaPow(238) == 11;
    assert AlphaPow(255) == 1;
    assert q in {0, 1, 2, 3, 4, 5, 6, 7, 8, 9, 10, 11, 12, 13, 14};
  }

  lemma AlphaOrder(d: nat)
    requires 0 < d < 255
    ensures AlphaPow(255) == 1
    ensures AlphaPow(d) != 1
  {
    GiantSteps(14);
    if AlphaPow(d) == 1 {
      var q, r := d / 17, d % 17;
      ScaleAdd(17 * (15 - q), d, 1);
      ScaleAdd(r, 255, 1);
      assert AlphaPow(17 * (15 - q)) == AlphaPow(r);
      GiantSteps(14 - q);
      if r > 0 {
        BabySteps(r);
      }
      assert false;
    }
  }

  lemma {:induction false} AlphaPeriod(n: nat)
    ensures AlphaPow(n) == AlphaPow(n % 255)
  {
    if n >= 255 {
      AlphaOrder(1);
      ScaleAdd(n - 255, 255, 1);
      AlphaPeriod(n - 255);
    }
  }

  lemma AlphaInjective(i: nat, j: nat)
    requires i < 255 && j < 255 && AlphaPow(i) == AlphaPow(j)
    ensures i == j
  {
    if i != j {
      var lo, hi := if i < j then i else j, if i < j then j else i;
      ScaleAdd(lo, hi - lo, 1);
      ScaleInjective(lo, AlphaPow(hi - lo), 1);
      AlphaOrder(hi - lo);
    }
  }

  // ---------- every nonzero element is a power of alpha ----------

  function Val(x: bv8): nat {
    x as nat
  }

  lemma ValBounds(x: bv8, y: bv8)
    ensures Val(x) < 256
    ensures Val(x) == Val(y) ==> x == y
    ensures x != 0 ==> Val(x) > 0
  {
  }

  function AlphaVal(n: nat): nat {
    Val(AlphaPow(n))
  }

  lemma AlphaNonzero(n: nat)
    ensures AlphaPow(n) != 0
  {
    ScaleNonzero(n, 1);
  }

  lemma AlphaValDistinct(i: nat, j: nat)
    requires i < 255 && j < 255
    ensures 0 < AlphaVal(i) < 256
    ensures AlphaVal(i) == AlphaVal(j) ==> i == j
  {
    hide Val, Scale;
    ScaleNonzero(i, 1);
    ValBounds(AlphaPow(i), AlphaPow(j));
    if AlphaVal(i) == AlphaVal(j) {
      AlphaInjective(i, j);
    }
  }

  ghost function ValuesBelow(n: nat): set<nat> {
    set i: nat | i < n :: AlphaVal(i)
  }

  lemma {:induction false} ValuesBelowSize(n: nat)
    requires n <= 255
    ensures |ValuesBelow(n)| == n
  {
    hide AlphaVal;
    if n == 0 {
    } else {
      ValuesBelowSize(n - 1);
      forall i: nat | i < n - 1 ensures AlphaVal(i) != AlphaVal(n - 1) {
        AlphaValDistinct(i, n - 1);
      }
      assert ValuesBelow(n) == ValuesBelow(n - 1) + {AlphaVal(n - 1)};
    }
  }

  ghost function Upto(n: nat): (s: set<nat>)
    ensures |s| == n
    ensures forall v :: v in s <==> 0 < v <= n
  {
    if n == 0 then {} else Upto(n - 1) + {n}
  }

  lemma {:induction false} SubsetSize(a: set<nat>, b: set<nat>)
    requires a <= b
    ensures |a| <= |b|
    ensures |a| == |b| ==> a == b
  {
    if v :| v in a {
      SubsetSize(a - {v}, b - {v});
    } else {
      assert a == {};
    }
  }

  lemma AlphaOnto(x: bv8)
    requires x != 0
    ensures exists i: nat :: i < 255 && AlphaPow(i) == x
  {
    hide Val, AlphaPow;
    forall i: nat | i < 255 ensures AlphaVal(i) in Upto(255) {
      AlphaValDistinct(i, i);
    }
    ValuesBelowSize(255);
    SubsetSize(ValuesBelow(255), Upto(255));
    ValBounds(x, x);
    assert Val(x) in ValuesBelow(255);
    var i: nat :| i < 255 && AlphaVal(i) == Val(x);
    ValBounds(AlphaPow(i), x);
  }

  /** The exponent that LOG_TABLE holds for x. */
  ghost function Log(x: bv8): (i: nat)
    requires x != 0
    ensures i < 255 && AlphaPow(i) == x
  {
    AlphaOnto(x);
    var i: nat :| i < 255 && AlphaPow(i) == x;
    i
  }

  // ---------- field multiplication through the tables ----------

  /** gexp(glog(x) + glog(y)), extended with zero. */
  ghost function Mul(x: bv8, y: bv8): bv8 {
    if x == 0 || y == 0 then 0 else AlphaPow(Log(x) + Log(y))
  }

  lemma MulIsScale(x: bv8, y: bv8)
    requires x != 0
    ensures Mul(x, y) == Scale(Log(x), y)
  {
    if y == 0 {
      ScaleZero(Log(x));
    } else {
      ScaleAdd(Log(x), Log(y), 1);
    }
  }

  lemma MulAlpha(n: nat, y: bv8)
    ensures Mul(AlphaPow(n), y) == Scale(n, y)
  {
    ScaleNonzero(n, 1);
    if y == 0 {
      ScaleZero(n);
    } else {
      MulIsScale(y, AlphaPow(n));
      ScaleAdd(Log(y), n, 1);
      ScaleAdd(n, Log(y), 1);
    }
  }

  lemma MulDistributes(x: bv8, y: bv8, z: bv8)
    ensures Mul(x, Add(y, z)) == Add(Mul(x, y), Mul(x, z))
    ensures Mul(Add(y, z), x) == Add(Mul(y, x), Mul(z, x))
  {
    hide Add;
    if x == 0 {
      AddLaws(0, 0, 0);
    } else {
      MulIsScale(x, y);
      MulIsScale(x, z);
      MulIsScale(x, Add(y, z));
      ScaleLinear(Log(x), y, z);
    }
  }

  lemma MulAssoc(x: bv8, y: bv8, z: bv8)
    ensures Mul(Mul(x, y), z) == Mul(x, Mul(y, z))
  {
    if x != 0 && z != 0 {
      MulIsScale(x, y);
      MulIsScale(z, y);
      MulIsScale(z, Mul(x, y));
      MulIsScale(x, Mul(z, y));
      ScaleAdd(Log(x), Log(z), y);
      ScaleAdd(Log(z), Log(x), y);
    }
  }

  lemma MulUnit(x: bv8)
    ensures Mul(1, x) == x && Mul(x, 1) == x
    ensures Mul(0, x) == 0 && Mul(x, 0) == 0
  {
    MulAlpha(0, x);
  }

  lemma MulNonzero(x: bv8, y: bv8)
    ensures Mul(x, y) == 0 <==> x == 0 || y == 0
  {
    if x != 0 && y != 0 {
      ScaleNonzero(Log(x) + Log(y), 1);
    }
  }

  /** Schoolbook product of two binary polynomials reduced by x^8 + x^4 + x^3 + x^2 + 1,
      defined without any table. */
  function CarrylessMul(x: bv8, y: bv8): bv8
    decreases y
  {
    if y == 0 then 0
    else Add(if y & 1 == 1 then x else 0, CarrylessMul(Xtime(x), y >> 1))
  }

  lemma SplitLowBit(y: bv8)
    ensures y == Add(y & 1, Xtime(y >> 1))
  {
  }

  lemma XtimeIsMul(x: bv8)
    ensures Xtime(x) == Mul(2, x) == Mul(x, 2)
  {
    assert AlphaPow(1) == 2;
    MulAlpha(1, x);
  }

  /** The table product is the product modulo the field polynomial. */
  lemma {:induction false} MulIsCarryless(x: bv8, y: bv8)
    ensures Mul(x, y) == CarrylessMul(x, y)
    decreases y
  {
    if y == 0 {
    } else {
      MulIsCarryless(Xtime(x), y >> 1);
      SplitLowBit(y);
      MulDistributes(x, y & 1, Xtime(y >> 1));
      XtimeIsMul(x);
      XtimeIsMul(y >> 1);
      MulAssoc(x, 2, y >> 1);
      MulUnit(x);
    }
  }
}
