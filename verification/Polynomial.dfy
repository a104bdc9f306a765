/** qrPolynomial of src/web/qrcode.js: coefficient sequences over GF(256), highest degree first.
    A JavaScript cell that was never written is a zero here, as `^=` and `>>>` read it. */
module Polynomial {
  import opened Basics
  import opened GaloisField
  import opened GfTables

  type Poly = seq<bv8>

  // ---------- values and sequences ----------

  function Zeros(n: nat): Poly {
    seq(n, i => 0)
  }

  function StripZeros(num: Poly): (r: Poly)
    ensures |r| <= |num|
    ensures r != [] ==> r[0] != 0
  {
    if num != [] && num[0] == 0 then StripZeros(num[1..]) else num
  }

  /** The constructor: leading zeros dropped, then `shift` unwritten cells. */
  function QrPolynomial(num: Poly, shift: nat): Poly {
    StripZeros(num) + Zeros(shift)
  }

  /** The value at x, by Horner's rule. */
  ghost function Eval(p: Poly, x: bv8): bv8 {
    if p == [] then 0 else Add(Mul(Eval(p[..|p| - 1], x), x), p[|p| - 1])
  }

  ghost function Power(x: bv8, n: nat): bv8 {
    if n == 0 then 1 else Mul(Power(x, n - 1), x)
  }

  function AddSeq(p: Poly, q: Poly): (r: Poly)
    requires |p| == |q|
    ensures |r| == |p|
  {
    seq(|p|, i requires 0 <= i < |p| => Add(p[i], q[i]))
  }

  ghost function MulAll(c: bv8, p: Poly): (r: Poly)
    ensures |r| == |p|
  {
    seq(|p|, i requires 0 <= i < |p| => Mul(c, p[i]))
  }

  // ---------- evaluation is linear ----------

  lemma {:induction false} EvalConcat(p: Poly, q: Poly, x: bv8)
    ensures Eval(p + q, x) == Add(Mul(Eval(p, x), Power(x, |q|)), Eval(q, x))
  {
    hide Add, Mul;
    if q == [] {
      assert p + q == p;
      MulUnit(Eval(p, x));
      AddLaws(Eval(p, x), 0, 0);
    } else {
      var r, c := q[..|q| - 1], q[|q| - 1];
      assert (p + q)[..|p + q| - 1] == p + r;
      EvalConcat(p, r, x);
      MulDistributes(x, Mul(Eval(p, x), Power(x, |r|)), Eval(r, x));
      MulAssoc(Eval(p, x), Power(x, |r|), x);
      AddLaws(Mul(Eval(p, x), Power(x, |q|)), Mul(Eval(r, x), x), c);
    }
  }

  lemma {:induction false} EvalZeros(n: nat, x: bv8)
    ensures Eval(Zeros(n), x) == 0
  {
    hide Add, Mul;
    if n == 0 {
    } else {
      assert Zeros(n)[..n - 1] == Zeros(n - 1);
      EvalZeros(n - 1, x);
      MulUnit(x);
      AddLaws(0, 0, 0);
    }
  }

  lemma EvalPadded(n: nat, p: Poly, x: bv8)
    ensures Eval(Zeros(n) + p, x) == Eval(p, x)
  {
    hide *;
    EvalConcat(Zeros(n), p, x);
    EvalZeros(n, x);
    MulUnit(Power(x, |p|));
    AddLaws(Eval(p, x), 0, 0);
  }

  lemma {:induction false} EvalStrip(p: Poly, x: bv8)
    ensures Eval(StripZeros(p), x) == Eval(p, x)
  {
    if p != [] && p[0] == 0 {
      EvalStrip(p[1..], x);
      assert p == Zeros(1) + p[1..];
      EvalPadded(1, p[1..], x);
    }
  }

  lemma {:induction false} EvalAddSeq(p: Poly, q: Poly, x: bv8)
    requires |p| == |q|
    ensures Eval(AddSeq(p, q), x) == Add(Eval(p, x), Eval(q, x))
  {
    hide Add, Mul;
    if p == [] {
      AddLaws(0, 0, 0);
    } else {
      var n := |p| - 1;
      assert AddSeq(p, q)[..n] == AddSeq(p[..n], q[..n]);
      EvalAddSeq(p[..n], q[..n], x);
      MulDistributes(x, Eval(p[..n], x), Eval(q[..n], x));
      AddRegroup(Mul(Eval(p[..n], x), x), Mul(Eval(q[..n], x), x), p[n], q[n]);
    }
  }

  lemma {:induction false} EvalMulAll(c: bv8, p: Poly, x: bv8)
    ensures Eval(MulAll(c, p), x) == Mul(c, Eval(p, x))
  {
    hide Add, Mul;
    if p == [] {
      MulUnit(c);
    } else {
      var n := |p| - 1;
      assert MulAll(c, p)[..n] == MulAll(c, p[..n]);
      EvalMulAll(c, p[..n], x);
      MulAssoc(c, Eval(p[..n], x), x);
      MulDistributes(c, Mul(Eval(p[..n], x), x), p[n]);
    }
  }

  // ---------- multiply ----------

  /** The coefficients that multiply accumulates, row by row of p. */
  ghost function Product(p: Poly, q: Poly): (r: Poly)
    requires p != [] && q != []
    ensures |r| == |p| + |q| - 1
  {
    var n := |p| - 1;
    if n == 0 then MulAll(p[0], q)
    else AddSeq(Product(p[..n], q) + [0], Zeros(n) + MulAll(p[n], q))
  }

  lemma ProductStep(r: Poly, n: nat, c: bv8, q: Poly, x: bv8)
    requires |r| + 1 == n + |q|
    ensures Eval(AddSeq(r + [0], Zeros(n) + MulAll(c, q)), x) == Add(Mul(Eval(r, x), x), Mul(c, Eval(q, x)))
  {
    hide Add, Mul;
    EvalAddSeq(r + [0], Zeros(n) + MulAll(c, q), x);
    EvalPadded(n, MulAll(c, q), x);
    EvalMulAll(c, q, x);
    assert (r + [0])[..|r|] == r;
    AddLaws(Mul(Eval(r, x), x), 0, 0);
  }

  lemma MulCommutes(x: bv8, y: bv8)
    ensures Mul(x, y) == Mul(y, x)
  {
  }

  lemma MulMiddle(a: bv8, x: bv8, b: bv8, c: bv8)
    ensures Add(Mul(Mul(a, b), x), Mul(c, b)) == Mul(Add(Mul(a, x), c), b)
  {
    MulCommutes(b, x);
    hide Add, Mul;
    MulAssoc(a, b, x);
    MulAssoc(a, x, b);
    MulDistributes(b, Mul(a, x), c);
  }

  /** multiply is multiplication: it maps to the product of the values at every point. */
  lemma {:induction false} EvalProduct(p: Poly, q: Poly, x: bv8)
    requires p != [] && q != []
    ensures Eval(Product(p, q), x) == Mul(Eval(p, x), Eval(q, x))
  {
    hide Add, Mul;
    var n := |p| - 1;
    if n == 0 {
      EvalMulAll(p[0], q, x);
      assert p[..0] == [];
      MulUnit(x);
      AddLaws(p[0], 0, 0);
    } else {
      EvalProduct(p[..n], q, x);
      ProductStep(Product(p[..n], q), n, p[n], q, x);
      MulMiddle(Eval(p[..n], x), x, Eval(q, x), p[n]);
    }
  }

  ghost predicate AllNonzero(p: Poly) {
    forall i :: 0 <= i < |p| ==> p[i] != 0
  }

  /** gexp(glog(x) + glog(y) + k * 255) is the field product. */
  lemma GexpOfLogs(x: bv8, y: bv8)
    requires x != 0 && y != 0
    ensures AlphaPow((Log(x) + Log(y)) % 255) == Mul(x, y)
  {
    AlphaPeriod(Log(x) + Log(y));
  }

  /** What one round of the outer loop leaves in the cells it can reach. */
  lemma RowCells(n: nat, c: bv8, q: Poly, before: Poly, after: Poly)
    requires |before| == |after| == n + |q|
    requires forall k :: 0 <= k < |after| ==>
      after[k] == if n <= k then Add(before[k], Mul(c, q[k - n])) else before[k]
    ensures after == AddSeq(before, Zeros(n) + MulAll(c, q))
  {
    hide Mul, Add;
    forall k | 0 <= k < |after| ensures after[k] == Add(before[k], (Zeros(n) + MulAll(c, q))[k]) {
      if k < n {
        AddLaws(before[k], 0, 0);
      }
    }
  }

  lemma AddZeros(p: Poly)
    ensures AddSeq(Zeros(|p|), p) == p
    ensures |Zeros(0)| == 0
  {
    hide Add;
    forall k | 0 <= k < |p| ensures AddSeq(Zeros(|p|), p)[k] == p[k] {
      AddLaws(p[k], 0, 0);
    }
  }

  lemma RowAdded(p: Poly, q: Poly, before: Poly)
    requires p != [] && q != []
    requires before == if |p| == 1 then Zeros(|q|) else Product(p[..|p| - 1], q) + [0]
    ensures AddSeq(before, Zeros(|p| - 1) + MulAll(p[|p| - 1], q)) == Product(p, q)
  {
    hide Mul, Add, AddSeq, MulAll, Zeros;
    if |p| == 1 {
      AddZeros(MulAll(p[0], q));
      assert Zeros(0) + MulAll(p[0], q) == MulAll(p[0], q);
    }
  }

  /** The inner loop: one row, or the exception of glog(0). */
  method AddRow(m: QRMath, num: array<bv8>, i: nat, c: bv8, q: Poly) returns (thrown: bool)
    requires m.Valid() && q != [] && i + |q| <= num.Length
    modifies num
    ensures !thrown <==> c != 0 && AllNonzero(q)
    ensures !thrown ==> num[..i + |q|] == AddSeq(old(num[..i + |q|]), Zeros(i) + MulAll(c, q))
    ensures !thrown ==> num[i + |q|..] == old(num[i + |q|..])
  {
    hide Add, Mul, Log, AlphaPow, AddSeq, Zeros, MulAll, QRMath.Valid;
    for j := 0 to |q|
      invariant j > 0 ==> c != 0
      invariant forall k :: 0 <= k < j ==> q[k] != 0
      invariant forall k :: 0 <= k < num.Length ==>
        num[k] == if i <= k < i + j then Add(old(num[k]), Mul(c, q[k - i])) else old(num[k])
    {
      var lp := m.Glog(c);
      var lq := m.Glog(q[j]);
      if lp.Thrown? || lq.Thrown? {
        return true;
      }
      var v := m.Gexp(lp.value + lq.value);
      GexpOfLogs(c, q[j]);
      num[i + j] := Add(num[i + j], v);
    }
    RowCells(i, c, q, old(num[..i + |q|]), num[..i + |q|]);
    thrown := false;
  }

  lemma AllZeros(p: Poly)
    requires forall k :: 0 <= k < |p| ==> p[k] == 0
    ensures p == Zeros(|p|)
  {
  }

  method Multiply(m: QRMath, p: Poly, q: Poly) returns (r: Result<Poly>)
    requires m.Valid()
    requires p != [] && q != []
    ensures r == if AllNonzero(p) && AllNonzero(q) then Ok(StripZeros(Product(p, q))) else Thrown
  {
    hide AddSeq, Zeros, MulAll, Product, StripZeros, QRMath.Valid;
    var num := new bv8[|p| + |q| - 1](i => 0);
    for i := 0 to |p|
      invariant (forall k :: 0 <= k < i ==> p[k] != 0) && (i > 0 ==> AllNonzero(q))
      invariant i > 0 ==> num[..i + |q| - 1] == Product(p[..i], q)
      invariant forall k :: (if i == 0 then 0 else i + |q| - 1) <= k < num.Length ==> num[k] == 0
    {
      ghost var before := num[..i + |q|];
      if i == 0 {
        AllZeros(before);
      }
      var thrown := AddRow(m, num, i, p[i], q);
      if thrown {
        return Thrown;
      }
      assert p[..i + 1][..i] == p[..i];
      RowAdded(p[..i + 1], q, before);
    }
    assert p[..|p|] == p && num[..|p| + |q| - 1] == num[..];
    r := Ok(StripZeros(num[..]));
  }

  // ---------- mod ----------

  /** The factor gexp(glog(a) - glog(b)). An unwritten leading cell makes the source's exponent
      not-a-number, and the exclusive or then leaves every cell as it was: factor zero. */
  ghost function Ratio(a: bv8, b: bv8): bv8
    requires b != 0
  {
    if a == 0 then 0 else AlphaPow((Log(a) - Log(b)) % 255)
  }

  lemma ModShift(x: int, y: int)
    ensures (x % 255 + y) % 255 == (x + y) % 255
  {
  }

  lemma RatioMul(a: bv8, b: bv8, c: bv8)
    requires a != 0 && b != 0 && c != 0
    ensures Mul(Ratio(a, b), c) == AlphaPow((Log(c) + (Log(a) - Log(b))) % 255)
  {
    hide Mul, Scale;
    var k := (Log(a) - Log(b)) % 255;
    MulAlpha(k, c);
    ScaleAdd(k, Log(c), 1);
    AlphaPeriod(k + Log(c));
    ModShift(Log(a) - Log(b), Log(c));
  }

  lemma RatioCancels(a: bv8, b: bv8)
    requires b != 0
    ensures Mul(Ratio(a, b), b) == a
  {
    if a != 0 {
      RatioMul(a, b, b);
    }
  }

  /** One subtraction step of the division. */
  ghost function Reduced(p: Poly, e: Poly): (r: Poly)
    requires |p| >= |e| > 0 && e[0] != 0
    ensures |r| == |p|
  {
    AddSeq(p[..|e|], MulAll(Ratio(p[0], e[0]), e)) + p[|e|..]
  }

  lemma ReducedHead(p: Poly, e: Poly)
    requires |p| >= |e| > 0 && e[0] != 0
    ensures Reduced(p, e)[0] == 0
    ensures |StripZeros(Reduced(p, e))| < |p|
  {
    RatioCancels(p[0], e[0]);
    AddLaws(p[0], p[0], 0);
  }

  ghost function Mod(p: Poly, e: Poly): (r: Poly)
    requires e != [] && e[0] != 0
    ensures |r| < |e|
    decreases |p|
  {
    if |p| < |e| then p
    else
      ReducedHead(p, e);
      Mod(StripZeros(Reduced(p, e)), e)
  }

  lemma EvalReduced(p: Poly, e: Poly, x: bv8)
    requires |p| >= |e| > 0 && e[0] != 0 && Eval(e, x) == 0
    ensures Eval(Reduced(p, e), x) == Eval(p, x)
  {
    hide Add, Mul;
    var c, k := Ratio(p[0], e[0]), |e|;
    EvalConcat(AddSeq(p[..k], MulAll(c, e)), p[k..], x);
    EvalAddSeq(p[..k], MulAll(c, e), x);
    EvalMulAll(c, e, x);
    MulUnit(c);
    AddLaws(Eval(p[..k], x), 0, 0);
    EvalConcat(p[..k], p[k..], x);
    assert p[..k] + p[k..] == p;
  }

  /** mod keeps the value at every root of the divisor. */
  lemma {:induction false} EvalMod(p: Poly, e: Poly, x: bv8)
    requires e != [] && e[0] != 0 && Eval(e, x) == 0
    ensures Eval(Mod(p, e), x) == Eval(p, x)
    decreases |p|
  {
    if |p| >= |e| {
      ReducedHead(p, e);
      EvalReduced(p, e, x);
      EvalStrip(Reduced(p, e), x);
      EvalMod(StripZeros(Reduced(p, e)), e, x);
    }
  }

  lemma ReducedCells(p: Poly, e: Poly, num: Poly)
    requires |num| == |p| >= |e| > 0 && e[0] != 0
    requires forall k :: 0 <= k < |p| ==>
      num[k] == if p[0] != 0 && k < |e| then Add(p[k], Mul(Ratio(p[0], e[0]), e[k])) else p[k]
    ensures num == Reduced(p, e)
  {
    hide Add, Mul;
    forall k | 0 <= k < |e| ensures num[k] == Add(p[k], Mul(Ratio(p[0], e[0]), e[k])) {
      MulUnit(e[k]);
      AddLaws(p[k], 0, 0);
    }
  }

  /** Copies the cells and subtracts the scaled divisor from the leading ones. */
  method SubtractStep(m: QRMath, p: Poly, e: Poly) returns (r: Result<Poly>)
    requires m.Valid()
    requires |p| >= |e| > 0 && e[0] != 0
    ensures r == if AllNonzero(e) then Ok(Reduced(p, e)) else Thrown
  {
    hide Add, Mul, Log, AlphaPow, Reduced, Ratio;
    ghost var c := Ratio(p[0], e[0]);
    var num := new bv8[|p|](i requires 0 <= i < |p| => p[i]);
    // an unwritten leading cell makes the exponents not-a-number, and the cells stay as they are
    var written := p[0] != 0;
    var lp := m.Glog(p[0]);
    var le := m.Glog(e[0]);
    var ratio := if written then lp.value - le.value else 0;
    for i := 0 to |e|
      invariant forall k :: 0 <= k < i ==> e[k] != 0
      invariant forall k :: 0 <= k < |p| ==> num[k] == if written && k < i then Add(p[k], Mul(c, e[k])) else p[k]
    {
      var l := m.Glog(e[i]);
      if l.Thrown? {
        return Thrown;
      }
      if written {
        var v := m.Gexp(l.value + ratio);
        RatioMul(p[0], e[0], e[i]);
        num[i] := Add(num[i], v);
      }
    }
    ReducedCells(p, e, num[..]);
    r := Ok(num[..]);
  }

  method Modulo(m: QRMath, p: Poly, e: Poly) returns (r: Result<Poly>)
    requires m.Valid()
    requires e != [] && e[0] != 0
    ensures r == if AllNonzero(e) || |p| < |e| then Ok(Mod(p, e)) else Thrown
    decreases |p|
  {
    hide Reduced;
    if |p| < |e| {
      return Ok(p);
    }
    var num := SubtractStep(m, p, e);
    if num.Thrown? {
      return Thrown;
    }
    ReducedHead(p, e);
    r := Modulo(m, StripZeros(num.value), e);
  }
}
