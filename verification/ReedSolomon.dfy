/** The error correction of src/web/qrcode.js: the generator polynomial, the error correction
    cells of createBytes, and the code that they span. */
module ReedSolomon {
  import opened Basics
  import opened GaloisField
  import opened GfTables
  import opened Polynomial

  // ---------- sparse polynomials have few consecutive roots ----------

  ghost function Support(p: Poly): (s: set<nat>) {
    set j: nat | j < |p| && p[j] != 0
  }

  /** Each coefficient times alpha to its degree: evaluation moves to the next power. */
  function Twist(p: Poly): (r: Poly)
    ensures |r| == |p|
  {
    seq(|p|, j requires 0 <= j < |p| => Scale(|p| - 1 - j, p[j]))
  }

  lemma TwistPrefix(p: Poly)
    requires p != []
    ensures Twist(p)[..|p| - 1] == MulAll(AlphaPow(1), Twist(p[..|p| - 1]))
  {
    hide Mul;
    var n := |p| - 1;
    forall j | 0 <= j < n ensures Twist(p)[j] == Mul(AlphaPow(1), Twist(p[..n])[j]) {
      MulAlpha(1, Scale(n - 1 - j, p[j]));
      ScaleAdd(1, n - 1 - j, p[j]);
    }
  }

  lemma {:induction false} EvalTwist(p: Poly, t: nat)
    ensures Eval(Twist(p), AlphaPow(t)) == Eval(p, AlphaPow(t + 1))
  {
    hide Add, Mul;
    if p == [] {
    } else {
      var n := |p| - 1;
      var init := p[..n];
      TwistPrefix(p);
      EvalTwist(init, t);
      EvalMulAll(AlphaPow(1), Twist(init), AlphaPow(t));
      var v := Eval(init, AlphaPow(t + 1));
      MulAlpha(1, v);
      MulCommutes(Mul(AlphaPow(1), v), AlphaPow(t));
      MulCommutes(v, AlphaPow(t + 1));
      MulAlpha(t, Scale(1, v));
      MulAlpha(t + 1, v);
      ScaleAdd(t, 1, v);
      assert Twist(p)[n] == p[n];
    }
  }

  lemma ScaleApart(a: nat, b: nat, c: bv8)
    requires a < 255 && b < 255 && a != b && c != 0
    ensures Add(Scale(a, c), Scale(b, c)) != 0
  {
    hide Add, Scale;
    var l := Log(c);
    ScaleAdd(a, l, 1);
    ScaleAdd(l, a, 1);
    ScaleAdd(b, l, 1);
    ScaleAdd(l, b, 1);
    AddLaws(Scale(a, c), Scale(b, c), 0);
    if Scale(a, c) == Scale(b, c) {
      ScaleInjective(l, AlphaPow(a), AlphaPow(b));
      AlphaInjective(a, b);
    }
  }

  /** Cancels the term at index j0 and keeps every other term's presence. */
  ghost function Eliminate(p: Poly, j0: nat): (r: Poly)
    requires j0 < |p|
    ensures |r| == |p|
  {
    AddSeq(Twist(p), MulAll(AlphaPow(|p| - 1 - j0), p))
  }

  lemma EliminateSupport(p: Poly, j0: nat)
    requires j0 < |p| <= 255
    ensures Support(Eliminate(p, j0)) == Support(p) - {j0}
  {
    hide Add, Scale, Mul;
    var d := |p| - 1 - j0;
    forall j: nat | j < |p| ensures Eliminate(p, j0)[j] == 0 <==> p[j] == 0 || j == j0 {
      MulAlpha(d, p[j]);
      assert Eliminate(p, j0)[j] == Add(Scale(|p| - 1 - j, p[j]), Scale(d, p[j]));
      ScaleZero(d);
      ScaleZero(|p| - 1 - j);
      AddLaws(Scale(d, p[j]), Scale(d, p[j]), 0);
      if p[j] != 0 && j != j0 {
        ScaleApart(|p| - 1 - j, d, p[j]);
      }
    }
  }

  lemma EliminateRoot(p: Poly, j0: nat, t: nat)
    requires j0 < |p|
    requires Eval(p, AlphaPow(t)) == 0 && Eval(p, AlphaPow(t + 1)) == 0
    ensures Eval(Eliminate(p, j0), AlphaPow(t)) == 0
  {
    hide Add, Mul, Scale;
    var c := AlphaPow(|p| - 1 - j0);
    EvalAddSeq(Twist(p), MulAll(c, p), AlphaPow(t));
    EvalTwist(p, t);
    EvalMulAll(c, p, AlphaPow(t));
    MulUnit(c);
    AddLaws(0, 0, 0);
  }

  lemma {:induction false} NoTermsNoValue(p: Poly, x: bv8)
    requires Support(p) == {}
    ensures Eval(p, x) == 0
  {
    forall j | 0 <= j < |p| ensures p[j] == 0 {
      assert j !in Support(p);
    }
    assert p == Zeros(|p|);
    EvalZeros(|p|, x);
  }

  lemma {:induction false} SingleTerm(p: Poly, j0: nat, t: nat)
    requires Support(p) == {j0}
    ensures Eval(p, AlphaPow(t)) != 0
  {
    hide Add, Mul, Scale;
    var n := |p| - 1;
    assert j0 in Support(p);
    forall j: nat | j < n ensures j in Support(p[..n]) <==> j in Support(p) {
      assert p[..n][j] == p[j];
    }
    if j0 == n {
      assert Support(p[..n]) == {};
      NoTermsNoValue(p[..n], AlphaPow(t));
      MulUnit(AlphaPow(t));
      AddLaws(p[n], 0, 0);
    } else {
      assert n !in Support(p);
      assert Support(p[..n]) == {j0};
      SingleTerm(p[..n], j0, t);
      MulNonzero(Eval(p[..n], AlphaPow(t)), AlphaPow(t));
      ScaleNonzero(t, 1);
      AddLaws(Mul(Eval(p[..n], AlphaPow(t)), AlphaPow(t)), 0, 0);
    }
  }

  ghost predicate RootsFrom(p: Poly, s: nat, k: nat) {
    forall i: nat :: s <= i < s + k ==> Eval(p, AlphaPow(i)) == 0
  }

  /** At most k terms and k consecutive powers of alpha as roots: the zero polynomial. */
  lemma {:induction false} SparseWithRootsIsZero(p: Poly, s: nat, k: nat)
    requires |p| <= 255
    requires |Support(p)| <= k && RootsFrom(p, s, k)
    ensures Support(p) == {}
    decreases k
  {
    hide Add, Mul, Scale, AlphaPow;
    if j0 :| j0 in Support(p) {
      var q := Eliminate(p, j0);
      EliminateSupport(p, j0);
      forall i: nat | s <= i < s + (k - 1) ensures Eval(q, AlphaPow(i)) == 0 {
        EliminateRoot(p, j0, i);
      }
      SparseWithRootsIsZero(q, s, k - 1);
      SingleTerm(p, j0, s);
      assert false;
    }
  }

  // ---------- the generator ----------

  /** (x - alpha^0)(x - alpha^1) ... (x - alpha^(n-1)). */
  ghost function Generator(n: nat): (g: Poly)
    ensures |g| == n + 1
  {
    if n == 0 then [1] else Product(Generator(n - 1), [1, AlphaPow(n - 1)])
  }

  lemma {:induction false} ProductLead(p: Poly, q: Poly)
    requires p != [] && q != []
    ensures Product(p, q)[0] == Mul(p[0], q[0])
  {
    hide Add, Mul;
    var n := |p| - 1;
    if n == 0 {
    } else {
      ProductLead(p[..n], q);
      AddLaws(Mul(p[0], q[0]), 0, 0);
    }
  }

  lemma {:induction false} GeneratorMonic(n: nat)
    ensures Generator(n)[0] == 1
  {
    if n == 0 {
    } else {
      GeneratorMonic(n - 1);
      ProductLead(Generator(n - 1), [1, AlphaPow(n - 1)]);
      MulUnit(1);
    }
  }

  lemma EvalLinear(a: bv8, b: bv8, x: bv8)
    ensures Eval([a, b], x) == Add(Mul(a, x), b)
  {
    hide Add, Mul;
    MulUnit(x);
    AddLaws(a, 0, 0);
    assert [a][..0] == [];
    assert Eval([a], x) == a;
    assert [a, b][..1] == [a];
  }

  lemma {:induction false} GeneratorRoots(n: nat, i: nat)
    requires i < n
    ensures Eval(Generator(n), AlphaPow(i)) == 0
  {
    hide Add, Mul, Scale;
    var x := AlphaPow(i);
    var f := [1, AlphaPow(n - 1)];
    EvalProduct(Generator(n - 1), f, x);
    if i < n - 1 {
      GeneratorRoots(n - 1, i);
    } else {
      EvalLinear(1, x, x);
      MulUnit(x);
      AddLaws(x, x, 0);
    }
    MulNonzero(Eval(Generator(n - 1), x), Eval(f, x));
  }

  ghost function Indices(n: nat): (s: set<nat>)
    ensures |s| == n
    ensures forall i: nat :: i in s <==> i < n
  {
    if n == 0 then {} else Indices(n - 1) + {n - 1}
  }

  lemma IndexSetSize(n: nat, s: set<nat>, j: nat)
    requires j < n && j !in s
    requires forall i :: i in s ==> i < n
    ensures |s| < n
  {
    SubsetSize(s + {j}, Indices(n));
  }

  /** No coefficient of a generator of degree below 255 is zero, so glog never throws on it. */
  lemma GeneratorAllNonzero(n: nat)
    requires n < 255
    ensures AllNonzero(Generator(n))
  {
    hide AlphaPow;
    var g := Generator(n);
    GeneratorMonic(n);
    forall i: nat | i < n ensures Eval(g, AlphaPow(i)) == 0 {
      GeneratorRoots(n, i);
    }
    assert 0 in Support(g);
    if j :| 0 <= j < |g| && g[j] == 0 {
      IndexSetSize(|g|, Support(g), j);
      SparseWithRootsIsZero(g, 0, n);
    }
  }

  // ---------- the error correction cells ----------

  lemma ZerosCells(n: nat)
    ensures |Zeros(n)| == n && forall i :: 0 <= i < n ==> Zeros(n)[i] == 0
  {
  }

  lemma AddSeqCell(p: Poly, q: Poly, i: nat)
    requires i < |p| == |q|
    ensures AddSeq(p, q)[i] == Add(p[i], q[i])
  {
  }

  lemma EvalOne(x: bv8)
    ensures Eval([1], x) == 1
  {
    hide Add, Mul;
    assert [1][..0] == [];
    MulUnit(x);
    AddLaws(1, 0, 0);
  }

  lemma {:induction false} PowerAlpha(i: nat, n: nat)
    ensures Power(AlphaPow(i), n) == AlphaPow(i * n)
  {
    hide Mul, Scale;
    if n == 0 {
      ScaleStart();
    } else {
      PowerAlpha(i, n - 1);
      MulCommutes(Power(AlphaPow(i), n - 1), AlphaPow(i));
      MulAlpha(i, AlphaPow(i * (n - 1)));
      ScaleAdd(i, i * (n - 1), 1);
      assert i + i * (n - 1) == i * n;
    }
  }

  lemma AlphaToOrder(i: nat)
    ensures AlphaPow(i * 255) == 1
  {
    AlphaPeriod(i * 255);
    ScaleStart();
  }

  lemma GeneratorFullValue(i: nat)
    requires i < 255
    ensures Add(Eval(Generator(255)[1..], AlphaPow(i)), 1) == 0
  {
    hide Add, Mul, AlphaPow, Generator;
    var x, p := AlphaPow(i), Generator(255)[1..];
    GeneratorMonic(255);
    GeneratorRoots(255, i);
    assert [1] + p == Generator(255);
    EvalConcat([1], p, x);
    PowerAlpha(i, 255);
    AlphaToOrder(i);
    EvalOne(x);
    MulUnit(1);
    AddLaws(1, Eval(p, x), 0);
  }

  /** The product over all 255 nonzero elements is x^255 - 1, which has zero coefficients. */
  lemma GeneratorFull()
    ensures !AllNonzero(Generator(255))
  {
    hide Add, Mul, AlphaPow, Generator, AddSeq, Zeros;
    ZerosCells(254);
    var p, one := Generator(255)[1..], Zeros(254) + [1];
    var w := AddSeq(p, one);
    // minus the leading term, the generator agrees with the constant 1 on every nonzero element
    forall i: nat | i < 255 ensures Eval(w, AlphaPow(i)) == 0 {
      GeneratorFullValue(i);
      EvalAddSeq(p, one, AlphaPow(i));
      EvalPadded(254, [1], AlphaPow(i));
      EvalOne(AlphaPow(i));
    }
    SubsetSize(Support(w), Indices(255));
    SparseWithRootsIsZero(w, 0, 255);
    assert w[0] == Add(p[0], 0) by { AddSeqCell(p, one, 0); }
    assert 0 !in Support(w);
    AddLaws(p[0], 0, 0);
    assert Generator(255)[1] == 0;
  }

  method GetErrorCorrectPolynomial(m: QRMath, n: nat) returns (r: Result<Poly>)
    requires m.Valid()
    ensures r == if n <= 255 then Ok(Generator(n)) else Thrown
  {
    hide AlphaPow, Mul, Product;
    var a: Poly := [1];
    for i := 0 to n
      invariant i <= 255 && a == Generator(i)
    {
      var x := m.Gexp(i);
      AlphaPeriod(i);
      AlphaNonzero(i);
      var step := Multiply(m, a, [1, x]);
      GeneratorMonic(i);
      GeneratorMonic(i + 1);
      if i < 255 {
        GeneratorAllNonzero(i);
      } else {
        GeneratorFull();
      }
      if step.Thrown? {
        return Thrown;
      }
      a := step.value;
    }
    r := Ok(a);
  }

  /** The remainder, right-aligned in n cells. */
  ghost function EcCells(data: Poly, n: nat): (r: Poly)
    ensures |r| == n
  {
    GeneratorMonic(n);
    var rem := Mod(QrPolynomial(data, n), Generator(n));
    Zeros(n - |rem|) + rem
  }

  method ComputeEcCells(m: QRMath, data: Poly, n: nat) returns (r: Result<Poly>)
    requires m.Valid()
    ensures r.Ok? <==> n < 255 || (n == 255 && StripZeros(data) == [])
    ensures r.Ok? ==> r.value == EcCells(data, n)
  {
    hide AlphaPow, Mul, Mod, Generator;
    var gen := GetErrorCorrectPolynomial(m, n);
    if gen.Thrown? {
      return Thrown;
    }
    var rsPoly := gen.value;
    GeneratorMonic(n);
    if n < 255 {
      GeneratorAllNonzero(n);
    } else {
      GeneratorFull();
    }
    var md := Modulo(m, QrPolynomial(data, |rsPoly| - 1), rsPoly);
    if md.Thrown? {
      return Thrown;
    }
    var modPoly := md.value;
    var ec := new bv8[|rsPoly| - 1];
    for i := 0 to ec.Length
      invariant forall k :: 0 <= k < i ==> ec[k] == EcCells(data, n)[k]
    {
      var modIndex := i + |modPoly| - ec.Length;
      ec[i] := if modIndex >= 0 then modPoly[modIndex] else 0;
    }
    assert ec[..] == EcCells(data, n);
    r := Ok(ec[..]);
  }

  /** Data followed by its error correction cells vanishes at alpha^0 .. alpha^(n-1). */
  lemma CodewordRoots(data: Poly, n: nat, i: nat)
    requires i < n
    ensures Eval(data + EcCells(data, n), AlphaPow(i)) == 0
  {
    hide Add, Mul, Scale;
    var x := AlphaPow(i);
    var g := Generator(n);
    var raw := QrPolynomial(data, n);
    GeneratorMonic(n);
    GeneratorRoots(n, i);
    EvalMod(raw, g, x);
    var rem := Mod(raw, g);
    EvalPadded(n - |rem|, rem, x);
    EvalConcat(data, EcCells(data, n), x);
    EvalConcat(StripZeros(data), Zeros(n), x);
    EvalStrip(data, x);
    EvalZeros(n, x);
    var v := Mul(Eval(data, x), Power(x, n));
    AddLaws(v, 0, 0);
    AddLaws(v, v, 0);
  }

  // ---------- the code ----------

  ghost predicate Codeword(w: Poly, n: nat) {
    RootsFrom(w, 0, n)
  }

  ghost function Differences(u: Poly, v: Poly): (s: set<nat>)
    requires |u| == |v|
  {
    set j: nat | j < |u| && u[j] != v[j]
  }

  /** Two different codewords differ in more than n places. */
  lemma Distance(u: Poly, v: Poly, n: nat)
    requires |u| == |v| <= 255 && Codeword(u, n) && Codeword(v, n) && u != v
    ensures |Differences(u, v)| > n
  {
    hide Add, Mul, Scale;
    var w := AddSeq(u, v);
    forall i: nat | 0 <= i < n ensures Eval(w, AlphaPow(i)) == 0 {
      EvalAddSeq(u, v, AlphaPow(i));
      AddLaws(0, 0, 0);
    }
    forall j: nat | j < |u| ensures w[j] != 0 <==> u[j] != v[j] {
      AddLaws(u[j], v[j], 0);
    }
    assert Support(w) == Differences(u, v);
    if |Differences(u, v)| <= n {
      SparseWithRootsIsZero(w, 0, n);
      forall j: nat | j < |u| ensures u[j] == v[j] {
        assert j !in Support(w);
      }
    }
  }

  /** A word within n / 2 errors of a codeword determines it. */
  lemma CorrectionIsUnique(u: Poly, v: Poly, received: Poly, n: nat)
    requires |u| == |v| == |received| <= 255 && Codeword(u, n) && Codeword(v, n)
    requires 2 * |Differences(u, received)| <= n && 2 * |Differences(v, received)| <= n
    ensures u == v
  {
    if u != v {
      Distance(u, v, n);
      var a, b := Differences(u, received), Differences(v, received);
      SubsetSize(Differences(u, v), a + b);
    }
  }

  lemma DifferencesInTail(data: Poly, a: Poly, b: Poly)
    requires |a| == |b|
    ensures |Differences(data + a, data + b)| <= |a|
  {
    SubsetSize(Differences(data + a, data + b), Indices(|data| + |a|) - Indices(|data|));
    assert Indices(|data|) <= Indices(|data| + |a|);
  }

  /** The error correction cells are the only ones that complete the data to a codeword. */
  lemma EcCellsUnique(data: Poly, n: nat, cells: Poly)
    requires |cells| == n && |data| + n <= 255
    requires Codeword(data + cells, n)
    ensures cells == EcCells(data, n)
  {
    hide EcCells;
    var ec := EcCells(data, n);
    forall i: nat | 0 <= i < n ensures Eval(data + ec, AlphaPow(i)) == 0 {
      CodewordRoots(data, n, i);
    }
    DifferencesInTail(data, cells, ec);
    if cells != ec {
      assert (data + cells)[|data|..] == cells && (data + ec)[|data|..] == ec;
      Distance(data + cells, data + ec, n);
    }
  }
}
