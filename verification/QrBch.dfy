/** The format and the version information of src/web/qrcode.js (annexes C and D of ISO/IEC 18004:2015): words
    of two BCH codes, as numbers whose binary digits are the coefficients. */
module QrBch {
  import opened BitStrings

  // ---------- polynomials over two elements ----------

  /** What the lowest coefficient of q contributes. */
  function Unit(q: nat, g: nat): nat {
    if q % 2 == 1 then g else 0
  }

  /** The product without carries: the multiples of g. */
  function Times(q: nat, g: nat): nat {
    if q == 0 then 0 else Xor(Unit(q, g), 2 * Times(q / 2, g))
  }

  lemma Exchange(a: nat, b: nat, c: nat, d: nat)
    ensures Xor(Xor(a, b), Xor(c, d)) == Xor(Xor(a, c), Xor(b, d))
  {
    hide Xor;
    XorAssoc(a, b, Xor(c, d));
    XorAssoc(b, c, d);
    XorAssoc(c, b, d);
    XorCommutes(b, c);
    XorAssoc(a, c, Xor(b, d));
  }

  lemma TimesStep(q: nat, g: nat)
    ensures Times(q, g) == Xor(Unit(q, g), 2 * Times(q / 2, g))
  {
    XorZero(0);
  }

  lemma DigitXor(p: nat, q: nat, g: nat)
    ensures Unit(Xor(p, q), g) == Xor(Unit(p, g), Unit(q, g))
  {
    XorHalves(p, q);
    hide Xor;
    XorZero(g);
    XorZero(0);
    XorSame(g);
    assert (Xor(p, q) % 2 == 1) == (p % 2 != q % 2);
  }

  /** Sums of multiples are multiples. */
  lemma {:induction false} TimesXor(p: nat, q: nat, g: nat)
    ensures Times(Xor(p, q), g) == Xor(Times(p, g), Times(q, g))
  {
    if p == 0 {
      XorZero(q);
      XorZero(Times(q, g));
    } else if q == 0 {
      XorZero(p);
      XorZero(Times(p, g));
    } else {
      var p', q' := p / 2, q / 2;
      TimesXor(p', q', g);
      XorHalves(p, q);
      DigitXor(p, q, g);
      Doubled(Times(p', g), Times(q', g));
      TimesStep(p, g);
      TimesStep(q, g);
      TimesStep(Xor(p, q), g);
      hide Times, Xor, Unit;
      Exchange(Unit(p, g), 2 * Times(p', g), Unit(q, g), 2 * Times(q', g));
    }
  }

  // ---------- lengths ----------

  /** The number of binary digits. */
  function Digits(d: nat): nat {
    if d == 0 then 0 else 1 + Digits(d / 2)
  }

  lemma {:induction false} XorDigits(a: nat, b: nat)
    ensures Digits(a) == Digits(b) > 0 ==> Digits(Xor(a, b)) < Digits(a)
    ensures Digits(a) > Digits(b) ==> Digits(Xor(a, b)) == Digits(a)
  {
    if a == 0 || b == 0 {
    } else {
      XorDigits(a / 2, b / 2);
      XorHalves(a, b);
      hide Xor;
    }
  }

  lemma {:induction false} ShlDigits(n: nat, k: nat)
    requires n > 0
    ensures Shl(n, k) > 0 && Digits(Shl(n, k)) == Digits(n) + k
  {
    if k == 0 {
    } else {
      ShlDigits(n, k - 1);
    }
  }

  lemma {:induction false} DigitsBound(n: nat, k: nat)
    ensures n < Pow2(k) <==> Digits(n) <= k
  {
    if k == 0 {
    } else {
      DigitsBound(n / 2, k - 1);
    }
  }

  lemma DigitsTwice(n: nat)
    requires n > 0
    ensures Digits(2 * n) == Digits(n) + 1
  {
  }

  lemma DigitsHalf(q: nat)
    requires q > 0
    ensures Digits(q) == Digits(q / 2) + 1
    ensures Digits(0) == 0
  {
  }

  lemma TimesOne(g: nat)
    ensures Times(1, g) == g
  {
    XorZero(g);
  }

  lemma DigitsNone(n: nat)
    ensures Digits(n) > 0 ==> n > 0
  {
  }

  /** The degrees of factors add up. */
  lemma {:induction false} TimesDigits(q: nat, g: nat)
    requires q > 0 && g > 0
    ensures Times(q, g) > 0 && Digits(Times(q, g)) == Digits(q) + Digits(g) - 1
  {
    hide Xor, Times, Digits;
    DigitsHalf(q);
    DigitsHalf(g);
    if q == 1 {
      TimesOne(g);
    } else {
      var above := Times(q / 2, g);
      TimesDigits(q / 2, g);
      DigitsHalf(q / 2);
      DigitsTwice(above);
      TimesStep(q, g);
      XorCommutes(Unit(q, g), 2 * above);
      XorDigits(2 * above, Unit(q, g));
      DigitsNone(Xor(2 * above, Unit(q, g)));
    }
  }

  lemma {:induction false} TimesPower(k: nat, g: nat)
    ensures Times(Pow2(k), g) == Shl(g, k)
  {
    if k == 0 {
      XorZero(g);
    } else {
      TimesPower(k - 1, g);
      XorZero(2 * Times(Pow2(k - 1), g));
    }
  }

  // ---------- the division ----------

  ghost predicate Multiple(w: nat, g: nat) {
    exists q: nat :: w == Times(q, g)
  }

  lemma ZeroIsMultiple(d: nat, g: nat)
    ensures Multiple(Xor(d, d), g)
  {
    XorSame(d);
    assert Times(0, g) == 0;
  }

  lemma Shrinks(d: nat, g: nat)
    requires g > 0 && Digits(d) >= Digits(g)
    ensures Digits(Xor(d, Shl(g, Digits(d) - Digits(g)))) < Digits(d)
  {
    assert Digits(g) > 0;
    hide Xor, Shl, Digits;
    ShlDigits(g, Digits(d) - Digits(g));
    XorDigits(d, Shl(g, Digits(d) - Digits(g)));
  }

  lemma MultipleKept(start: nat, d: nat, g: nat, k: nat)
    requires Multiple(Xor(start, d), g)
    ensures Multiple(Xor(start, Xor(d, Shl(g, k))), g)
  {
    hide Xor, Times, Shl, Pow2;
    var q: nat :| Xor(start, d) == Times(q, g);
    XorAssoc(start, d, Shl(g, k));
    TimesPower(k, g);
    TimesXor(q, Pow2(k), g);
  }

  /** One step of the division: the leading term goes, and the sum of what was taken away is still a
      multiple. */
  lemma DivisionStep(start: nat, d: nat, g: nat)
    requires g > 0 && Digits(d) >= Digits(g) && Multiple(Xor(start, d), g)
    ensures var next := Xor(d, Shl(g, Digits(d) - Digits(g)));
      Digits(next) < Digits(d) && Multiple(Xor(start, next), g)
  {
    Shrinks(d, g);
    MultipleKept(start, d, g, Digits(d) - Digits(g));
    hide *;
  }

  method GetBchDigit(data: nat) returns (digit: nat)
    ensures digit == Digits(data)
  {
    var d := data;
    digit := 0;
    while d != 0
      invariant digit + Digits(d) == Digits(data)
    {
      digit := digit + 1;
      d := d / 2;
    }
  }

  /** a | b. */
  function Or(a: nat, b: nat): nat {
    if a == 0 then b else if b == 0 then a else 2 * Or(a / 2, b / 2) + (if a % 2 == 1 || b % 2 == 1 then 1 else 0)
  }

  /** The data above the remainder. */
  lemma {:induction false} OrJoins(data: nat, k: nat, d: nat)
    requires Digits(d) <= k
    ensures Or(Shl(data, k), d) == Xor(Shl(data, k), d)
    ensures Shr(Xor(Shl(data, k), d), k) == data
  {
    if k == 0 {
    } else {
      OrJoins(data, k - 1, d / 2);
      XorHalves(Shl(data, k), d);
    }
  }

  /** A word of a code: a multiple of the generator with the data on top. */
  ghost predicate Word(w: nat, data: nat, g: nat, k: nat) {
    Multiple(w, g) && Shr(w, k) == data
  }

  const G15: nat := 0x537
  const G18: nat := 0x1F25
  const G15_MASK: nat := 0x5412

  lemma DigitsOfGenerators()
    ensures Digits(G15) == 11 && Digits(G18) == 13
  {
  }

  lemma Joined(data: nat, k: nat, d: nat, g: nat)
    requires Digits(d) <= k && Multiple(Xor(Shl(data, k), d), g)
    ensures Word(Or(Shl(data, k), d), data, g, k)
  {
    OrJoins(data, k, d);
  }

  /** getBCHTypeInfo: under the mask, the word of the data. */
  method GetBchTypeInfo(data: nat) returns (bits: nat)
    ensures Word(Xor(bits, G15_MASK), data, G15, 10)
  {
    DigitsOfGenerators();
    hide Xor, Word, Multiple, Digits, Shl, Or;
    var d := Shl(data, 10);
    ZeroIsMultiple(d, G15);
    var width := GetBchDigit(G15);
    var digit: int := GetBchDigit(d);
    while digit - width >= 0
      invariant width == Digits(G15) && digit == Digits(d) && Multiple(Xor(Shl(data, 10), d), G15)
      decreases digit
    {
      DivisionStep(Shl(data, 10), d, G15);
      d := Xor(d, Shl(G15, digit - width));
      digit := GetBchDigit(d);
    }
    Joined(data, 10, d, G15);
    XorTwice(Or(Shl(data, 10), d), G15_MASK);
    bits := Xor(Or(Shl(data, 10), d), G15_MASK);
  }

  /** getBCHTypeNumber: the word of the version. */
  method GetBchTypeNumber(data: nat) returns (bits: nat)
    ensures Word(bits, data, G18, 12)
  {
    DigitsOfGenerators();
    hide Xor, Word, Multiple, Digits, Shl, Or;
    var d := Shl(data, 12);
    ZeroIsMultiple(d, G18);
    var width := GetBchDigit(G18);
    var digit: int := GetBchDigit(d);
    while digit - width >= 0
      invariant width == Digits(G18) && digit == Digits(d) && Multiple(Xor(Shl(data, 12), d), G18)
      decreases digit
    {
      DivisionStep(Shl(data, 12), d, G18);
      d := Xor(d, Shl(G18, digit - width));
      digit := GetBchDigit(d);
    }
    Joined(data, 12, d, G18);
    bits := Or(Shl(data, 12), d);
  }

  // ---------- uniqueness ----------

  lemma {:induction false} ShrDigits(n: nat, k: nat)
    ensures Shr(n, k) == 0 ==> Digits(n) <= k
  {
    if k == 0 {
    } else {
      ShrDigits(n / 2, k - 1);
    }
  }

  lemma {:induction false} XorZeroSame(a: nat, b: nat)
    requires Xor(a, b) == 0
    ensures a == b
  {
    if a == 0 || b == 0 {
    } else {
      XorZeroSame(a / 2, b / 2);
    }
  }

  /** There is one word for each data, and so the two methods leave no choice. */
  lemma WordUnique(a: nat, b: nat, data: nat, g: nat, k: nat)
    requires Digits(g) == k + 1 && Word(a, data, g, k) && Word(b, data, g, k)
    ensures a == b
  {
    var p: nat, q: nat :| a == Times(p, g) && b == Times(q, g);
    ShrXor(a, b, k);
    XorSame(data);
    ShrDigits(Xor(a, b), k);
    TimesXor(p, q, g);
    if Xor(p, q) != 0 {
      TimesDigits(Xor(p, q), g);
    }
    XorZeroSame(a, b);
  }

  // ---------- distance ----------

  /** The coefficient of x^i. */
  predicate Coef(w: nat, i: nat) {
    Shr(w, i) % 2 == 1
  }

  /** The number of the first k places where two words differ. */
  function Distance(a: nat, b: nat, k: nat): nat {
    if k == 0 then 0 else Distance(a, b, k - 1) + (if Coef(a, k - 1) != Coef(b, k - 1) then 1 else 0)
  }

  lemma {:induction false} Triangle(a: nat, b: nat, c: nat, k: nat)
    ensures Distance(a, c, k) <= Distance(a, b, k) + Distance(b, c, k)
  {
    if k == 0 {
    } else {
      Triangle(a, b, c, k - 1);
    }
  }

  lemma CoefXor(a: nat, b: nat, i: nat)
    ensures Coef(Xor(a, b), i) == (Coef(a, i) != Coef(b, i))
  {
    ShrXor(a, b, i);
    XorHalves(Shr(a, i), Shr(b, i));
  }

  lemma CoefZero(i: nat)
    ensures !Coef(0, i)
  {
    ShrZero(0, i);
  }

  lemma {:induction false} DistanceXor(a: nat, b: nat, mask: nat, k: nat)
    ensures Distance(Xor(a, mask), Xor(b, mask), k) == Distance(a, b, k)
    ensures Distance(Xor(a, b), 0, k) == Distance(a, b, k)
  {
    hide Coef, Xor;
    if k == 0 {
    } else {
      DistanceXor(a, b, mask, k - 1);
      CoefXor(a, mask, k - 1);
      CoefXor(b, mask, k - 1);
      CoefXor(a, b, k - 1);
      CoefZero(k - 1);
    }
  }

  /** The i-th coefficient of G15, of G18. */
  predicate Gen15(i: int): (b: bool)
    ensures b ==> i >= 0
  {
    i == 0 || i == 1 || i == 2 || i == 4 || i == 5 || i == 8 || i == 10
  }

  predicate Gen18(i: int): (b: bool)
    ensures b ==> i >= 0
  {
    i == 0 || i == 2 || i == 5 || i == 8 || i == 9 || i == 10 || i == 11 || i == 12
  }

  lemma CoefStep(w: nat, i: nat)
    ensures Coef(w, i) == if i == 0 then w % 2 == 1 else Coef(w / 2, i - 1)
  {
  }

  lemma CoefG15(i: nat)
    ensures Coef(G15, i) == Gen15(i)
  {
    hide Coef;
    CoefStep(1335, i);
    if i >= 1 { CoefStep(667, i - 1); }
    if i >= 2 { CoefStep(333, i - 2); }
    if i >= 3 { CoefStep(166, i - 3); }
    if i >= 4 { CoefStep(83, i - 4); }
    if i >= 5 { CoefStep(41, i - 5); }
    if i >= 6 { CoefStep(20, i - 6); }
    if i >= 7 { CoefStep(10, i - 7); }
    if i >= 8 { CoefStep(5, i - 8); }
    if i >= 9 { CoefStep(2, i - 9); }
    if i >= 10 { CoefStep(1, i - 10); }
    if i >= 11 { CoefZero(i - 11); }
  }

  lemma CoefG18(i: nat)
    ensures Coef(G18, i) == Gen18(i)
  {
    hide Coef;
    CoefStep(7973, i);
    if i >= 1 { CoefStep(3986, i - 1); }
    if i >= 2 { CoefStep(1993, i - 2); }
    if i >= 3 { CoefStep(996, i - 3); }
    if i >= 4 { CoefStep(498, i - 4); }
    if i >= 5 { CoefStep(249, i - 5); }
    if i >= 6 { CoefStep(124, i - 6); }
    if i >= 7 { CoefStep(62, i - 7); }
    if i >= 8 { CoefStep(31, i - 8); }
    if i >= 9 { CoefStep(15, i - 9); }
    if i >= 10 { CoefStep(7, i - 10); }
    if i >= 11 { CoefStep(3, i - 11); }
    if i >= 12 { CoefStep(1, i - 12); }
    if i >= 13 { CoefZero(i - 13); }
  }

  function One(b: bool): nat {
    if b then 1 else 0
  }

  function Cons(b: bool, n: nat): nat {
    One(b) + 2 * n
  }

  lemma Lowest(q: nat)
    ensures q == Cons(q % 2 == 1, q / 2)
    ensures q > 0 ==> q % 2 == 1 || q / 2 > 0
  {
  }

  /** A place of a product, by the lowest coefficient of a factor. */
  lemma TimesPlace(b: bool, n: nat, g: nat, i: nat)
    ensures Coef(Times(Cons(b, n), g), i) == ((b && Coef(g, i)) != (i > 0 && Coef(Times(n, g), i - 1)))
  {
    var q := Cons(b, n);
    assert q / 2 == n && (q % 2 == 1 <==> b);
    TimesStep(q, g);
    CoefXor(Unit(q, g), 2 * Times(n, g), i);
    CoefStep(2 * Times(n, g), i);
    CoefZero(i);
    hide Coef, Times, Xor, Cons;
  }

  lemma Three(a: nat, b: nat, k: nat)
    ensures Distance(a, b, k + 3) == Distance(a, b, k) + One(Coef(a, k) != Coef(b, k))
      + One(Coef(a, k + 1) != Coef(b, k + 1)) + One(Coef(a, k + 2) != Coef(b, k + 2))
  {
    hide Coef;
    assert Distance(a, b, k + 2) == Distance(a, b, k + 1) + One(Coef(a, k + 1) != Coef(b, k + 1));
  }

  lemma NoTimes(g: nat, i: nat)
    ensures !Coef(Times(0, g), i)
  {
    CoefZero(i);
  }

  lemma NoDistance(a: nat, b: nat)
    ensures Distance(a, b, 0) == 0
  {
  }

  // five coefficients times G15

  function Number5(a: bool, b: bool, c: bool, d: bool, e: bool): nat {
    Cons(a, Cons(b, Cons(c, Cons(d, Cons(e, 0)))))
  }

  predicate Place15(a: bool, b: bool, c: bool, d: bool, e: bool, i: int) {
    (a && Gen15(i)) != ((b && Gen15(i - 1)) != ((c && Gen15(i - 2)) != ((d && Gen15(i - 3)) != ((e && Gen15(i - 4))))))
  }

  lemma Heavy15(a: bool, b: bool, c: bool, d: bool, e: bool)
    requires a || b || c || d || e
    ensures One(Place15(a, b, c, d, e, 0)) + One(Place15(a, b, c, d, e, 1)) + One(Place15(a, b, c, d, e, 2))
      + One(Place15(a, b, c, d, e, 3)) + One(Place15(a, b, c, d, e, 4)) + One(Place15(a, b, c, d, e, 5))
      + One(Place15(a, b, c, d, e, 6)) + One(Place15(a, b, c, d, e, 7)) + One(Place15(a, b, c, d, e, 8))
      + One(Place15(a, b, c, d, e, 9)) + One(Place15(a, b, c, d, e, 10)) + One(Place15(a, b, c, d, e, 11))
      + One(Place15(a, b, c, d, e, 12)) + One(Place15(a, b, c, d, e, 13)) + One(Place15(a, b, c, d, e, 14)) >= 7
  {
  }

  lemma PlaceIs15(a: bool, b: bool, c: bool, d: bool, e: bool, i: nat)
    ensures Coef(Times(Number5(a, b, c, d, e), G15), i) == Place15(a, b, c, d, e, i)
  {
    hide Coef, Times, Cons, Gen15;
    TimesPlace(a, Cons(b, Cons(c, Cons(d, Cons(e, 0)))), G15, i);
    CoefG15(i);
    if i >= 1 {
      TimesPlace(b, Cons(c, Cons(d, Cons(e, 0))), G15, i - 1);
      CoefG15(i - 1);
    }
    if i >= 2 {
      TimesPlace(c, Cons(d, Cons(e, 0)), G15, i - 2);
      CoefG15(i - 2);
    }
    if i >= 3 {
      TimesPlace(d, Cons(e, 0), G15, i - 3);
      CoefG15(i - 3);
    }
    if i >= 4 {
      TimesPlace(e, 0, G15, i - 4);
      CoefG15(i - 4);
    }
    if i >= 5 {
      NoTimes(G15, i - 5);
    }
  }

  lemma Three15(a: bool, b: bool, c: bool, d: bool, e: bool, k: nat)
    ensures var w := Times(Number5(a, b, c, d, e), G15);
      Distance(w, 0, k + 3)
        == Distance(w, 0, k) + One(Place15(a, b, c, d, e, k)) + One(Place15(a, b, c, d, e, k + 1))
         + One(Place15(a, b, c, d, e, k + 2))
  {
    hide Coef, Times, Place15, Distance, Number5;
    Three(Times(Number5(a, b, c, d, e), G15), 0, k);
    PlaceIs15(a, b, c, d, e, k);
    PlaceIs15(a, b, c, d, e, k + 1);
    PlaceIs15(a, b, c, d, e, k + 2);
    CoefZero(k);
    CoefZero(k + 1);
    CoefZero(k + 2);
  }

  lemma Digits5(q: nat) returns (a: bool, b: bool, c: bool, d: bool, e: bool)
    requires 0 < q < 32
    ensures q == Number5(a, b, c, d, e) && (a || b || c || d || e)
  {
    hide Cons;
    var q1 := q / 2;
    a := q % 2 == 1;
    Lowest(q);
    var q2 := q1 / 2;
    b := q1 % 2 == 1;
    Lowest(q1);
    var q3 := q2 / 2;
    c := q2 % 2 == 1;
    Lowest(q2);
    var q4 := q3 / 2;
    d := q3 % 2 == 1;
    Lowest(q3);
    e := q4 == 1;
    Lowest(q4);
  }

  lemma Word15Heavy(q: nat)
    requires 0 < q < 32
    ensures Distance(Times(q, G15), 0, 15) >= 7
  {
    hide Coef, Times, Place15, Distance, One, Number5;
    var a, b, c, d, e := Digits5(q);
    NoDistance(Times(q, G15), 0);
    Heavy15(a, b, c, d, e);
    Three15(a, b, c, d, e, 0);
    Three15(a, b, c, d, e, 3);
    Three15(a, b, c, d, e, 6);
    Three15(a, b, c, d, e, 9);
    Three15(a, b, c, d, e, 12);
  }

  // six coefficients times G18

  function Number6(a: bool, b: bool, c: bool, d: bool, e: bool, f: bool): nat {
    Cons(a, Cons(b, Cons(c, Cons(d, Cons(e, Cons(f, 0))))))
  }

  predicate Place18(a: bool, b: bool, c: bool, d: bool, e: bool, f: bool, i: int) {
    (a && Gen18(i)) != ((b && Gen18(i - 1)) != ((c && Gen18(i - 2)) != ((d && Gen18(i - 3))
      != ((e && Gen18(i - 4)) != ((f && Gen18(i - 5)))))))
  }

  lemma Heavy18(a: bool, b: bool, c: bool, d: bool, e: bool, f: bool)
    requires a || b || c || d || e || f
    ensures One(Place18(a, b, c, d, e, f, 0)) + One(Place18(a, b, c, d, e, f, 1)) + One(Place18(a, b, c, d, e, f, 2))
      + One(Place18(a, b, c, d, e, f, 3)) + One(Place18(a, b, c, d, e, f, 4)) + One(Place18(a, b, c, d, e, f, 5))
      + One(Place18(a, b, c, d, e, f, 6)) + One(Place18(a, b, c, d, e, f, 7)) + One(Place18(a, b, c, d, e, f, 8))
      + One(Place18(a, b, c, d, e, f, 9)) + One(Place18(a, b, c, d, e, f, 10)) + One(Place18(a, b, c, d, e, f, 11))
      + One(Place18(a, b, c, d, e, f, 12)) + One(Place18(a, b, c, d, e, f, 13)) + One(Place18(a, b, c, d, e, f, 14))
      + One(Place18(a, b, c, d, e, f, 15)) + One(Place18(a, b, c, d, e, f, 16)) + One(Place18(a, b, c, d, e, f, 17)) >= 8
  {
  }

  lemma PlaceIs18(a: bool, b: bool, c: bool, d: bool, e: bool, f: bool, i: nat)
    ensures Coef(Times(Number6(a, b, c, d, e, f), G18), i) == Place18(a, b, c, d, e, f, i)
  {
    hide Coef, Times, Cons, Gen18;
    TimesPlace(a, Cons(b, Cons(c, Cons(d, Cons(e, Cons(f, 0))))), G18, i);
    CoefG18(i);
    if i >= 1 {
      TimesPlace(b, Cons(c, Cons(d, Cons(e, Cons(f, 0)))), G18, i - 1);
      CoefG18(i - 1);
    }
    if i >= 2 {
      TimesPlace(c, Cons(d, Cons(e, Cons(f, 0))), G18, i - 2);
      CoefG18(i - 2);
    }
    if i >= 3 {
      TimesPlace(d, Cons(e, Cons(f, 0)), G18, i - 3);
      CoefG18(i - 3);
    }
    if i >= 4 {
      TimesPlace(e, Cons(f, 0), G18, i - 4);
      CoefG18(i - 4);
    }
    if i >= 5 {
      TimesPlace(f, 0, G18, i - 5);
      CoefG18(i - 5);
    }
    if i >= 6 {
      NoTimes(G18, i - 6);
    }
  }

  lemma Three18(a: bool, b: bool, c: bool, d: bool, e: bool, f: bool, k: nat)
    ensures var w := Times(Number6(a, b, c, d, e, f), G18);
      Distance(w, 0, k + 3)
        == Distance(w, 0, k) + One(Place18(a, b, c, d, e, f, k)) + One(Place18(a, b, c, d, e, f, k + 1))
         + One(Place18(a, b, c, d, e, f, k + 2))
  {
    hide Coef, Times, Place18, Distance, Number6;
    Three(Times(Number6(a, b, c, d, e, f), G18), 0, k);
    PlaceIs18(a, b, c, d, e, f, k);
    PlaceIs18(a, b, c, d, e, f, k + 1);
    PlaceIs18(a, b, c, d, e, f, k + 2);
    CoefZero(k);
    CoefZero(k + 1);
    CoefZero(k + 2);
  }

  lemma Digits6(q: nat) returns (a: bool, b: bool, c: bool, d: bool, e: bool, f: bool)
    requires 0 < q < 64
    ensures q == Number6(a, b, c, d, e, f) && (a || b || c || d || e || f)
  {
    hide Cons;
    var q1 := q / 2;
    a := q % 2 == 1;
    Lowest(q);
    var q2 := q1 / 2;
    b := q1 % 2 == 1;
    Lowest(q1);
    var q3 := q2 / 2;
    c := q2 % 2 == 1;
    Lowest(q2);
    var q4 := q3 / 2;
    d := q3 % 2 == 1;
    Lowest(q3);
    var q5 := q4 / 2;
    e := q4 % 2 == 1;
    Lowest(q4);
    f := q5 == 1;
    Lowest(q5);
  }

  lemma Word18Heavy(q: nat)
    requires 0 < q < 64
    ensures Distance(Times(q, G18), 0, 18) >= 8
  {
    hide Coef, Times, Place18, Distance, One, Number6;
    var a, b, c, d, e, f := Digits6(q);
    NoDistance(Times(q, G18), 0);
    Heavy18(a, b, c, d, e, f);
    Three18(a, b, c, d, e, f, 0);
    Three18(a, b, c, d, e, f, 3);
    Three18(a, b, c, d, e, f, 6);
    Three18(a, b, c, d, e, f, 9);
    Three18(a, b, c, d, e, f, 12);
    Three18(a, b, c, d, e, f, 15);
  }

  lemma NoTimesAtAll(g: nat)
    ensures Times(0, g) == 0
  {
  }

  /** The sum of two words is a multiple of the generator by few coefficients, and not by none. */
  lemma WordsDiffer(a: nat, b: nat, data: nat, other: nat, g: nat, k: nat, m: nat) returns (q: nat)
    requires Digits(g) == k + 1 && Word(a, data, g, k) && Word(b, other, g, k)
    requires data < Pow2(m) && other < Pow2(m) && data != other
    ensures 0 < q < Pow2(m) && Xor(a, b) == Times(q, g)
  {
    var p: nat, r: nat :| a == Times(p, g) && b == Times(r, g);
    q := Xor(p, r);
    TimesXor(p, r, g);
    ShrXor(a, b, k);
    if Shr(Xor(a, b), k) == 0 {
      XorZeroSame(data, other);
    }
    XorBound(data, other, m);
    hide Xor, Times;
    ShrZero(0, k);
    if q == 0 {
      NoTimesAtAll(g);
    } else {
      TimesDigits(q, g);
      ShrSmall(Times(q, g), k, m);
      DigitsBound(Times(q, g), k + m);
      DigitsBound(q, m);
    }
  }

  lemma PowersOfTwo()
    ensures Pow2(5) == 32 && Pow2(6) == 64
  {
  }

  /** The format informations of two different levels or masks differ in seven of their fifteen places. */
  lemma InfoDistance(a: nat, b: nat, data: nat, other: nat)
    requires data < 32 && other < 32 && data != other
    requires Word(Xor(a, G15_MASK), data, G15, 10) && Word(Xor(b, G15_MASK), other, G15, 10)
    ensures Distance(a, b, 15) >= 7
  {
    DigitsOfGenerators();
    PowersOfTwo();
    hide Xor, Times, Word, Distance, Pow2, Digits;
    var q := WordsDiffer(Xor(a, G15_MASK), Xor(b, G15_MASK), data, other, G15, 10, 5);
    DistanceXor(a, b, G15_MASK, 15);
    DistanceXor(Xor(a, G15_MASK), Xor(b, G15_MASK), 0, 15);
    Word15Heavy(q);
  }

  /** A reader of up to three wrong modules still has only one level and mask to choose. */
  lemma InfoIsCorrectable(seen: nat, a: nat, b: nat, data: nat, other: nat)
    requires data < 32 && other < 32
    requires Word(Xor(a, G15_MASK), data, G15, 10) && Word(Xor(b, G15_MASK), other, G15, 10)
    requires Distance(a, seen, 15) <= 3 && Distance(seen, b, 15) <= 3
    ensures data == other
  {
    Triangle(a, seen, b, 15);
    if data != other {
      InfoDistance(a, b, data, other);
    }
  }

  /** The informations of two different versions differ in eight of their eighteen places. */
  lemma NumberDistance(a: nat, b: nat, version: nat, other: nat)
    requires version < 64 && other < 64 && version != other && Word(a, version, G18, 12) && Word(b, other, G18, 12)
    ensures Distance(a, b, 18) >= 8
  {
    DigitsOfGenerators();
    PowersOfTwo();
    hide Xor, Times, Word, Distance, Pow2, Digits;
    var q := WordsDiffer(a, b, version, other, G18, 12, 6);
    DistanceXor(a, b, 0, 18);
    Word18Heavy(q);
  }
}
