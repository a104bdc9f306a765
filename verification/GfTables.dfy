/** The table building loops and table lookups of QRMath in src/web/qrcode.js. */
module GfTables {
  import opened Basics
  import opened GaloisField

  /** EXP_TABLE and LOG_TABLE. Cell 0 of the logarithm table is never written by the source. */
  datatype QRMath = QRMath(expTable: seq<bv8>, logTable: seq<nat>) {
    ghost predicate Valid() {
      && |expTable| == |logTable| == 256
      && (forall i :: 0 <= i < 256 ==> expTable[i] == AlphaPow(i))
      && (forall x: bv8 :: x != 0 ==> logTable[x as int] == Log(x))
    }

    /** The exponent lookup, for any integer exponent. */
    method Gexp(exponent: int) returns (r: bv8)
      requires Valid()
      ensures r == AlphaPow(exponent % 255)
    {
      hide AlphaPow;
      var n := exponent;
      while n < 0
        invariant n % 255 == exponent % 255
        invariant n >= 0 ==> n == exponent || n < 255
      {
        n := n + 255;
      }
      while n >= 256
        invariant n >= 0 && n % 255 == exponent % 255
      {
        n := n - 255;
      }
      AlphaPeriod(n);
      r := expTable[n];
    }

    method Glog(x: bv8) returns (r: Result<nat>)
      requires Valid()
      ensures r == if x == 0 then Thrown else Ok(Log(x))
    {
      if x == 0 {
        return Thrown;
      }
      return Ok(logTable[x as int]);
    }
  }

  /** The recurrence that fills EXP_TABLE from index 8 on. */
  lemma ExpRecurrence(i: nat)
    requires i >= 8
    ensures AlphaPow(i) == Add(Add(AlphaPow(i - 4), AlphaPow(i - 5)), Add(AlphaPow(i - 6), AlphaPow(i - 8)))
  {
    TableSteps();
    var n := i - 8;
    assert AlphaPow(8) == 29 && AlphaPow(4) == 16 && AlphaPow(3) == 8 && AlphaPow(2) == 4 by {
      hide Xtime;
      assert AlphaPow(1) == 2;
      assert AlphaPow(2) == 4;
      assert AlphaPow(3) == 8;
      assert AlphaPow(4) == 16;
      assert AlphaPow(5) == 32;
      assert AlphaPow(6) == 64;
      assert AlphaPow(7) == 128;
    }
    assert Add(Add(16, 8), Add(4, 1)) == 29;
    hide Add, Scale;
    ScaleLinear(n, Add(16, 8), Add(4, 1));
    ScaleLinear(n, 16, 8);
    ScaleLinear(n, 4, 1);
    ScaleAdd(n, 8, 1);
    ScaleAdd(n, 4, 1);
    ScaleAdd(n, 3, 1);
    ScaleAdd(n, 2, 1);
  }

  lemma {:induction false} PowersOfTwo(i: nat)
    requires i < 8
    ensures AlphaPow(i) == 1 << i
  {
    if i == 0 {
    } else {
      PowersOfTwo(i - 1);
      assert i in {1, 2, 3, 4, 5, 6, 7};
    }
  }

  lemma AlphaDistinct(i: nat, j: nat)
    requires i < 255 && j < 255 && i != j
    ensures AlphaPow(i) as int != AlphaPow(j) as int
  {
    AlphaValDistinct(i, j);
  }

  method BuildTables() returns (m: QRMath)
    ensures m.Valid()
  {
    hide Add, AlphaPow;
    var expTable := new bv8[256];
    var logTable := new nat[256];
    for i := 0 to 8
      invariant forall k :: 0 <= k < i ==> expTable[k] == AlphaPow(k)
    {
      PowersOfTwo(i);
      expTable[i] := 1 << i;
    }
    for i := 8 to 256
      invariant forall k :: 0 <= k < i ==> expTable[k] == AlphaPow(k)
    {
      ExpRecurrence(i);
      expTable[i] := Add(Add(expTable[i - 4], expTable[i - 5]), Add(expTable[i - 6], expTable[i - 8]));
    }
    for i := 0 to 255
      invariant forall k :: 0 <= k < 256 ==> expTable[k] == AlphaPow(k)
      invariant forall k :: 0 <= k < i ==> logTable[expTable[k] as int] == k
    {
      forall k: nat | k < i ensures expTable[k] as int != expTable[i] as int {
        AlphaDistinct(k, i);
      }
      logTable[expTable[i] as int] := i;
    }
    forall x: bv8 | x != 0 ensures logTable[x as int] == Log(x) {
      assert expTable[Log(x)] == x;
    }
    m := QRMath(expTable[..], logTable[..]);
  }
}
