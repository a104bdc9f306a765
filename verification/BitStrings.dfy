/** Numbers as bit strings, least significant bit first, and the bit packing stream of the
    GIF writer in src/web/qrcode.js. */
module BitStrings {
  import opened Basics

  function Pow2(n: nat): (p: nat)
    ensures p > 0
  {
    if n == 0 then 1 else 2 * Pow2(n - 1)
  }

  lemma {:induction false} Pow2Monotone(a: nat, b: nat)
    requires a <= b
    ensures Pow2(a) <= Pow2(b)
  {
    if a < b {
      Pow2Monotone(a, b - 1);
    }
  }

  lemma {:induction false} Pow2Add(a: nat, b: nat)
    ensures Pow2(a + b) == Pow2(a) * Pow2(b)
  {
    if a == 0 {
    } else {
      Pow2Add(a - 1, b);
      assert Pow2(a) * Pow2(b) == 2 * (Pow2(a - 1) * Pow2(b));
    }
  }

  // ---------- exclusive or ----------

  function Xor(a: nat, b: nat): nat {
    if a == 0 then b else if b == 0 then a else 2 * Xor(a / 2, b / 2) + (if a % 2 == b % 2 then 0 else 1)
  }

  lemma XorHalves(a: nat, b: nat)
    ensures Xor(a, b) / 2 == Xor(a / 2, b / 2)
    ensures Xor(a, b) % 2 == if a % 2 == b % 2 then 0 else 1
  {
  }

  lemma XorZero(a: nat)
    ensures Xor(a, 0) == a == Xor(0, a)
  {
  }

  lemma {:induction false} XorSame(a: nat)
    ensures Xor(a, a) == 0
  {
    if a == 0 {
    } else {
      XorSame(a / 2);
    }
  }

  lemma {:induction false} XorCommutes(a: nat, b: nat)
    ensures Xor(a, b) == Xor(b, a)
  {
    if a == 0 || b == 0 {
    } else {
      XorCommutes(a / 2, b / 2);
    }
  }

  lemma {:induction false} XorAssoc(a: nat, b: nat, c: nat)
    ensures Xor(Xor(a, b), c) == Xor(a, Xor(b, c))
  {
    if a == 0 || b == 0 || c == 0 {
    } else {
      XorAssoc(a / 2, b / 2, c / 2);
      XorHalves(a, b);
      XorHalves(b, c);
      XorHalves(Xor(a, b), c);
      XorHalves(a, Xor(b, c));
      hide Xor;
    }
  }

  lemma {:induction false} XorBound(a: nat, b: nat, k: nat)
    requires a < Pow2(k) && b < Pow2(k)
    ensures Xor(a, b) < Pow2(k)
  {
    if k == 0 {
    } else {
      XorBound(a / 2, b / 2, k - 1);
    }
  }

  lemma XorTwice(w: nat, mask: nat)
    ensures Xor(Xor(w, mask), mask) == w
  {
    XorAssoc(w, mask, mask);
    XorSame(mask);
    XorZero(w);
  }

  lemma Doubled(a: nat, b: nat)
    ensures Xor(2 * a, 2 * b) == 2 * Xor(a, b)
  {
  }

  /** The `length` low bits of n. */
  function ToBits(n: nat, length: nat): (b: seq<bool>)
    ensures |b| == length
  {
    if length == 0 then [] else [n % 2 == 1] + ToBits(n / 2, length - 1)
  }

  function FromBits(b: seq<bool>): (n: nat)
    ensures n < Pow2(|b|)
  {
    if b == [] then 0 else (if b[0] then 1 else 0) + 2 * FromBits(b[1..])
  }

  lemma {:induction false} FromToBits(n: nat, length: nat)
    requires n < Pow2(length)
    ensures FromBits(ToBits(n, length)) == n
  {
    if length == 0 {
    } else {
      FromToBits(n / 2, length - 1);
    }
  }

  lemma {:induction false} ToFromBits(b: seq<bool>)
    ensures ToBits(FromBits(b), |b|) == b
  {
    if b == [] {
    } else {
      ToFromBits(b[1..]);
    }
  }

  /** n >>> k. */
  function Shr(n: nat, k: nat): nat {
    if k == 0 then n else Shr(n / 2, k - 1)
  }

  lemma {:induction false} ShrZero(n: nat, k: nat)
    ensures Shr(n, k) == 0 <==> n < Pow2(k)
  {
    if k == 0 {
    } else {
      ShrZero(n / 2, k - 1);
    }
  }

  lemma {:induction false} ShrSmall(n: nat, k: nat, m: nat)
    requires Shr(n, k) < Pow2(m)
    ensures n < Pow2(k + m)
  {
    if k == 0 {
    } else {
      ShrSmall(n / 2, k - 1, m);
    }
  }

  lemma {:induction false} ShrBound(n: nat, k: nat, m: nat)
    requires n < Pow2(k + m)
    ensures Shr(n, k) < Pow2(m)
  {
    if k == 0 {
    } else {
      ShrBound(n / 2, k - 1, m);
    }
  }

  /** The least significant bit comes first. */
  lemma {:induction false} ToBitsAt(n: nat, length: nat, i: nat)
    requires i < length
    ensures ToBits(n, length)[i] <==> Shr(n, i) % 2 == 1
  {
    if i > 0 {
      ToBitsAt(n / 2, length - 1, i - 1);
    }
  }

  lemma {:induction false} ToBitsAppend(n: nat, k: nat, m: nat)
    ensures ToBits(n, k + m) == ToBits(n, k) + ToBits(Shr(n, k), m)
  {
    if k == 0 {
    } else {
      ToBitsAppend(n / 2, k - 1, m);
    }
  }

  /** n << k. */
  function Shl(n: nat, k: nat): nat {
    if k == 0 then n else 2 * Shl(n, k - 1)
  }

  /** n & ((1 << k) - 1). */
  function Low(n: nat, k: nat): (r: nat)
    ensures r < Pow2(k)
  {
    if k == 0 then 0 else n % 2 + 2 * Low(n / 2, k - 1)
  }

  lemma {:induction false} ToBitsLow(n: nat, k: nat)
    ensures ToBits(Low(n, k), k) == ToBits(n, k)
  {
    if k == 0 {
    } else {
      ToBitsLow(n / 2, k - 1);
    }
  }

  /** A number written above another one. */
  lemma {:induction false} ToBitsJoin(low: nat, k: nat, high: nat, m: nat)
    requires low < Pow2(k)
    ensures ToBits(Shl(high, k) + low, k + m) == ToBits(low, k) + ToBits(high, m)
    ensures high < Pow2(m) ==> Shl(high, k) + low < Pow2(k + m)
  {
    if k > 0 {
      ToBitsJoin(low / 2, k - 1, high, m);
      assert (Shl(high, k) + low) / 2 == Shl(high, k - 1) + low / 2;
      assert (Shl(high, k) + low) % 2 == low % 2;
    }
  }

  function ByteBits(bytes: seq<nat>): seq<bool> {
    if bytes == [] then [] else ByteBits(bytes[..|bytes| - 1]) + ToBits(bytes[|bytes| - 1], 8)
  }

  function Zeros(n: nat): seq<bool> {
    seq(n, i => false)
  }

  function PadTo8(n: nat): nat {
    (8 - n % 8) % 8
  }

  lemma PadValue(m: nat, k: nat)
    requires k < 8
    ensures PadTo8(8 * m + k) == if k == 0 then 0 else 8 - k
  {
  }

  lemma {:induction false} ByteBitsLength(bytes: seq<nat>)
    ensures |ByteBits(bytes)| == 8 * |bytes|
  {
    if bytes == [] {
    } else {
      ByteBitsLength(bytes[..|bytes| - 1]);
    }
  }

  lemma {:induction false} ZeroBits(m: nat)
    ensures ToBits(0, m) == Zeros(m)
  {
    if m == 0 {
    } else {
      ZeroBits(m - 1);
    }
  }

  lemma {:induction false} PadZeros(n: nat, k: nat, m: nat)
    requires n < Pow2(k)
    ensures ToBits(n, k + m) == ToBits(n, k) + Zeros(m)
  {
    ShrZero(n, k);
    ToBitsAppend(n, k, m);
    ZeroBits(m);
  }

  lemma Regroup(a: seq<bool>, b: seq<bool>, c: seq<bool>, x: seq<bool>, y: seq<bool>)
    requires b + c == x + y
    ensures a + b + c == (a + x + []) + y
  {
    Assoc(a, b, c);
    Assoc(a, x, y);
    assert a + x + [] == a + x;
  }

  lemma ByteBitsAppend(bytes: seq<nat>, b: nat)
    ensures ByteBits(bytes + [b]) == ByteBits(bytes) + ToBits(b, 8)
    ensures ToBits(0, 0) == []
  {
    assert (bytes + [b])[..|bytes|] == bytes;
  }

  /** Filling up the pending byte with the low bits of d. */
  lemma FillByte(low: nat, k: nat, d: nat, l: nat)
    requires k < 8 <= k + l && low < Pow2(k) && d < Pow2(l)
    ensures ToBits(low, k) + ToBits(d, l)
         == ToBits(Low(Shl(d, k) + low, 8), 8) + ToBits(Shr(d, 8 - k), l - (8 - k))
    ensures Shr(d, 8 - k) < Pow2(l - (8 - k))
    ensures Low(Shl(d, k) + low, 8) < 256
  {
    assert Pow2(8) == 256;
    hide *;
    ToBitsAppend(d, 8 - k, l - (8 - k));
    ShrBound(d, 8 - k, l - (8 - k));
    ToBitsJoin(low, k, d, 8 - k);
    ToBitsLow(Shl(d, k) + low, 8);
    Assoc(ToBits(low, k), ToBits(d, 8 - k), ToBits(Shr(d, 8 - k), l - (8 - k)));
  }

  /** bitOutputStream over a byteArrayOutputStream. */
  class BitOutputStream {
    var out: seq<nat>
    var bitLength: nat
    var bitBuffer: nat

    ghost predicate Valid()
      reads this
    {
      bitLength < 8 && bitBuffer < Pow2(bitLength) && forall b :: b in out ==> b < 256
    }

    ghost function Contents(): seq<bool>
      reads this
    {
      ByteBits(out) + ToBits(bitBuffer, bitLength)
    }

    constructor ()
      ensures Valid() && Contents() == []
    {
      out, bitLength, bitBuffer := [], 0, 0;
    }

    /** The exception 'length over' is thrown exactly for data that needs more bits. */
    method Write(data: nat, length: nat) returns (thrown: bool)
      requires Valid()
      modifies this
      ensures Valid()
      ensures thrown <==> data >= Pow2(length)
      ensures Contents() == old(Contents()) + if thrown then [] else ToBits(data, length)
    {
      hide ToBits, Shl, Shr, Low, Pow2, ByteBits;
      ShrZero(data, length);
      if Shr(data, length) != 0 {
        return true;
      }
      var d: nat, l: nat := data, length;
      while bitLength + l >= 8
        invariant Valid() && d < Pow2(l)
        invariant Contents() + ToBits(d, l) == old(Contents()) + ToBits(data, length)
      {
        FillByte(bitBuffer, bitLength, d, l);
        var b := Low(Shl(d, bitLength) + bitBuffer, 8);
        ByteBitsAppend(out, b);
        Regroup(ByteBits(out), ToBits(bitBuffer, bitLength), ToBits(d, l),
                ToBits(b, 8), ToBits(Shr(d, 8 - bitLength), l - (8 - bitLength)));
        out := out + [b];
        l := l - (8 - bitLength);
        d := Shr(d, 8 - bitLength);
        bitBuffer, bitLength := 0, 0;
      }
      ToBitsJoin(bitBuffer, bitLength, d, l);
      Assoc(ByteBits(out), ToBits(bitBuffer, bitLength), ToBits(d, l));
      bitBuffer := Shl(d, bitLength) + bitBuffer;
      bitLength := bitLength + l;
      thrown := false;
    }

    /** The last byte is filled up with zeros. */
    method Flush()
      requires Valid()
      modifies this
      ensures ByteBits(out) == old(Contents()) + Zeros(PadTo8(|old(Contents())|))
    {
      ByteBitsLength(out);
      PadValue(|out|, bitLength);
      hide ToBits, PadTo8;
      if bitLength > 0 {
        PadZeros(bitBuffer, bitLength, 8 - bitLength);
        out := out + [bitBuffer];
      }
    }
  }

  lemma {:induction false} ShrXor(a: nat, b: nat, k: nat)
    ensures Shr(Xor(a, b), k) == Xor(Shr(a, k), Shr(b, k))
  {
    if k == 0 {
    } else {
      XorHalves(a, b);
      ShrXor(a / 2, b / 2, k - 1);
    }
  }

  /** Bit by bit. */
  lemma XorBits(a: nat, b: nat, i: nat)
    ensures (Shr(Xor(a, b), i) % 2 == 1) == ((Shr(a, i) % 2 == 1) != (Shr(b, i) % 2 == 1))
  {
    ShrXor(a, b, i);
    XorHalves(Shr(a, i), Shr(b, i));
  }

  /** The low bits are what division by the power leaves. */
  lemma {:induction false} LowAndHigh(n: nat, k: nat)
    ensures n == Low(n, k) + Shl(Shr(n, k), k)
  {
    if k == 0 {
    } else {
      LowAndHigh(n / 2, k - 1);
    }
  }

  lemma {:induction false} ShlIsTimes(n: nat, k: nat)
    ensures Shl(n, k) == n * Pow2(k)
  {
    if k == 0 {
    } else {
      ShlIsTimes(n, k - 1);
      assert n * Pow2(k) == 2 * (n * Pow2(k - 1));
    }
  }

  lemma ShrEight(n: nat)
    ensures Shr(n, 8) == n / 256
  {
    assert Pow2(8) == 256;
    LowAndHigh(n, 8);
    ShlIsTimes(Shr(n, 8), 8);
    hide Shr, Shl, Low, Pow2;
  }
}
