/**
 Single bits of machine words: setting, clearing, testing, and the position of the lowest
 one, as the frame allocator's bitmaps and the run queue's priority bitmap use them. A
 word of `n` bits is a natural number below `Pow2(n)`.
 */
module Words {

  const WORD := 64

  function Pow2(n: nat): (p: nat)
    ensures p >= 1
  {
    if n == 0 then 1 else 2 * Pow2(n - 1)
  }

  lemma Pow2Doubles(n: nat)
    ensures Pow2(n + 1) == 2 * Pow2(n)
  {
  }

  /** Bit `k` of `w`. */
  predicate Bit(w: nat, k: nat)
    decreases k
  {
    if k == 0 then w % 2 == 1 else Bit(w / 2, k - 1)
  }

  /** Bitwise or. */
  function Or(a: nat, b: nat): nat
    decreases a + b
  {
    if a == 0 && b == 0 then 0
    else 2 * Or(a / 2, b / 2) + if a % 2 == 1 || b % 2 == 1 then 1 else 0
  }

  /** Bitwise and with the complement of `b`. */
  function AndNot(a: nat, b: nat): nat
    decreases a + b
  {
    if a == 0 && b == 0 then 0
    else 2 * AndNot(a / 2, b / 2) + if a % 2 == 1 && b % 2 == 0 then 1 else 0
  }

  lemma {:induction false} ZeroHasNoBits(k: nat)
    ensures !Bit(0, k)
  {
    if k == 0 {
    } else {
      ZeroHasNoBits(k - 1);
    }
  }

  lemma {:induction false} OrBits(a: nat, b: nat, k: nat)
    ensures Bit(Or(a, b), k) <==> Bit(a, k) || Bit(b, k)
    decreases k
  {
    if a == 0 && b == 0 {
      ZeroHasNoBits(k);
    } else if k > 0 {
      OrBits(a / 2, b / 2, k - 1);
    }
  }

  lemma {:induction false} AndNotBits(a: nat, b: nat, k: nat)
    ensures Bit(AndNot(a, b), k) <==> Bit(a, k) && !Bit(b, k)
    decreases k
  {
    if a == 0 && b == 0 {
      ZeroHasNoBits(k);
    } else if k > 0 {
      AndNotBits(a / 2, b / 2, k - 1);
    }
  }

  lemma {:induction false} Pow2Bits(j: nat, k: nat)
    ensures Bit(Pow2(j), k) <==> j == k
  {
    if j == 0 && k > 0 {
      ZeroHasNoBits(k - 1);
    } else if k > 0 {
      Pow2Bits(j - 1, k - 1);
    }
  }

  /** Or-ing in one bit sets that bit and no other. */
  lemma SetBit(w: nat, k: nat, j: nat)
    ensures Bit(Or(w, Pow2(k)), j) <==> j == k || Bit(w, j)
  {
    OrBits(w, Pow2(k), j);
    Pow2Bits(k, j);
  }

  /** Masking out one bit clears that bit and no other. */
  lemma ClearBit(w: nat, k: nat, j: nat)
    ensures Bit(AndNot(w, Pow2(k)), j) <==> j != k && Bit(w, j)
  {
    AndNotBits(w, Pow2(k), j);
    Pow2Bits(k, j);
  }

  lemma {:induction false} OrFits(a: nat, b: nat, n: nat)
    requires a < Pow2(n) && b < Pow2(n)
    ensures Or(a, b) < Pow2(n)
    decreases n
  {
    if n > 0 && a + b > 0 { OrFits(a / 2, b / 2, n - 1); }
  }

  lemma {:induction false} AndNotFits(a: nat, b: nat)
    ensures AndNot(a, b) <= a
    decreases a + b
  {
    if a + b > 0 { AndNotFits(a / 2, b / 2); }
  }

  lemma {:induction false} Pow2Increases(j: nat, k: nat)
    requires j < k
    ensures Pow2(j) < Pow2(k)
  {
    if j > 0 { Pow2Increases(j - 1, k - 1); }
    else if k > 1 { Pow2Increases(j, k - 1); }
  }

  /** Position of the lowest set bit. */
  function TrailingZeros(w: nat): (n: nat)
    requires w != 0
    ensures Bit(w, n)
    ensures forall j: nat :: j < n ==> !Bit(w, j)
  {
    if w % 2 == 1 then 0 else 1 + TrailingZeros(w / 2)
  }

  lemma {:induction false} TrailingZerosFits(w: nat, n: nat)
    requires 0 < w < Pow2(n)
    ensures TrailingZeros(w) < n
    decreases n
  {
    if n > 0 && w % 2 == 0 { TrailingZerosFits(w / 2, n - 1); }
  }

  // ---- Quotients and shifts ----

  lemma AtLeastOnce(d: int, p: int)
    requires d >= 1 && p > 0
    ensures d * p >= p
  {
    assert (d - 1) * p >= 0;
  }

  lemma HalfOfQuotient(f: nat, p: nat)
    requires p > 0
    ensures f / p / 2 == f / (2 * p)
  {
    var q, r := f / p, f % p;
    assert f == p * q + r;
    var h, o := q / 2, q % 2;
    assert f == (2 * p) * h + (p * o + r) by { assert q == 2 * h + o; }
    QuotientIs(f, 2 * p, h, p * o + r);
  }

  lemma QuotientIs(f: int, d: int, q: int, r: int)
    requires d > 0 && f == d * q + r && 0 <= r < d
    ensures f / d == q
  {
    var i, t := f / d, f % d;
    assert d * i + t == d * q + r;
    assert (i - q) * d == r - t;
    if i > q { AtLeastOnce(i - q, d); }
    if i < q { AtLeastOnce(q - i, d); }
  }

  /** Words with the same bits are the same. */
  lemma {:induction false} SameBits(a: nat, b: nat)
    requires forall k: nat :: Bit(a, k) <==> Bit(b, k)
    ensures a == b
    decreases a + b
  {
    assert Bit(a, 0) <==> Bit(b, 0);
    if a == 0 && b == 0 {
    } else {
      forall k: nat ensures Bit(a / 2, k) <==> Bit(b / 2, k) { assert Bit(a, k + 1) <==> Bit(b, k + 1); }
      SameBits(a / 2, b / 2);
    }
  }

  /** Dividing by a power of two shifts the bits down. */
  lemma {:induction false} QuotientBits(w: nat, n: nat, q: nat, k: nat)
    requires q == w / Pow2(n)
    ensures Bit(q, k) <==> Bit(w, k + n)
    decreases n
  {
    if n == 0 {
    } else {
      var p := Pow2(n - 1);
      HalfOfQuotient(w, p);
      QuotientNat(w, p);
      var twice: nat := w / p;
      assert q == twice / 2;
      QuotientBits(w, n - 1, twice, k + 1);
      assert Bit(twice, k + 1) <==> Bit(twice / 2, k);
    }
  }

  lemma QuotientNat(w: nat, p: nat)
    requires p > 0
    ensures w / p >= 0
  {
  }

  /** Multiplying by a power of two shifts them up. */
  lemma {:induction false} ProductBits(w: nat, n: nat, k: nat)
    ensures Bit(w * Pow2(n), k) <==> n <= k && Bit(w, k - n)
    decreases n
  {
    if n == 0 {
    } else {
      var half := w * Pow2(n - 1);
      assert w * Pow2(n) == 2 * half;
      if k > 0 {
        ProductBits(w, n - 1, k - 1);
        assert 2 * half / 2 == half;
      }
    }
  }

  /** The remainder by a power of two is the low bits. */
  lemma {:induction false} RemainderBits(w: nat, n: nat, k: nat)
    ensures Bit(w % Pow2(n), k) <==> k < n && Bit(w, k)
    decreases n
  {
    if n == 0 {
      assert w % 1 == 0;
      ZeroHasNoBits(k);
    } else {
      RemainderHalf(w, Pow2(n - 1));
      if k > 0 { RemainderBits(w / 2, n - 1, k - 1); }
    }
  }

  lemma RemainderHalf(w: nat, p: nat)
    requires p > 0
    ensures w % (2 * p) % 2 == w % 2 && w % (2 * p) / 2 == w / 2 % p
  {
    var q, r, h, o := w / 2 / p, w / 2 % p, w / 2, w % 2;
    assert h == p * q + r;
    assert w == (2 * p) * q + (2 * r + o);
    QuotientIs(w, 2 * p, q, 2 * r + o);
    assert w % (2 * p) == 2 * r + o;
  }
}
