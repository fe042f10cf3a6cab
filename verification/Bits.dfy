/** The bits of a machine word, seen as a natural number. */
module Bits {

  ghost function Two(n: nat): nat {
    if n == 0 then 1 else 2 * Two(n - 1)
  }

  predicate Bit(w: nat, k: nat) {
    if k == 0 then w % 2 == 1 else Bit(w / 2, k - 1)
  }

  /** w | (1 << k) */
  function SetBit(w: nat, k: nat): nat {
    if k == 0 then (if w % 2 == 1 then w else w + 1) else 2 * SetBit(w / 2, k - 1) + w % 2
  }

  /** w & ~(1 << k) */
  function ClearBit(w: nat, k: nat): nat {
    if k == 0 then (if w % 2 == 1 then w - 1 else w) else 2 * ClearBit(w / 2, k - 1) + w % 2
  }

  /** The number of trailing zero bits. */
  function TrailingZeros(x: nat): nat
    requires x > 0
  {
    if x % 2 == 1 then 0 else 1 + TrailingZeros(x / 2)
  }

  /** The position of a clear bit of a 64-bit word, -1 when all are set. */
  function LeadingZero(x: nat): int
    requires x < 0x1_0000_0000_0000_0000
  {
    if x == 0xFFFF_FFFF_FFFF_FFFF then -1 else TrailingZeros(0xFFFF_FFFF_FFFF_FFFF - x)
  }

  lemma {:induction false} SetBitGet(w: nat, k: nat, j: nat)
    ensures Bit(SetBit(w, k), j) == (j == k || Bit(w, j))
  {
    if k > 0 && j > 0 {
      SetBitGet(w / 2, k - 1, j - 1);
      assert SetBit(w, k) / 2 == SetBit(w / 2, k - 1);
    }
  }

  lemma {:induction false} ClearBitGet(w: nat, k: nat, j: nat)
    ensures Bit(ClearBit(w, k), j) == (j != k && Bit(w, j))
  {
    if k > 0 && j > 0 {
      ClearBitGet(w / 2, k - 1, j - 1);
      assert ClearBit(w, k) / 2 == ClearBit(w / 2, k - 1);
    }
  }

  lemma {:induction false} SetBitBound(w: nat, k: nat, n: nat)
    requires k < n && w < Two(n)
    ensures SetBit(w, k) < Two(n)
    ensures ClearBit(w, k) < Two(n)
  {
    var w2, rest := w / 2, w % 2;
    assert Two(n) == 2 * Two(n - 1) && w2 < Two(n - 1);
    if k > 0 {
      SetBitBound(w2, k - 1, n - 1);
      assert SetBit(w, k) == 2 * SetBit(w2, k - 1) + rest && ClearBit(w, k) == 2 * ClearBit(w2, k - 1) + rest;
    }
  }

  /** Setting a clear bit and clearing it again gives the word back. */
  lemma {:induction false} SetThenClear(w: nat, k: nat)
    requires !Bit(w, k)
    ensures ClearBit(SetBit(w, k), k) == w
  {
    if k > 0 {
      SetThenClear(w / 2, k - 1);
      assert SetBit(w, k) / 2 == SetBit(w / 2, k - 1);
    }
  }

  lemma {:induction false} Complement(x: nat, n: nat, k: nat)
    requires k < n && x < Two(n)
    ensures Bit(Two(n) - 1 - x, k) == !Bit(x, k)
  {
    if k > 0 {
      Complement(x / 2, n - 1, k - 1);
      assert (Two(n) - 1 - x) / 2 == Two(n - 1) - 1 - x / 2;
    }
  }

  lemma {:induction false} FirstOne(x: nat, n: nat)
    requires 0 < x < Two(n)
    ensures TrailingZeros(x) < n && Bit(x, TrailingZeros(x))
    ensures forall j: nat | j < TrailingZeros(x) :: !Bit(x, j)
  {
    if x % 2 == 0 {
      FirstOne(x / 2, n - 1);
      forall j: nat | j < TrailingZeros(x)
        ensures !Bit(x, j)
      {
        if j > 0 { assert !Bit(x / 2, j - 1); }
      }
    }
  }

  lemma Two64()
    ensures Two(64) == 0x1_0000_0000_0000_0000
  {
    hide Two;
    TwoNone();
    TwoNext(0);
    TwoNext(1);
    TwoTwice(2);
    TwoTwice(4);
    TwoTwice(8);
    TwoTwice(16);
    TwoTwice(32);
  }

  lemma TwoTwice(n: nat)
    ensures Two(n + n) == Two(n) * Two(n)
  {
    TwoSum(n, n);
  }

  lemma {:induction false} TwoSum(m: nat, n: nat)
    ensures Two(m + n) == Two(m) * Two(n)
  {
    hide Two;
    TwoNone();
    if m > 0 {
      TwoSum(m - 1, n);
      TwoNext(m - 1);
      TwoNext(m - 1 + n);
      Twice(Two(m - 1), Two(n));
    }
  }

  lemma TwoNone()
    ensures Two(0) == 1
  {}

  lemma TwoNext(n: nat)
    ensures Two(n + 1) == 2 * Two(n)
  {}

  lemma Twice(a: nat, b: nat)
    ensures 2 * (a * b) == (2 * a) * b
  {}

  /** leading_zero finds the least clear bit, and fails exactly when there is none. */
  lemma LeadingZeroSpec(x: nat)
    requires x < 0x1_0000_0000_0000_0000
    ensures LeadingZero(x) == -1 <==> forall j: nat | j < 64 :: Bit(x, j)
    ensures LeadingZero(x) != -1 ==> 0 <= LeadingZero(x) < 64 && !Bit(x, LeadingZero(x))
    ensures forall j: nat | j < 64 && (LeadingZero(x) == -1 || j < LeadingZero(x)) :: Bit(x, j)
  {
    hide Two, Bit;
    Two64();
    forall j: nat | j < 64
      ensures Bit(Two(64) - 1 - x, j) == !Bit(x, j)
    {
      Complement(x, 64, j);
    }
    if x == 0xFFFF_FFFF_FFFF_FFFF {
      forall j: nat | j < 64
        ensures Bit(x, j)
      {
        assert Bit(Two(64) - 1 - x, j) == !Bit(x, j);
        NoBits(j);
      }
    } else {
      FirstOne(Two(64) - 1 - x, 64);
      assert !Bit(x, LeadingZero(x));
    }
  }

  lemma {:induction false} NoBits(k: nat)
    ensures !Bit(0, k)
  {
    if k > 0 { NoBits(k - 1); }
  }

  /** Bit k is the digit of 2 to the k. */
  lemma {:induction false} BitIs(w: nat, k: nat)
    ensures Two(k) > 0 && (Bit(w, k) <==> w / Two(k) % 2 == 1)
  {
    if k > 0 {
      BitIs(w / 2, k - 1);
      HalfFirst(w, Two(k - 1));
    }
  }

  lemma HalfFirst(w: nat, p: nat)
    requires p > 0
    ensures w / (2 * p) == w / 2 / p
  {
    var q, r := w / 2 / p, w / 2 % p;
    assert w / 2 == q * p + r;
    assert w == q * (2 * p) + (2 * r + w % 2);
    Quotient(w, 2 * p, q, 2 * r + w % 2);
  }

  lemma Quotient(w: nat, d: nat, q: nat, r: nat)
    requires d > 0 && w == q * d + r && r < d
    ensures w / d == q
  {
    var e := w / d;
    Larger(e, q, d);
    Larger(q, e, d);
  }

  lemma Larger(a: nat, b: nat, d: nat)
    ensures a > b ==> a * d >= b * d + d
  {
    if a > b {
      var c := a - b - 1;
      assert a * d == (b + 1 + c) * d == b * d + d + c * d;
    }
  }

  /** The bits of a number put together from a low part of n bits and a high part. */
  lemma {:induction false} BitJoin(lo: nat, n: nat, hi: nat, k: nat)
    requires lo < Two(n)
    ensures Bit(lo + Two(n) * hi, k) == if k < n then Bit(lo, k) else Bit(hi, k - n)
  {
    if n > 0 {
      JoinHalf(lo, Two(n - 1), hi);
      if k > 0 { BitJoin(lo / 2, n - 1, hi, k - 1); }
    } else {
      assert lo == 0 && Two(0) * hi == hi;
    }
  }

  lemma JoinHalf(lo: nat, p: nat, hi: nat)
    ensures (lo + 2 * p * hi) / 2 == lo / 2 + p * hi && (lo + 2 * p * hi) % 2 == lo % 2
  {
    assert 2 * p * hi == 2 * (p * hi);
  }
}
