/** Arithmetic in the field of 37 elements, in which the checksums of noisy secrets are computed. Elements are integers
    that are compared by their remainder; what the minimum distance needs is that a product is zero only if one of its
    factors is, and that the first thirty-six powers of 2 are different. */
module Field37 {

  const Q := 37

  predicate Zero(n: int) {
    n % Q == 0
  }

  lemma ZeroSum(a: int, b: int)
    requires Zero(a)
    ensures Zero(a + b) == Zero(b)
    ensures Zero(b - a) == Zero(b)
  {
  }

  lemma ZeroProduct(a: int, b: int)
    requires Zero(a)
    ensures Zero(a * b) && Zero(b * a)
  {
    var k := a / Q;
    assert a == Q * k;
    assert a * b == Q * (k * b);
    MultipleIsZero(k * b);
  }

  lemma MultipleIsZero(k: int)
    ensures Zero(Q * k)
  {
  }

  /** 37 has no divisor strictly between 1 and itself. */
  lemma Prime(r: int)
    requires 2 <= r < Q
    ensures Q % r != 0
  {
  }

  /** A residue between 1 and 36 can be cancelled, by the Euclidean algorithm on 37. */
  lemma {:induction false} Cancel(r: int, b: int)
    requires 1 <= r < Q
    requires Zero(r * b)
    ensures Zero(b)
    decreases r
  {
    if r > 1 {
      Prime(r);
      var q, s := Q / r, Q % r;
      assert Q == q * r + s;
      assert s * b == Q * b - q * (r * b) by {
        assert (q * r + s) * b == q * r * b + s * b;
      }
      ZeroProduct(r * b, q);
      MultipleIsZero(b);
      ZeroSum(q * (r * b), Q * b);
      Cancel(s, b);
    }
  }

  /** The field has no zero divisors. */
  lemma NoZeroDivisors(a: int, b: int)
    requires Zero(a * b)
    ensures Zero(a) || Zero(b)
  {
    if !Zero(a) {
      var k, r := a / Q, a % Q;
      assert a == Q * k + r;
      assert r * b == a * b - Q * (k * b) by {
        assert (Q * k + r) * b == Q * k * b + r * b;
      }
      MultipleIsZero(k * b);
      ZeroSum(Q * (k * b), a * b);
      Cancel(r, b);
    }
  }

  function Pow(y: int, e: nat): int {
    if e == 0 then 1 else y * Pow(y, e - 1)
  }

  lemma {:induction false} PowSum(y: int, a: nat, b: nat)
    ensures Pow(y, a + b) == Pow(y, a) * Pow(y, b)
  {
    if a > 0 {
      PowSum(y, a - 1, b);
      assert y * (Pow(y, a - 1) * Pow(y, b)) == y * Pow(y, a - 1) * Pow(y, b);
    }
  }

  lemma Regroup(a: int, b: int, p: int, q: int)
    ensures (a * b) * (p * q) == (a * p) * (b * q)
  {
    assert (a * b) * (p * q) == a * (b * (p * q));
    assert b * (p * q) == p * (b * q);
    assert a * (p * (b * q)) == (a * p) * (b * q);
  }

  /** (a*b)^e == a^e * b^e, used to read a power of 4, 8 or 16 as a power of a power of 2. */
  lemma {:induction false} PowProduct(a: int, b: int, e: nat)
    ensures Pow(a * b, e) == Pow(a, e) * Pow(b, e)
  {
    if e > 0 {
      PowProduct(a, b, e - 1);
      Regroup(a, b, Pow(a, e - 1), Pow(b, e - 1));
    }
  }

  /** 2 has multiplicative order 36: no smaller positive power of 2 is 1. */
  lemma OrderOfTwo(e: nat)
    requires 0 < e < 36
    ensures !Zero(Pow(2, e) - 1)
  {
    var b, s := AsProduct(e);
    NotOne(b, s);
  }

  /** A power of 2 below the 36th as one of four times one of nine. */
  lemma AsProduct(e: nat) returns (b: int, s: int)
    requires 0 < e < 36
    ensures Pow(2, e) == b * s && !(b == 1 && s == 1)
    ensures b in {1, 512, 262144, 134217728} && s in {1, 2, 4, 8, 16, 32, 64, 128, 256}
  {
    var block, small := e / 9 * 9, e % 9;
    b, s := Pow(2, block), Pow(2, small);
    PowSum(2, block, small);
    SmallPowers(small);
    PowersOfNine();
    assert block == 0 || block == 9 || block == 18 || block == 27;
  }

  lemma NotOne(b: int, s: int)
    requires b in {1, 512, 262144, 134217728} && s in {1, 2, 4, 8, 16, 32, 64, 128, 256}
    requires !(b == 1 && s == 1)
    ensures !Zero(b * s - 1)
  {
    if b == 1 {
    } else if b == 512 {
    } else if b == 262144 {
    } else {
      assert b == 134217728;
    }
  }

  lemma PowersOfNine()
    ensures Pow(2, 9) == 512 && Pow(2, 18) == 262144 && Pow(2, 27) == 134217728
  {
    SmallPowers(8);
    assert Pow(2, 9) == 512;
    PowSum(2, 9, 9);
    PowSum(2, 18, 9);
  }

  lemma SmallPowers(e: nat)
    requires e < 9
    ensures Pow(2, e) == [1, 2, 4, 8, 16, 32, 64, 128, 256][e]
  {
    assert Pow(2, 0) == 1 && Pow(2, 1) == 2 && Pow(2, 2) == 4 && Pow(2, 3) == 8;
    assert Pow(2, 4) == 16 && Pow(2, 5) == 32 && Pow(2, 6) == 64 && Pow(2, 7) == 128;
    assert Pow(2, 8) == 256;
  }

  lemma {:induction false} PowerNonzero(e: nat)
    ensures !Zero(Pow(2, e))
  {
    if e > 0 {
      PowerNonzero(e - 1);
      if Zero(Pow(2, e)) {
        NoZeroDivisors(2, Pow(2, e - 1));
      }
    }
  }

  lemma Factor(p: int, q: int)
    ensures p * q - p == p * (q - 1)
  {
  }

  /** Distinct exponents below 36 give distinct powers of 2. */
  lemma DistinctPowers(a: nat, b: nat)
    requires a < b < 36
    ensures !Zero(Pow(2, b) - Pow(2, a))
  {
    PowSum(2, a, b - a);
    var p, d := Pow(2, a), Pow(2, b - a) - 1;
    Factor(p, Pow(2, b - a));
    if Zero(p * d) {
      NoZeroDivisors(p, d);
      PowerNonzero(a);
      OrderOfTwo(b - a);
    }
  }
}
