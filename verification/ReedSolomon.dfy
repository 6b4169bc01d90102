/** The checksum of a noisy secret as a code over the field of 37 elements:
    a four-register shift register, and the distance between any two of its codewords. */
module ReedSolomon {
  import opened Field37

  type Symbol = n: int | 0 <= n < 37

  datatype Registers = Registers(r0: int, r1: int, r2: int, r3: int)

  /** One turn of the shift register. */
  function Turn(r: Registers, b: Symbol): Registers {
    var feedback := (b + r.r0) % Q;
    Registers((r.r1 - feedback * 6) % Q, (r.r2 - feedback * 26) % Q, (r.r3 - feedback * 21) % Q, (-feedback * 3) % Q)
  }

  function Run(message: seq<Symbol>): Registers {
    if message == [] then Registers(0, 0, 0, 0)
    else Turn(Run(message[..|message| - 1]), message[|message| - 1])
  }

  function Negated(r: Registers): seq<Symbol> {
    [(-r.r0) % Q, (-r.r1) % Q, (-r.r2) % Q, (-r.r3) % Q]
  }

  function ChecksumOf(message: seq<Symbol>): seq<Symbol> {
    Negated(Run(message))
  }

  /** The word read as a polynomial, lowest degree first, at the point y. */
  function Eval(word: seq<int>, y: int): int {
    if word == [] then 0
    else Eval(word[..|word| - 1], y) + word[|word| - 1] * Pow(y, |word| - 1)
  }

  predicate Vanishes(word: seq<int>, y: int) {
    Zero(Eval(word, y))
  }

  /** A codeword vanishes at the first four powers of 2. */
  predicate IsCodeword(word: seq<int>) {
    Vanishes(word, 2) && Vanishes(word, 4) && Vanishes(word, 8) && Vanishes(word, 16)
  }

  predicate Differs<T(==)>(u: seq<T>, v: seq<T>, i: int) {
    0 <= i < |u| && i < |v| && u[i] != v[i]
  }

  /** The positions at which two words differ. */
  function Differing<T(==)>(u: seq<T>, v: seq<T>): set<nat> {
    set i: nat | i < |u| && Differs(u, v, i)
  }

  // ----- the shift register divides by the generator -----

  function Pending(r: Registers, y: int): int {
    r.r0 + r.r1 * y + r.r2 * (y * y) + r.r3 * (y * y * y)
  }

  predicate IsRoot(y: int) {
    y == 2 || y == 4 || y == 8 || y == 16
  }

  function Generator(y: int): int {
    1 + 6 * y + 26 * (y * y) + 21 * (y * y * y) + 3 * (y * y * y * y)
  }

  lemma GeneratorRoots(y: int)
    requires IsRoot(y)
    ensures Zero(Generator(y))
  {
  }

  lemma TurnAlgebra(r0: int, r1: int, r2: int, r3: int, b: int, f: int, k: int, k0: int, k1: int, k2: int, k3: int,
                    y: int)
    requires b + r0 == f + Q * k
    ensures b + (r0 + r1 * y + r2 * (y * y) + r3 * (y * y * y))
         - y * ((r1 - f * 6 - Q * k0) + (r2 - f * 26 - Q * k1) * y + (r3 - f * 21 - Q * k2) * (y * y)
           + (-f * 3 - Q * k3) * (y * y * y))
         == f * Generator(y) + Q * (k + (k0 * y + k1 * (y * y) + k2 * (y * y * y) + k3 * (y * y * y * y)))
  {
    Spread4(y, r1 - f * 6 - Q * k0, r2 - f * 26 - Q * k1, r3 - f * 21 - Q * k2, -f * 3 - Q * k3);
    Split3(r1, f, k0, 6, y);
    Split3(r2, f, k1, 26, y * y);
    Split3(r3, f, k2, 21, y * y * y);
    Split3(0, f, k3, 3, y * y * y * y);
    SpreadGenerator(f, y, y * y, y * y * y, y * y * y * y);
  }

  lemma Spread4(y: int, a: int, b: int, c: int, d: int)
    ensures y * (a + b * y + c * (y * y) + d * (y * y * y))
      == a * y + b * (y * y) + c * (y * y * y) + d * (y * y * y * y)
  {
  }

  lemma Split3(r: int, f: int, k: int, c: int, x: int)
    ensures (r - f * c - Q * k) * x == r * x - c * (f * x) - Q * (k * x)
  {
    assert (r - f * c - Q * k) * x == r * x - f * c * x - Q * k * x;
    assert f * c * x == c * (f * x);
    assert Q * k * x == Q * (k * x);
  }

  lemma SpreadGenerator(f: int, x1: int, x2: int, x3: int, x4: int)
    ensures f * (1 + 6 * x1 + 26 * x2 + 21 * x3 + 3 * x4)
      == f + 6 * (f * x1) + 26 * (f * x2) + 21 * (f * x3) + 3 * (f * x4)
  {
  }

  /** Turning the register by one symbol divides what is pending, with the symbol added, by y,
      because y is a root of the generator. */
  lemma TurnAtRoot(r: Registers, b: Symbol, y: int)
    requires IsRoot(y)
    ensures Zero(b + Pending(r, y) - y * Pending(Turn(r, b), y))
  {
    var f, k := (b + r.r0) % Q, (b + r.r0) / Q;
    var k0, k1, k2, k3 := (r.r1 - f * 6) / Q, (r.r2 - f * 26) / Q, (r.r3 - f * 21) / Q, (-f * 3) / Q;
    TurnAlgebra(r.r0, r.r1, r.r2, r.r3, b, f, k, k0, k1, k2, k3, y);
    GeneratorRoots(y);
    GeneratorMultiple(f, Generator(y), k + (k0 * y + k1 * (y * y) + k2 * (y * y * y) + k3 * (y * y * y * y)));
  }

  lemma GeneratorMultiple(f: int, g: int, m: int)
    requires Zero(g)
    ensures Zero(f * g + Q * m)
  {
    ZeroProduct(g, f);
    MultipleIsZero(m);
    ZeroSum(Q * m, f * g);
  }

  /** After every prefix, what is pending in the registers is the value of the prefix at each root. */
  lemma {:induction false} RegisterInvariant(message: seq<Symbol>, y: int)
    requires IsRoot(y)
    ensures Zero(Eval(message, y) - Pow(y, |message|) * Pending(Run(message), y))
  {
    if message != [] {
      var n := |message| - 1;
      var before, b := message[..n], message[n];
      RegisterInvariant(before, y);
      TurnAtRoot(Run(before), b, y);
      Advance(Eval(before, y), Pow(y, n), Pow(y, n + 1), Pending(Run(before), y), b, y, Pending(Run(message), y));
    }
  }

  lemma Advance(e: int, p: int, p': int, x: int, b: int, y: int, z: int)
    requires Zero(e - p * x) && Zero(b + x - y * z) && p' == y * p
    ensures Zero(e + b * p - p' * z)
  {
    ZeroProduct(b + x - y * z, p);
    ZeroSum(e - p * x, p * (b + x - y * z));
    assert p' * z == p * (y * z);
    assert p * (b + x - y * z) == b * p + p * x - p * (y * z);
  }

  lemma EvalSnoc(word: seq<int>, x: int, y: int)
    ensures Eval(word + [x], y) == Eval(word, y) + x * Pow(y, |word|)
  {
    assert (word + [x])[..|word|] == word;
  }

  lemma EvalAppend(word: seq<int>, c0: int, c1: int, c2: int, c3: int, y: int)
    ensures Eval(word + [c0, c1, c2, c3], y)
         == Eval(word, y) + Pow(y, |word|) * (c0 + c1 * y + c2 * (y * y) + c3 * (y * y * y))
  {
    var w1, w2, w3 := word + [c0], word + [c0, c1], word + [c0, c1, c2];
    assert w1 + [c1] == w2 && w2 + [c2] == w3 && w3 + [c3] == word + [c0, c1, c2, c3];
    EvalSnoc(word, c0, y);
    EvalSnoc(w1, c1, y);
    EvalSnoc(w2, c2, y);
    EvalSnoc(w3, c3, y);
    AppendAlgebra(c0, c1, c2, c3, Pow(y, |word|), y, Pow(y, |word| + 1), Pow(y, |word| + 2), Pow(y, |word| + 3));
  }

  lemma AppendAlgebra(a: int, b: int, c: int, d: int, p: int, y: int, p1: int, p2: int, p3: int)
    requires p1 == y * p && p2 == y * p1 && p3 == y * p2
    ensures a * p + b * p1 + c * p2 + d * p3 == p * (a + b * y + c * (y * y) + d * (y * y * y))
  {
    assert b * p1 == p * (b * y);
    assert c * p2 == p * (c * (y * y)) by { assert p2 == p * (y * y); }
    assert d * p3 == p * (d * (y * y * y)) by { assert p3 == p * (y * y * y); }
    assert p * (a + b * y + c * (y * y) + d * (y * y * y))
      == p * a + p * (b * y) + p * (c * (y * y)) + p * (d * (y * y * y));
  }

  /** Every message followed by its checksum is a codeword. */
  lemma ChecksumCompletesCodeword(message: seq<Symbol>)
    ensures IsCodeword(message + ChecksumOf(message))
  {
    CompletedVanishes(message, 2);
    CompletedVanishes(message, 4);
    CompletedVanishes(message, 8);
    CompletedVanishes(message, 16);
  }

  lemma CompletedVanishes(message: seq<Symbol>, y: int)
    requires IsRoot(y)
    ensures Vanishes(message + ChecksumOf(message), y)
  {
    RegisterInvariant(message, y);
    var r, c := Run(message), ChecksumOf(message);
    EvalAppend(message, c[0], c[1], c[2], c[3], y);
    assert c == [c[0], c[1], c[2], c[3]];
    NegatedPending(r, c[0], c[1], c[2], c[3], y);
    Cancelled(Eval(message, y), Pow(y, |message|), Pending(r, y),
              c[0] + c[1] * y + c[2] * (y * y) + c[3] * (y * y * y));
  }

  lemma Cancelled(e: int, p: int, x: int, c: int)
    requires Zero(e - p * x) && Zero(c + x)
    ensures Zero(e + p * c)
  {
    ZeroProduct(c + x, p);
    assert p * (c + x) == p * c + p * x;
    ZeroSum(e - p * x, p * (c + x));
  }

  lemma NegatedPending(r: Registers, c0: int, c1: int, c2: int, c3: int, y: int)
    requires c0 == (-r.r0) % Q && c1 == (-r.r1) % Q && c2 == (-r.r2) % Q && c3 == (-r.r3) % Q
    ensures Zero(c0 + c1 * y + c2 * (y * y) + c3 * (y * y * y) + Pending(r, y))
  {
    Cancels(c0, r.r0, 1);
    Cancels(c1, r.r1, y);
    Cancels(c2, r.r2, y * y);
    Cancels(c3, r.r3, y * y * y);
    SumOfFour((c0 + r.r0) * 1, (c1 + r.r1) * y, (c2 + r.r2) * (y * y), (c3 + r.r3) * (y * y * y));
    Gather(c0, c1, c2, c3, r.r0, r.r1, r.r2, r.r3, y, y * y, y * y * y);
  }

  lemma Cancels(c: int, r: int, p: int)
    requires c == (-r) % Q
    ensures Zero((c + r) * p)
  {
    assert Zero(c + r);
    ZeroProduct(c + r, p);
  }

  lemma SumOfFour(a: int, b: int, c: int, d: int)
    requires Zero(a) && Zero(b) && Zero(c) && Zero(d)
    ensures Zero(a + b + c + d)
  {
  }

  lemma Gather(c0: int, c1: int, c2: int, c3: int, r0: int, r1: int, r2: int, r3: int, x: int, y: int, z: int)
    ensures (c0 + r0) * 1 + (c1 + r1) * x + (c2 + r2) * y + (c3 + r3) * z
         == c0 + c1 * x + c2 * y + c3 * z + (r0 + r1 * x + r2 * y + r3 * z)
  {
  }

  // ----- four errors cannot hide -----

  /** The polynomial x(x-a)(x-b)(x-c), expanded and factored. */
  datatype Quartic = Quartic(a: int, b: int, c: int) {
    function At(x: int): int {
      x * ((x - a) * ((x - b) * (x - c)))
    }

    function Expanded(x: int): int {
      x * x * x * x - (a + b + c) * (x * x * x) + (a * b + a * c + b * c) * (x * x) - a * b * c * x
    }

    lemma Expand(x: int)
      ensures At(x) == Expanded(x)
    {
      ExpandQuartic(x, a, b, c);
    }
  }

  lemma ExpandQuartic(x: int, a: int, b: int, c: int)
    ensures x * ((x - a) * ((x - b) * (x - c)))
         == x * x * x * x - (a + b + c) * (x * x * x) + (a * b + a * c + b * c) * (x * x) - a * b * c * x
  {
  }

  /** The same combination of the four syndromes of a word. */
  function Syndromes(d: seq<int>, p: Quartic): int {
    Eval(d, 16) - (p.a + p.b + p.c) * Eval(d, 8) + (p.a * p.b + p.a * p.c + p.b * p.c) * Eval(d, 4)
    - p.a * p.b * p.c * Eval(d, 2)
  }

  function Locator(i: nat): int {
    Pow(2, i)
  }

  /** Each symbol weighted by the polynomial at the locator of its position. */
  function Weighted(d: seq<int>, p: Quartic): int {
    if d == [] then 0
    else Weighted(d[..|d| - 1], p) + d[|d| - 1] * p.At(Locator(|d| - 1))
  }

  lemma PowersAreLocatorPowers(i: nat)
    ensures var x := Locator(i); Pow(4, i) == x * x && Pow(8, i) == x * x * x && Pow(16, i) == x * x * x * x
  {
    PowProduct(2, 2, i);
    PowProduct(4, 2, i);
    PowProduct(8, 2, i);
  }

  lemma {:induction false} SyndromesAreWeighted(d: seq<int>, p: Quartic)
    ensures Syndromes(d, p) == Weighted(d, p)
  {
    if d != [] {
      var n := |d| - 1;
      var x, e := Locator(n), d[n];
      SyndromesAreWeighted(d[..n], p);
      PowersAreLocatorPowers(n);
      p.Expand(x);
      Combine(Eval(d[..n], 16), Eval(d[..n], 8), Eval(d[..n], 4), Eval(d[..n], 2), e,
              x * x * x * x, x * x * x, x * x, x,
              p.a + p.b + p.c, p.a * p.b + p.a * p.c + p.b * p.c, p.a * p.b * p.c);
    }
  }

  lemma Combine(s4: int, s3: int, s2: int, s1: int, e: int, x4: int, x3: int, x2: int, x1: int, l3: int, l2: int,
                l1: int)
    ensures (s4 + e * x4) - l3 * (s3 + e * x3) + l2 * (s2 + e * x2) - l1 * (s1 + e * x1)
         == (s4 - l3 * s3 + l2 * s2 - l1 * s1) + e * (x4 - l3 * x3 + l2 * x2 - l1 * x1)
  {
    assert l3 * (s3 + e * x3) == l3 * s3 + e * (l3 * x3);
    assert l2 * (s2 + e * x2) == l2 * s2 + e * (l2 * x2);
    assert l1 * (s1 + e * x1) == l1 * s1 + e * (l1 * x1);
  }

  lemma CodewordSyndromesVanish(d: seq<int>, p: Quartic)
    requires IsCodeword(d)
    ensures Zero(Syndromes(d, p))
  {
    CombineZeros(Eval(d, 16), Eval(d, 8), Eval(d, 4), Eval(d, 2),
                 p.a + p.b + p.c, p.a * p.b + p.a * p.c + p.b * p.c, p.a * p.b * p.c);
  }

  lemma CombineZeros(s4: int, s3: int, s2: int, s1: int, l3: int, l2: int, l1: int)
    requires Zero(s4) && Zero(s3) && Zero(s2) && Zero(s1)
    ensures Zero(s4 - l3 * s3 + l2 * s2 - l1 * s1)
  {
    ZeroProduct(s3, -l3);
    ZeroProduct(s2, l2);
    ZeroProduct(s1, -l1);
    SumOfFour(s4, -l3 * s3, l2 * s2, -l1 * s1);
  }

  predicate Negligible(d: seq<int>, p: Quartic, i: nat)
    requires i < |d|
  {
    Zero(d[i] * p.At(Locator(i)))
  }

  /** The weighted sum sees only position q when every other position is weighted or filled with zero. */
  lemma {:induction false} OnlyOneWeight(d: seq<int>, p: Quartic, q: nat)
    requires forall i: nat | i < |d| && i != q :: Negligible(d, p, i)
    ensures Zero(Weighted(d, p) - if q < |d| then d[q] * p.At(Locator(q)) else 0)
  {
    if d != [] {
      var n := |d| - 1;
      var front := d[..n];
      forall i: nat | i < n && i != q
        ensures Negligible(front, p, i)
      {
        assert Negligible(d, p, i);
      }
      OnlyOneWeight(front, p, q);
      var w := d[n] * p.At(Locator(n));
      if q != n {
        assert Negligible(d, p, n);
        ZeroSum(w, Weighted(front, p) - if q < n then d[q] * p.At(Locator(q)) else 0);
      }
    }
  }

  lemma QuarticRoots(p: Quartic)
    ensures p.At(p.a) == 0 && p.At(p.b) == 0 && p.At(p.c) == 0
  {
    var t := (p.a - p.b) * (p.a - p.c);
    assert (p.a - p.a) * t == 0;
    assert (p.b - p.b) * (p.b - p.c) == 0;
    assert (p.c - p.b) * (p.c - p.c) == 0;
  }

  lemma QuarticNonzero(p: Quartic, x: int)
    requires !Zero(x) && !Zero(x - p.a) && !Zero(x - p.b) && !Zero(x - p.c)
    ensures !Zero(p.At(x))
  {
    if Zero(p.At(x)) {
      NoZeroDivisors(x, (x - p.a) * ((x - p.b) * (x - p.c)));
      NoZeroDivisors(x - p.a, (x - p.b) * (x - p.c));
      NoZeroDivisors(x - p.b, x - p.c);
    }
  }

  lemma LocatorsDiffer(i: nat, j: nat)
    requires i < 36 && j < 36 && i != j
    ensures !Zero(Locator(i) - Locator(j))
  {
    if i < j {
      DistinctPowers(i, j);
    } else {
      DistinctPowers(j, i);
    }
  }

  /** A codeword of at most 36 symbols whose nonzero symbols lie in four places is zero in the first of them. */
  lemma FourErrorsVanish(d: seq<int>, q: nat, a: nat, b: nat, c: nat)
    requires |d| <= 36 && q < |d| && a < 36 && b < 36 && c < 36
    requires q != a && q != b && q != c
    requires IsCodeword(d)
    requires forall i | 0 <= i < |d| && i != q && i != a && i != b && i != c :: d[i] == 0
    ensures Zero(d[q])
  {
    var w := OnlyWeight(d, q, a, b, c);
    NoZeroDivisors(d[q], w);
  }

  lemma OnlyWeight(d: seq<int>, q: nat, a: nat, b: nat, c: nat) returns (w: int)
    requires |d| <= 36 && q < |d| && a < 36 && b < 36 && c < 36
    requires q != a && q != b && q != c
    requires IsCodeword(d)
    requires forall i | 0 <= i < |d| && i != q && i != a && i != b && i != c :: d[i] == 0
    ensures Zero(d[q] * w) && !Zero(w)
  {
    var p := Quartic(Locator(a), Locator(b), Locator(c));
    w := p.At(Locator(q));
    WeightNonzero(q, a, b, c);
    QuarticRoots(p);
    WeightVanishes(d, p, q);
  }

  lemma WeightVanishes(d: seq<int>, p: Quartic, q: nat)
    requires IsCodeword(d) && q < |d|
    requires forall i: nat | i < |d| && i != q :: Negligible(d, p, i)
    ensures Zero(d[q] * p.At(Locator(q)))
  {
    OnlyOneWeight(d, p, q);
    WeightedVanishes(d, p);
    Remains(Weighted(d, p), d[q] * p.At(Locator(q)));
  }

  lemma WeightedVanishes(d: seq<int>, p: Quartic)
    requires IsCodeword(d)
    ensures Zero(Weighted(d, p))
  {
    CodewordSyndromesVanish(d, p);
    SyndromesAreWeighted(d, p);
  }

  lemma Remains(t: int, u: int)
    requires Zero(t) && Zero(t - u)
    ensures Zero(u)
  {
  }

  lemma WeightNonzero(q: nat, a: nat, b: nat, c: nat)
    requires q < 36 && a < 36 && b < 36 && c < 36 && q != a && q != b && q != c
    ensures !Zero(Quartic(Locator(a), Locator(b), Locator(c)).At(Locator(q)))
  {
    PowerNonzero(q);
    LocatorsDiffer(q, a);
    LocatorsDiffer(q, b);
    LocatorsDiffer(q, c);
    QuarticNonzero(Quartic(Locator(a), Locator(b), Locator(c)), Locator(q));
  }

  function Difference(u: seq<Symbol>, v: seq<Symbol>): (d: seq<int>)
    requires |u| == |v|
    ensures |d| == |u|
  {
    seq<int>(|u|, i requires 0 <= i < |u| => (u[i] as int) - v[i])
  }

  lemma {:induction false} EvalDifference(u: seq<Symbol>, v: seq<Symbol>, y: int)
    requires |u| == |v|
    ensures Eval(Difference(u, v), y) == Eval(u, y) - Eval(v, y)
  {
    if u != [] {
      var n := |u| - 1;
      EvalDifference(u[..n], v[..n], y);
      assert Difference(u, v)[..n] == Difference(u[..n], v[..n]);
      Subtract(u[n], v[n], Pow(y, n));
    }
  }

  lemma Subtract(a: int, b: int, p: int)
    ensures (a - b) * p == a * p - b * p
  {
  }

  lemma DifferenceVanishes(u: seq<Symbol>, v: seq<Symbol>, y: int)
    requires |u| == |v| && Vanishes(u, y) && Vanishes(v, y)
    ensures Vanishes(Difference(u, v), y)
  {
    EvalDifference(u, v, y);
    ZeroSum(Eval(v, y), Eval(u, y));
  }

  lemma DifferenceIsCodeword(u: seq<Symbol>, v: seq<Symbol>)
    requires |u| == |v| && IsCodeword(u) && IsCodeword(v)
    ensures IsCodeword(Difference(u, v))
  {
    DifferenceVanishes(u, v, 2);
    DifferenceVanishes(u, v, 4);
    DifferenceVanishes(u, v, 8);
    DifferenceVanishes(u, v, 16);
  }

  /** Three positions other than q that cover the rest of a set of at most four. */
  lemma CoverByThree(s: set<nat>, q: nat) returns (a: nat, b: nat, c: nat)
    requires q in s && |s| <= 4 && forall i | i in s :: i < 36
    ensures a < 36 && b < 36 && c < 36 && a != q && b != q && c != q
    ensures s <= {q, a, b, c}
  {
    var t1, t2, t3;
    t1, a := TakeOne(s - {q}, q, 3);
    t2, b := TakeOne(t1, q, 2);
    t3, c := TakeOne(t2, q, 1);
    assert t3 == {};
  }

  lemma TakeOne(s: set<nat>, q: nat, n: nat) returns (rest: set<nat>, a: nat)
    requires q !in s && n > 0 && |s| <= n && forall i | i in s :: i < 36
    ensures a < 36 && a != q && rest == s - {a} && |rest| <= n - 1
  {
    if s == {} {
      a := if q == 0 then 1 else 0;
    } else {
      a :| a in s;
    }
    rest := s - {a};
  }

  /** Distinct codewords of the same length, at most 36, differ in at least five positions. */
  lemma CodewordDistance(u: seq<Symbol>, v: seq<Symbol>)
    requires |u| == |v| <= 36 && IsCodeword(u) && IsCodeword(v) && u != v
    ensures |Differing(u, v)| >= 5
  {
    if |Differing(u, v)| <= 4 {
      var q :| 0 <= q < |u| && u[q] != v[q];
      AgreesAt(u, v, q);
      assert false;
    }
  }

  /** Codewords that differ in at most four positions agree in each of them. */
  lemma AgreesAt(u: seq<Symbol>, v: seq<Symbol>, q: nat)
    requires |u| == |v| <= 36 && IsCodeword(u) && IsCodeword(v) && |Differing(u, v)| <= 4 && q < |u|
    ensures u[q] == v[q]
  {
    var s, d := Differing(u, v), Difference(u, v);
    if Differs(u, v, q) {
      var a, b, c := CoverByThree(s, q);
      DifferenceIsCodeword(u, v);
      forall i | 0 <= i < |d| && i != q && i != a && i != b && i != c
        ensures d[i] == 0
      {
        assert i !in s;
        assert !Differs(u, v, i);
      }
      FourErrorsVanish(d, q, a, b, c);
    }
  }

  /** Minimum distance five: two different messages of at most 32 symbols, each with its checksum,
      differ in at least five positions. */
  lemma MinimumDistance(m: seq<Symbol>, n: seq<Symbol>)
    requires |m| == |n| <= 32 && m != n
    ensures |Differing(m + ChecksumOf(m), n + ChecksumOf(n))| >= 5
  {
    var u, v := m + ChecksumOf(m), n + ChecksumOf(n);
    assert u[..|m|] == m && v[..|m|] == n;
    ChecksumCompletesCodeword(m);
    ChecksumCompletesCodeword(n);
    CodewordDistance(u, v);
  }

  /** A codeword of at most 36 symbols is exactly a message with its checksum. */
  lemma CodewordsAreChecksummed(word: seq<Symbol>)
    requires 4 <= |word| <= 36
    ensures IsCodeword(word) <==> word[|word| - 4..] == ChecksumOf(word[..|word| - 4])
  {
    var n := |word| - 4;
    var m := word[..n];
    var honest := m + ChecksumOf(m);
    ChecksumCompletesCodeword(m);
    if IsCodeword(word) && word != honest {
      CodewordDistance(word, honest);
      assert Differing(word, honest) <= {n, n + 1, n + 2, n + 3};
      SubsetSize(Differing(word, honest), {n, n + 1, n + 2, n + 3});
    }
    assert word == m + word[n..];
  }

  lemma {:induction false} SubsetSize<T>(s: set<T>, t: set<T>)
    requires s <= t
    ensures |s| <= |t|
    decreases s
  {
    if s != {} {
      var x :| x in s;
      SubsetSize(s - {x}, t - {x});
    }
  }

  function Zeros(n: nat): seq<Symbol> {
    seq(n, i => 0)
  }

  lemma {:induction false} RunZeros(n: nat)
    ensures Run(Zeros(n)) == Registers(0, 0, 0, 0)
  {
    if n > 0 {
      RunZeros(n - 1);
      assert Zeros(n)[..n - 1] == Zeros(n - 1);
    }
  }

  /** Five is exact: two 32-symbol messages that differ only in the last symbol, with codewords five apart. */
  lemma DistanceIsExactlyFive()
    ensures var m, n := Zeros(31) + [0], Zeros(31) + [1];
            |Differing(m + ChecksumOf(m), n + ChecksumOf(n))| == 5
  {
    ChecksumAfterZeros(0);
    ChecksumAfterZeros(1);
    FiveDiffer(Zeros(31));
  }

  lemma ChecksumAfterZeros(x: Symbol)
    requires x <= 1
    ensures ChecksumOf(Zeros(31) + [x]) == if x == 0 then [0, 0, 0, 0] else [6, 26, 21, 3]
  {
    RunZeros(31);
    assert (Zeros(31) + [x])[..31] == Zeros(31);
    assert Turn(Registers(0, 0, 0, 0), 0) == Registers(0, 0, 0, 0);
    assert Turn(Registers(0, 0, 0, 0), 1) == Registers(31, 11, 16, 34);
  }

  lemma FiveDiffer(z: seq<Symbol>)
    requires |z| == 31
    ensures |Differing(z + [0] + [0, 0, 0, 0], z + [1] + [6, 26, 21, 3])| == 5
  {
    var five: set<nat> := {31, 32, 33, 34, 35};
    assert Differing(z + [0] + [0, 0, 0, 0], z + [1] + [6, 26, 21, 3]) == five;
    assert |five| == 5;
  }
}
