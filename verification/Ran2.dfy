/** The ran2 generator of aux::RandomNumberGenerator: two multiplicative
    generators, multiplied by Schrage's method, and a shuffle table. */
module Ran2 {

  const IM1: int := 2147483563
  const IM2: int := 2147483399
  const IMM1: int := IM1 - 1
  const IA1: int := 40014
  const IA2: int := 40692
  const IQ1: int := 53668
  const IQ2: int := 52774
  const IR1: int := 12211
  const IR2: int := 3791
  const NTAB: nat := 32
  const NDIV: int := 1 + IMM1 / NTAB

  // ----- Schrage's multiplication

  /** The two statements with `k`, before a negative result is corrected. */
  function Uncorrected(x: int, a: int, q: int, r: int): int
    requires q > 0
  {
    a * (x - x / q * q) - x / q * r
  }

  function Schrage(x: int, a: int, q: int, r: int, m: int): int
    requires q > 0
  {
    var y := Uncorrected(x, a, q, r);
    if y < 0 then y + m else y
  }

  /** Constants for which Schrage's method works. */
  ghost predicate IsSchrage(a: int, q: int, r: int, m: int) {
    a > 0 && 0 <= r < q && m == a * q + r && m <= 0x8000_0000
  }

  lemma Constants()
    ensures IsSchrage(IA1, IQ1, IR1, IM1) && IsSchrage(IA2, IQ2, IR2, IM2)
    ensures IM1 == 2147483563 && IM2 == 2147483399 && IMM1 == 2147483562 && NTAB == 32
  {
  }

  lemma MulMonotone(a: int, b: int, c: int)
    requires a >= 0 && b <= c
    ensures a * b <= a * c
  {
  }

  lemma OneMore(a: int, b: int)
    ensures a * (b + 1) == a * b + a
  {
  }

  lemma QuotientAtMost(x: int, a: int, q: int, r: int, k: int, s: int)
    requires 0 <= r < q && x == q * k + s && 0 <= s && x < q * a + r
    ensures k <= a
  {
    OneMore(q, a);
    if k > a { MulMonotone(q, a + 1, k); }
  }

  lemma QuotientNotNegative(x: int, q: int, k: int, s: int)
    requires q > 0 && x == q * k + s && s < q && x >= 0
    ensures k >= 0
  {
    if k < 0 { MulMonotone(q, k, -1); }
  }

  /** No intermediate result leaves 32 bits ... */
  lemma NoOverflow(x: int, a: int, q: int, r: int, m: int, k: int, s: int)
    requires IsSchrage(a, q, r, m) && 0 <= x < m && x == q * k + s && 0 <= s < q
    ensures 0 <= k <= a && 0 <= q * k <= x && 0 <= a * s < m && 0 <= k * r < m
    ensures -0x8000_0000 <= -m < a * s - k * r < m <= 0x8000_0000
  {
    assert a * q == q * a;
    QuotientAtMost(x, a, q, r, k, s);
    QuotientNotNegative(x, q, k, s);
    MulMonotone(q, 0, k);
    MulMonotone(a, 0, s);
    MulMonotone(a, s, q - 1);
    OneMore(a, q - 1);
    MulMonotone(r, 0, k);
    MulMonotone(r, k, a);
    MulMonotone(a, r, q - 1);
    assert k * r == r * k && r * a == a * r;
  }

  lemma SplitProduct(x: int, a: int, q: int, r: int, k: int, s: int)
    requires x == q * k + s
    ensures a * x == k * (a * q + r) + (a * s - k * r)
  {
    assert a * (q * k) == k * (a * q);
    assert k * (a * q + r) == k * (a * q) + k * r;
    assert a * (q * k + s) == a * (q * k) + a * s;
  }

  lemma ModuloUnique(n: int, k: int, y: int, m: int)
    requires m > 0 && n == m * k + y && 0 <= y < m
    ensures n % m == y
  {
    OneMore(m, k);
    OneMore(m, n / m);
    if n / m > k { MulMonotone(m, k + 1, n / m); }
    if n / m < k { MulMonotone(m, n / m + 1, k); }
  }

  lemma UncorrectedIs(x: int, a: int, q: int, r: int)
    requires q > 0
    ensures x == q * (x / q) + x % q && 0 <= x % q < q
    ensures Uncorrected(x, a, q, r) == a * (x % q) - x / q * r
  {
    assert x / q * q == q * (x / q);
  }

  /** ... and the result is the product modulo `m`. */
  lemma SchrageIsModular(x: int, a: int, q: int, r: int, m: int)
    requires IsSchrage(a, q, r, m) && 0 <= x < m
    ensures Schrage(x, a, q, r, m) == a * x % m
    ensures -0x8000_0000 <= -m < Uncorrected(x, a, q, r) < m <= 0x8000_0000
  {
    UncorrectedIs(x, a, q, r);
    var k, s, y := x / q, x % q, Uncorrected(x, a, q, r);
    hide Uncorrected;
    NoOverflow(x, a, q, r, m, k, s);
    SplitProduct(x, a, q, r, k, s);
    assert m * k == k * m;
    if y >= 0 {
      ModuloUnique(a * x, k, y, m);
    } else {
      OneMore(m, k - 1);
      ModuloUnique(a * x, k - 1, y + m, m);
    }
  }

  // ----- ranges

  /** Multiplication by `a` never reaches 0, since it can be undone by `inverse`. */
  lemma NeverZero(x: int, a: int, m: int, inverse: int)
    requires 0 < x < m && a * inverse % m == 1
    ensures 0 < a * x % m < m
  {
    if a * x % m == 0 {
      var c, d := a * x / m, a * inverse / m;
      assert a * x == m * c;
      assert a * inverse == m * d + 1;
      Cancel(x, a, m, inverse, c, d);
      ModuloUnique(x, 0, x, m);
      MultipleIsZero(x, m, inverse * c - d * x);
    }
  }

  lemma Cancel(x: int, a: int, m: int, inverse: int, c: int, d: int)
    requires a * x == m * c && a * inverse == m * d + 1
    ensures x == m * (inverse * c - d * x)
  {
    assert a * inverse * x == inverse * (a * x);
    assert inverse * (m * c) == m * (inverse * c);
    assert (m * d + 1) * x == m * (d * x) + x;
    assert m * (inverse * c - d * x) == m * (inverse * c) - m * (d * x);
  }

  lemma MultipleIsZero(x: int, m: int, k: int)
    requires m > 0 && x == m * k
    ensures x % m == 0
  {
    ModuloUnique(x, k, 0, m);
  }

  lemma Inverses()
    ensures IA1 * 2082061899 % IM1 == 1 && IA2 * 1481316021 % IM2 == 1
  {
  }

  /** One step of the first generator. */
  function Step1(x: int): int {
    Schrage(x, IA1, IQ1, IR1, IM1)
  }

  function Step2(x: int): int {
    Schrage(x, IA2, IQ2, IR2, IM2)
  }

  lemma StepsInRange(x: int)
    ensures 0 < x < IM1 ==> 0 < Step1(x) == 40014 * x % 2147483563 < IM1
    ensures 0 < x < IM2 ==> 0 < Step2(x) == 40692 * x % 2147483399 < IM2
  {
    hide Schrage;
    Constants();
    Inverses();
    if 0 < x < IM1 {
      SchrageIsModular(x, IA1, IQ1, IR1, IM1);
      NeverZero(x, IA1, IM1, 2082061899);
    }
    if 0 < x < IM2 {
      SchrageIsModular(x, IA2, IQ2, IR2, IM2);
      NeverZero(x, IA2, IM2, 1481316021);
    }
  }

  // ----- powers

  function Power(a: int, n: nat): int {
    if n == 0 then 1 else a * Power(a, n - 1)
  }

  lemma ModTimes(a: int, x: int, m: int)
    requires m > 0
    ensures a * (x % m) % m == a * x % m
  {
    var c := x / m;
    assert x == m * c + x % m;
    var y := a * (x % m);
    assert a * (m * c) == m * (a * c);
    assert a * x == m * (a * c) + y;
    assert y == m * (y / m) + y % m;
    assert m * (a * c) + m * (y / m) == m * (a * c + y / m);
    ModuloUnique(a * x, a * c + y / m, y % m, m);
  }

  /** One more step multiplies the power by `a`. */
  lemma PowerStep(a: int, n: nat, seed: int, m: int)
    requires m > 0
    ensures a * (Power(a, n) * seed % m) % m == Power(a, n + 1) * seed % m
  {
    ModTimes(a, Power(a, n) * seed, m);
    assert a * (Power(a, n) * seed) == a * Power(a, n) * seed;
  }

  /** The first generator after `n` steps from `seed`. */
  ghost function First(seed: int, n: nat): int {
    Power(IA1, n) * seed % IM1
  }

  ghost function Second(seed: int, n: nat): int {
    Power(IA2, n) * seed % IM2
  }

  lemma {:induction false} PowersInRange(seed: int, n: nat)
    requires 0 < seed < IM2
    ensures 0 < First(seed, n) < IM1 && 0 < Second(seed, n) < IM2
  {
    if n == 0 {
      FirstPowers(seed);
    } else {
      PowersInRange(seed, n - 1);
      NextPowers(seed, n - 1);
    }
  }

  /** One Schrage step moves each generator on by one power. */
  lemma NextPowers(seed: int, n: nat)
    ensures 0 < First(seed, n) < IM1 ==> 0 < Step1(First(seed, n)) == First(seed, n + 1) < IM1
    ensures 0 < Second(seed, n) < IM2 ==> 0 < Step2(Second(seed, n)) == Second(seed, n + 1) < IM2
  {
    hide Step1, Step2, Power;
    PowerStep(IA1, n, seed, IM1);
    PowerStep(IA2, n, seed, IM2);
    StepsInRange(First(seed, n));
    StepsInRange(Second(seed, n));
  }

  lemma FirstPowers(seed: int)
    requires 0 < seed < IM2
    ensures First(seed, 0) == seed && Second(seed, 0) == seed
  {
    ModuloUnique(seed, 0, seed, IM1);
    ModuloUnique(seed, 0, seed, IM2);
  }

  // ----- the shuffled sequence

  /** The table of the shuffle and the number drawn last. */
  datatype Shuffle = Shuffle(table: seq<int>, y: int)

  ghost predicate ShuffleOk(s: Shuffle) {
    |s.table| == NTAB && 0 < s.y <= IMM1 && forall j :: 0 <= j < NTAB ==> 0 < s.table[j] < IM1
  }

  /** The shuffle after `n` calls: the last number chooses a place of the table,
      which is combined with the second generator and refilled by the first. */
  ghost function Mixed(seed: int, n: nat): (s: Shuffle)
    requires 0 < seed < IM2
    ensures ShuffleOk(s)
  {
    if n == 0 then
      InitialInRange(seed);
      InitialShuffle(seed)
    else
      MixedInRange(Mixed(seed, n - 1), First(seed, n + NTAB + 8), Second(seed, n), seed, n);
      Mix(Mixed(seed, n - 1), First(seed, n + NTAB + 8), Second(seed, n))
  }

  /** The table is filled from its end. */
  ghost function InitialShuffle(seed: int): Shuffle {
    Shuffle(seq<int>(NTAB, j requires 0 <= j < NTAB => First(seed, NTAB + 8 - j)), First(seed, NTAB + 8))
  }

  ghost function Mix(s: Shuffle, x1: int, x2: int): Shuffle
    requires ShuffleOk(s)
  {
    TableIndex(s.y);
    var j := s.y / NDIV;
    var y := s.table[j] - x2;
    Shuffle(s.table[j := x1], if y < 1 then y + IMM1 else y)
  }

  lemma InitialInRange(seed: int)
    requires 0 < seed < IM2
    ensures ShuffleOk(InitialShuffle(seed))
  {
    hide First, Second;
    forall n: nat ensures 0 < First(seed, n) < IM1 { PowersInRange(seed, n); }
  }

  lemma MixedInRange(s: Shuffle, x1: int, x2: int, seed: int, n: nat)
    requires ShuffleOk(s) && 0 < seed < IM2 && x1 == First(seed, n + NTAB + 8) && x2 == Second(seed, n)
    ensures ShuffleOk(Mix(s, x1, x2))
  {
    hide First, Second;
    PowersInRange(seed, n + NTAB + 8);
    PowersInRange(seed, n);
    TableIndex(s.y);
  }

  /** The shuffle index never leaves the table. */
  lemma TableIndex(iy: int)
    requires 0 < iy <= IMM1
    ensures 0 <= iy / NDIV == iy / 67108862 < NTAB == 32
  {
  }

  // ----- the generator

  /** What ran2_rand_init makes of a seed. */
  function SeedOf(seed: int): int {
    if seed == 0 then 1 else if seed < 0 then -seed else seed
  }

  /** `AM * iy`, but at most RNMX. */
  function Clipped(iy: int): real {
    var am, rnmx := 1.0 / (IM1 as real), 1.0 - 0.00000012;
    if am * (iy as real) > rnmx then rnmx else am * (iy as real)
  }

  lemma ClippedInside(iy: int)
    requires 0 < iy <= IMM1
    ensures 0.0 < Clipped(iy) < 1.0
    ensures Clipped(iy) == iy as real / IM1 as real || Clipped(iy) == 1.0 - 0.00000012 < iy as real / IM1 as real
  {
  }

  /** The last statements of ran2_rand_real. */
  method Scaled(iy: int) returns (r: real)
    ensures r == Clipped(iy)
  {
    var am, rnmx := 1.0 / (IM1 as real), 1.0 - 0.00000012;
    var temp := am * (iy as real);
    r := if temp > rnmx then rnmx else temp;
  }

  class Generator {
    var idum: int
    var idum2: int
    var iy: int
    const iv: array<int>
    // for the specification: the seed and the number of results so far
    ghost var seed: int
    ghost var calls: nat

    /** The fields are where the seed and the number of calls put them. */
    ghost predicate Valid()
      reads this, iv
    {
      && 0 < seed < IM2 && idum == First(seed, calls + NTAB + 8) && idum2 == Second(seed, calls)
      && Shuffle(iv[..], iy) == Mixed(seed, calls)
    }

    constructor ()
      ensures iv.Length == NTAB && fresh(iv)
    {
      iv := new int[NTAB](_ => 0);
      idum, idum2, iy := 0, 123456789, 0;
      seed, calls := 0, 0;
    }

    /** One Schrage step of the first generator, statement by statement. */
    method Advance1(ghost s: int, ghost n: nat)
      requires 0 < s < IM2 && idum == First(s, n)
      modifies this`idum
      ensures idum == First(s, n + 1)
    {
      hide First;
      PowersInRange(s, n);
      NextPowers(s, n);
      var k := idum / IQ1;
      idum := IA1 * (idum - k * IQ1) - k * IR1;
      if idum < 0 { idum := idum + IM1; }
      assert idum == Step1(First(s, n));
    }

    method Advance2(ghost s: int, ghost n: nat)
      requires 0 < s < IM2 && idum2 == Second(s, n)
      modifies this`idum2
      ensures idum2 == Second(s, n + 1)
    {
      hide Second;
      PowersInRange(s, n);
      NextPowers(s, n);
      var k := idum2 / IQ2;
      idum2 := IA2 * (idum2 - k * IQ2) - k * IR2;
      if idum2 < 0 { idum2 := idum2 + IM2; }
      assert idum2 == Step2(Second(s, n));
    }

    /** ran2_rand_init: eight warm-up steps, then the shuffle table is filled. */
    method RandInit(newSeed: int)
      requires SeedOf(newSeed) < IM2 && iv.Length == NTAB
      modifies this, iv
      ensures Valid() && seed == SeedOf(newSeed) && calls == 0
    {
      hide First, Second;
      idum := newSeed;
      if idum == 0 { idum := 1; }
      if idum < 0 { idum := -idum; }
      idum2 := idum;
      seed, calls := idum, 0;
      FirstPowers(seed);
      var j := NTAB + 7;
      while j >= 0
        invariant -1 <= j <= NTAB + 7 && seed == SeedOf(newSeed) && calls == 0
        invariant idum == First(seed, NTAB + 7 - j) && idum2 == Second(seed, 0)
        invariant forall i :: j < i < NTAB ==> iv[i] == First(seed, NTAB + 8 - i)
      {
        Advance1(seed, NTAB + 7 - j);
        if j < NTAB { iv[j] := idum; }
        j := j - 1;
      }
      iy := iv[0];
      assert iv[..] == InitialShuffle(seed).table;
    }

    /** ran2_rand_real, with exact numbers in place of rounded ones. */
    method RandReal() returns (r: real)
      requires Valid()
      modifies this, iv
      ensures Valid() && seed == old(seed) && calls == old(calls) + 1
      ensures r == Clipped(Mixed(seed, calls).y)
    {
      hide First, Second, Clipped;
      ghost var before := Mixed(seed, calls);
      Advance1(seed, calls + NTAB + 8);
      Advance2(seed, calls);
      calls := calls + 1;
      TableIndex(iy);
      var j := iy / NDIV;
      iy := iv[j] - idum2;
      iv[j] := idum;
      if iy < 1 { iy := iy + IMM1; }
      assert Shuffle(iv[..], iy) == Mix(before, idum, idum2);
      r := Scaled(iy);
    }
  }

  /** After seeding, result `i` is that of the shuffled sequence, and lies
      strictly between 0 and 1. */
  method Generate(seed: int, n: nat) returns (results: seq<real>)
    requires SeedOf(seed) < IM2
    ensures |results| == n && forall i :: 0 <= i < n ==> results[i] == Clipped(Mixed(SeedOf(seed), i + 1).y)
    ensures forall i :: 0 <= i < n ==> 0.0 < results[i] < 1.0
  {
    hide Mixed, Clipped, First, Second;
    var g := new Generator();
    g.RandInit(seed);
    results := [];
    for i := 0 to n
      invariant fresh(g) && fresh(g.iv) && g.Valid() && g.seed == SeedOf(seed) && g.calls == i
      invariant |results| == i && forall j :: 0 <= j < i ==>
                  results[j] == Clipped(Mixed(SeedOf(seed), j + 1).y) && 0.0 < results[j] < 1.0
    {
      var r := g.RandReal();
      ClippedInside(Mixed(g.seed, g.calls).y);
      results := results + [r];
    }
  }
}
