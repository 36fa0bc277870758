/** The Adler-32 checksum (RFC 1950, section 2.2), reduced only once per 5550 bytes. */
module Adler32 {
  import opened Bits

  newtype uint32 = x: int | 0 <= x < 0x1_0000_0000

  function Reduce(x: nat): nat {
    x % 65521
  }

  /** Both sums. */
  datatype Sums = Sums(s1: nat, s2: nat)

  /** The standard's definition: every sum is taken modulo 65521. */
  ghost function AdlerFrom(start: Sums, data: seq<byte>): Sums {
    if data == [] then start
    else
      var n := |data| - 1;
      var before := AdlerFrom(start, data[..n]);
      var s1 := Reduce(before.s1 + data[n]);
      Sums(s1, Reduce(before.s2 + s1))
  }

  ghost function Join(s: Sums): int {
    s.s2 * 65536 + s.s1
  }

  ghost function Split(adler: uint32): Sums {
    Sums(adler as nat % 65536, adler as nat / 65536)
  }

  ghost function Checksum(data: seq<byte>): int {
    Join(AdlerFrom(Sums(1, 0), data))
  }

  lemma {:induction false} AdlerReduced(start: Sums, data: seq<byte>)
    requires data != []
    ensures AdlerFrom(start, data).s1 < 65521 && AdlerFrom(start, data).s2 < 65521
  {
  }

  lemma AdlerSnoc(start: Sums, all: seq<byte>, front: seq<byte>, last: byte)
    requires all == front + [last]
    ensures AdlerFrom(start, all) == AdlerFrom(AdlerFrom(start, front), [last])
  {
    hide Reduce;
    assert all[..|all| - 1] == front && [last][..0] == [];
  }

  /** The checksum of a stream can be continued. */
  lemma {:induction false} AdlerConcat(start: Sums, a: seq<byte>, b: seq<byte>)
    ensures AdlerFrom(start, a + b) == AdlerFrom(AdlerFrom(start, a), b)
    decreases |b|
  {
    if b == [] {
      assert a + b == a;
    } else {
      hide Reduce;
      AdlerConcat(start, a, b[..|b| - 1]);
      AdlerSnoc(start, a + b, a + b[..|b| - 1], b[|b| - 1]);
      AdlerSnoc(AdlerFrom(start, a), b, b[..|b| - 1], b[|b| - 1]);
    }
  }

  // ----- the sums without reduction

  function SumOf(data: seq<byte>): nat {
    if data == [] then 0 else SumOf(data[..|data| - 1]) + data[|data| - 1]
  }

  /** The sum of the first sums of all beginnings of `data`. */
  function SumOfSums(data: seq<byte>): nat {
    if data == [] then 0 else SumOfSums(data[..|data| - 1]) + 1 + SumOf(data)
  }

  lemma ReduceAdd(a: nat, b: nat, x: nat)
    requires Reduce(a) == Reduce(b)
    ensures Reduce(a + x) == Reduce(b + x)
  {
  }

  lemma ReduceTwice(a: nat)
    ensures Reduce(Reduce(a)) == Reduce(a) < 65521
  {
  }

  /** One more byte, reduced or not. */
  lemma SumsStep(start: Sums, data: seq<byte>, s1: nat, s2: nat)
    requires data != []
    requires Reduce(s1) == Reduce(AdlerFrom(start, data[..|data| - 1]).s1)
    requires Reduce(s2) == Reduce(AdlerFrom(start, data[..|data| - 1]).s2)
    ensures Reduce(s1 + data[|data| - 1]) == AdlerFrom(start, data).s1
    ensures Reduce(s2 + s1 + data[|data| - 1]) == AdlerFrom(start, data).s2
  {
    hide Reduce;
    var before, b := AdlerFrom(start, data[..|data| - 1]), data[|data| - 1];
    var sum := Reduce(before.s1 + b);
    ReduceAdd(s1, before.s1, b);
    ReduceTwice(s1 + b);
    ReduceAdd(s1 + b, sum, s2);
    ReduceAdd(s2, before.s2, sum);
    assert s2 + s1 + b == s1 + b + s2;
  }

  /** Reducing at the end is the same as reducing always. */
  lemma {:induction false} AdlerClosedForm(data: seq<byte>)
    ensures AdlerFrom(Sums(1, 0), data) == Sums(Reduce(1 + SumOf(data)), Reduce(SumOfSums(data)))
  {
    hide Reduce;
    ReduceSmall();
    if data != [] {
      var n := |data| - 1;
      AdlerClosedForm(data[..n]);
      ReduceTwice(1 + SumOf(data[..n]));
      ReduceTwice(SumOfSums(data[..n]));
      SumsStep(Sums(1, 0), data, 1 + SumOf(data[..n]), SumOfSums(data[..n]));
      AdlerReduced(Sums(1, 0), data);
    }
  }

  lemma ReduceSmall()
    ensures forall x: nat {:trigger Reduce(x)} :: x < 65521 ==> Reduce(x) == x
  {
  }

  lemma {:induction false} SumOfUpdate(data: seq<byte>, i: nat, b: byte)
    requires i < |data|
    ensures SumOf(data[i := b]) == SumOf(data) - data[i] + b
  {
    var n := |data| - 1;
    if i < n {
      SumOfUpdate(data[..n], i, b);
      assert data[i := b][..n] == data[..n][i := b];
    } else {
      assert data[i := b][..n] == data[..n];
    }
  }

  lemma CloseNumbersDiffer(x: nat, y: nat)
    requires x != y && -256 < x - y < 256
    ensures Reduce(x) != Reduce(y)
  {
  }

  lemma JoinInjective(a: Sums, b: Sums)
    requires a.s1 < 65536 && b.s1 < 65536 && Join(a) == Join(b)
    ensures a == b
  {
  }

  /** Changing a single byte always changes the checksum. */
  lemma OneByteIsDetected(data: seq<byte>, i: nat, b: byte)
    requires i < |data| && data[i] != b
    ensures Checksum(data[i := b]) != Checksum(data)
  {
    hide AdlerFrom, SumOf, SumOfSums, Join, Reduce;
    AdlerClosedForm(data);
    AdlerClosedForm(data[i := b]);
    ReduceTwice(1 + SumOf(data));
    ReduceTwice(1 + SumOf(data[i := b]));
    SumOfUpdate(data, i, b);
    CloseNumbersDiffer(1 + SumOf(data), 1 + SumOf(data[i := b]));
    if Checksum(data[i := b]) == Checksum(data) {
      JoinInjective(AdlerFrom(Sums(1, 0), data[i := b]), AdlerFrom(Sums(1, 0), data));
    }
  }

  // ----- the fast form

  function Triangle(n: nat): nat {
    if n == 0 then 0 else Triangle(n - 1) + n
  }

  lemma {:induction false} TriangleClosed(n: nat)
    ensures 2 * Triangle(n) == n * (n + 1)
  {
    if n > 0 { TriangleClosed(n - 1); }
  }

  lemma {:induction false} TriangleMonotone(n: nat, m: nat)
    requires n <= m
    ensures Triangle(n) <= Triangle(m)
    decreases m - n
  {
    if n < m { TriangleMonotone(n + 1, m); }
  }

  /** 5550 bytes are few enough: the bound is just below 2^32. */
  lemma SecondSumFits(n: nat)
    requires n <= 5550
    ensures 65535 + 65535 * n + 255 * Triangle(n) < 0x1_0000_0000
  {
    TriangleMonotone(n, 5550);
    TriangleClosed(5550);
  }

  /** `n` bytes without reduction, which must not overflow 32 bits. */
  method AddBytes(s1_0: uint32, s2_0: uint32, data: seq<byte>) returns (s1: uint32, s2: uint32)
    requires |data| <= 5550 && s1_0 <= 65535 && s2_0 <= 65535
    ensures Reduce(s1 as nat) == Reduce(AdlerFrom(Sums(s1_0 as nat, s2_0 as nat), data).s1)
    ensures Reduce(s2 as nat) == Reduce(AdlerFrom(Sums(s1_0 as nat, s2_0 as nat), data).s2)
  {
    hide AdlerFrom, Reduce;
    s1, s2 := s1_0, s2_0;
    ghost var start := Sums(s1_0 as nat, s2_0 as nat);
    NoBytes(start);
    assert data[..0] == [];
    for i := 0 to |data|
      invariant s1 as nat <= 65535 + 255 * i
      invariant s2 as nat <= 65535 + 65535 * i + 255 * Triangle(i)
      invariant Reduce(s1 as nat) == Reduce(AdlerFrom(start, data[..i]).s1)
      invariant Reduce(s2 as nat) == Reduce(AdlerFrom(start, data[..i]).s2)
    {
      assert data[..i + 1][..i] == data[..i];
      SumsStep(start, data[..i + 1], s1 as nat, s2 as nat);
      ReduceTwice(s1 as nat + data[i]);
      ReduceTwice(s2 as nat + s1 as nat + data[i]);
      SecondSumFits(i + 1);
      s1 := s1 + data[i] as uint32;
      s2 := s2 + s1;
    }
    assert data[..|data|] == data;
  }

  lemma NoBytes(start: Sums)
    ensures AdlerFrom(start, []) == start
  {
  }

  /** update_adler32 */
  method UpdateAdler32(adler: uint32, data: seq<byte>) returns (result: uint32)
    ensures result as nat == Join(AdlerFrom(Split(adler), data))
  {
    hide AdlerFrom;
    NoBytes(Split(adler));
    var s1, s2 := adler % 65536, adler / 65536;
    var pos := 0;
    assert data[..0] == [];
    while pos < |data|
      invariant pos <= |data| && s1 <= 65535 && s2 <= 65535
      invariant AdlerFrom(Split(adler), data[..pos]) == Sums(s1 as nat, s2 as nat)
    {
      ghost var pos0 := pos;
      var amount := if |data| - pos > 5550 then 5550 else |data| - pos;
      AdlerConcat(Split(adler), data[..pos], data[pos..pos + amount]);
      AdlerReduced(Sums(s1 as nat, s2 as nat), data[pos..pos + amount]);
      assert data[..pos] + data[pos..pos + amount] == data[..pos + amount];
      s1, s2 := AddBytes(s1, s2, data[pos..pos + amount]);
      pos := pos + amount;
      s1, s2 := s1 % 65521, s2 % 65521;
    }
    assert data[..|data|] == data;
    result := s2 * 65536 + s1;
  }

  /** adler32 */
  method ComputeAdler32(data: seq<byte>) returns (result: uint32)
    ensures result as nat == Checksum(data)
  {
    hide AdlerFrom;
    result := UpdateAdler32(1, data);
  }
}
