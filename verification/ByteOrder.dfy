/** aux::Endianness: what is stored through it is big-endian on every machine. */
module ByteOrder {
  import opened Bits

  datatype EndiannessType = Little | Big

  function Pow256(n: nat): (p: nat)
    ensures p > 0
  {
    if n == 0 then 1 else 256 * Pow256(n - 1)
  }

  /** How a machine with the least significant byte first stores `n` bytes. */
  function LittleEndian(v: nat, n: nat): (b: seq<byte>)
    ensures |b| == n
  {
    if n == 0 then [] else [v % 256] + LittleEndian(v / 256, n - 1)
  }

  function BigEndian(v: nat, n: nat): (b: seq<byte>)
    ensures |b| == n
  {
    if n == 0 then [] else BigEndian(v / 256, n - 1) + [v % 256]
  }

  function FromBigEndian(b: seq<byte>): nat {
    if b == [] then 0 else 256 * FromBigEndian(b[..|b| - 1]) + b[|b| - 1]
  }

  lemma {:induction false} BigEndianInverse(v: nat, n: nat)
    requires v < Pow256(n)
    ensures FromBigEndian(BigEndian(v, n)) == v
  {
    if n > 0 {
      BigEndianInverse(v / 256, n - 1);
      assert BigEndian(v, n)[..n - 1] == BigEndian(v / 256, n - 1);
    }
  }

  lemma {:induction false} ZerosAreZero(b: seq<byte>)
    requires forall i :: 0 <= i < |b| ==> b[i] == 0
    ensures FromBigEndian(b) == 0
  {
    if b != [] { ZerosAreZero(b[..|b| - 1]); }
  }

  lemma Pow256Values()
    ensures Pow256(1) == 256 && Pow256(2) == 0x1_0000 && Pow256(4) == 0x1_0000_0000
            && Pow256(8) == 0x1_0000_0000_0000_0000
  {
    assert Pow256(4) == 256 * Pow256(3) && Pow256(3) == 256 * Pow256(2) && Pow256(2) == 256 * Pow256(1);
    assert Pow256(8) == 256 * Pow256(7) && Pow256(7) == 256 * Pow256(6) && Pow256(6) == 256 * Pow256(5)
        && Pow256(5) == 256 * Pow256(4);
  }

  // ----- the swaps

  function Swap16(v: nat): nat {
    v / 0x100 % 0x100 + v % 0x100 * 0x100
  }

  function Swap32(v: nat): nat {
    Swap16(v % 0x1_0000) * 0x1_0000 + Swap16(v / 0x1_0000)
  }

  function Swap64(v: nat): nat {
    Swap32(v % 0x1_0000_0000) * 0x1_0000_0000 + Swap32(v / 0x1_0000_0000)
  }

  lemma {:induction false} LittleEndianJoin(hi: nat, lo: nat, n: nat, m: nat)
    requires lo < Pow256(n)
    ensures LittleEndian(hi * Pow256(n) + lo, n + m) == LittleEndian(lo, n) + LittleEndian(hi, m)
    decreases n
  {
    if n > 0 {
      var v := hi * Pow256(n) + lo;
      DivideSum(hi, Pow256(n - 1), lo);
      assert v % 256 == lo % 256 && v / 256 == hi * Pow256(n - 1) + lo / 256;
      LittleEndianJoin(hi, lo / 256, n - 1, m);
    }
  }

  lemma DivideSum(hi: nat, p: nat, lo: nat)
    ensures (hi * (256 * p) + lo) % 256 == lo % 256 && (hi * (256 * p) + lo) / 256 == hi * p + lo / 256
  {
    assert hi * (256 * p) == 256 * (hi * p);
  }

  lemma {:induction false} BigEndianJoin(hi: nat, lo: nat, n: nat, m: nat)
    requires lo < Pow256(n)
    ensures BigEndian(hi * Pow256(n) + lo, m + n) == BigEndian(hi, m) + BigEndian(lo, n)
    decreases n
  {
    if n > 0 {
      var v := hi * Pow256(n) + lo;
      DivideSum(hi, Pow256(n - 1), lo);
      assert v % 256 == lo % 256 && v / 256 == hi * Pow256(n - 1) + lo / 256;
      BigEndianJoin(hi, lo / 256, n - 1, m);
    }
  }

  lemma Swap16Stores(v: nat)
    requires v < 0x1_0000
    ensures LittleEndian(Swap16(v), 2) == BigEndian(v, 2) && Swap16(v) < 0x1_0000
  {
    var s := Swap16(v);
    assert s % 256 == v / 256 && s / 256 == v % 256;
    assert LittleEndian(s, 2) == [s % 256] + LittleEndian(s / 256, 1);
    assert BigEndian(v, 2) == BigEndian(v / 256, 1) + [v % 256];
    assert LittleEndian(s / 256, 1) == [s / 256 % 256] + LittleEndian(s / 256 / 256, 0);
    assert BigEndian(v / 256, 1) == BigEndian(v / 256 / 256, 0) + [v / 256 % 256];
  }

  lemma Swap32Stores(v: nat)
    requires v < 0x1_0000_0000
    ensures LittleEndian(Swap32(v), 4) == BigEndian(v, 4) && Swap32(v) < 0x1_0000_0000
  {
    hide LittleEndian, BigEndian, Swap16, Pow256;
    Pow256Values();
    var hi, lo := v / 0x1_0000, v % 0x1_0000;
    Swap16Stores(hi);
    Swap16Stores(lo);
    LittleEndianJoin(Swap16(lo), Swap16(hi), 2, 2);
    BigEndianJoin(hi, lo, 2, 2);
  }

  lemma Swap64Stores(v: nat)
    requires v < 0x1_0000_0000_0000_0000
    ensures LittleEndian(Swap64(v), 8) == BigEndian(v, 8) && Swap64(v) < 0x1_0000_0000_0000_0000
  {
    hide LittleEndian, BigEndian, Swap32, Pow256;
    Pow256Values();
    var hi, lo := v / 0x1_0000_0000, v % 0x1_0000_0000;
    Swap32Stores(hi);
    Swap32Stores(lo);
    LittleEndianJoin(Swap32(lo), Swap32(hi), 4, 4);
    BigEndianJoin(hi, lo, 4, 4);
  }

  /** The bytes that storing a number leaves in memory. */
  function Stored(machine: EndiannessType, v: nat, n: nat): seq<byte> {
    match machine
    case Little => LittleEndian(v, n)
    case Big => BigEndian(v, n)
  }

  function FromLittleEndian(b: seq<byte>): nat {
    if b == [] then 0 else b[0] + 256 * FromLittleEndian(b[1..])
  }

  /** The number that loading bytes from memory gives. */
  function Loaded(machine: EndiannessType, b: seq<byte>): nat {
    match machine
    case Little => FromLittleEndian(b)
    case Big => FromBigEndian(b)
  }

  function Conv16(machine: EndiannessType, v: nat): nat {
    if machine == Little then Swap16(v) else v
  }

  function Conv32(machine: EndiannessType, v: nat): nat {
    if machine == Little then Swap32(v) else v
  }

  function Conv64(machine: EndiannessType, v: nat): nat {
    if machine == Little then Swap64(v) else v
  }

  /** hton16, hton32 and hton64 lead to the same bytes on both kinds of machines. */
  lemma NetworkOrder(machine: EndiannessType, v: nat)
    ensures v < 0x1_0000 ==> Stored(machine, Conv16(machine, v), 2) == BigEndian(v, 2)
    ensures v < 0x1_0000_0000 ==> Stored(machine, Conv32(machine, v), 4) == BigEndian(v, 4)
    ensures v < 0x1_0000_0000_0000_0000 ==> Stored(machine, Conv64(machine, v), 8) == BigEndian(v, 8)
  {
    hide LittleEndian, BigEndian, Swap16, Swap32, Swap64;
    if v < 0x1_0000 { Swap16Stores(v); }
    if v < 0x1_0000_0000 { Swap32Stores(v); }
    if v < 0x1_0000_0000_0000_0000 { Swap64Stores(v); }
  }

  // ----- loading

  lemma {:induction false} LittleEndianBack(b: seq<byte>)
    ensures FromLittleEndian(b) < Pow256(|b|) && LittleEndian(FromLittleEndian(b), |b|) == b
  {
    if b != [] {
      LittleEndianBack(b[1..]);
      var v := FromLittleEndian(b[1..]);
      assert (b[0] + 256 * v) % 256 == b[0] && (b[0] + 256 * v) / 256 == v;
    }
  }

  lemma Swap16Twice(v: nat)
    requires v < 0x1_0000
    ensures Swap16(v) < 0x1_0000 && Swap16(Swap16(v)) == v
  {
  }

  lemma Swap32Twice(v: nat)
    requires v < 0x1_0000_0000
    ensures Swap32(v) < 0x1_0000_0000 && Swap32(Swap32(v)) == v
  {
    hide Swap16;
    Swap16Twice(v % 0x1_0000);
    Swap16Twice(v / 0x1_0000);
  }

  lemma Swap64Twice(v: nat)
    requires v < 0x1_0000_0000_0000_0000
    ensures Swap64(v) < 0x1_0000_0000_0000_0000 && Swap64(Swap64(v)) == v
  {
    hide Swap32;
    Swap32Twice(v % 0x1_0000_0000);
    Swap32Twice(v / 0x1_0000_0000);
  }

  /** ntoh16, ntoh32 and ntoh64 of a loaded number: both kinds of machines read
      the same big-endian number. */
  lemma NetworkOrderLoaded(machine: EndiannessType, b: seq<byte>)
    ensures |b| == 2 ==> Conv16(machine, Loaded(machine, b)) == FromBigEndian(b)
    ensures |b| == 4 ==> Conv32(machine, Loaded(machine, b)) == FromBigEndian(b)
    ensures |b| == 8 ==> Conv64(machine, Loaded(machine, b)) == FromBigEndian(b)
  {
    hide LittleEndian, BigEndian, Swap16, Swap32, Swap64, FromLittleEndian, FromBigEndian, Pow256;
    Pow256Values();
    LittleEndianBack(b);
    var v := FromLittleEndian(b);
    if |b| == 2 {
      Swap16Twice(v);
      Swap16Stores(Swap16(v));
      BigEndianInverse(Swap16(v), 2);
    } else if |b| == 4 {
      Swap32Twice(v);
      Swap32Stores(Swap32(v));
      BigEndianInverse(Swap32(v), 4);
    } else if |b| == 8 {
      Swap64Twice(v);
      Swap64Stores(Swap64(v));
      BigEndianInverse(Swap64(v), 8);
    }
  }
}
