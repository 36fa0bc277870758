/** Bytes, bits and the bit stream of the deflate format (RFC 1951, section 3.1.1).

    Bit numbers count from the least significant bit of the first byte.  A
    Huffman code is written with its most significant bit first, every other
    value with its least significant bit first. */
module Bits {

  type byte = x: int | 0 <= x < 256
  type bit = x: int | 0 <= x < 2

  function Pow2(n: nat): (p: nat)
    ensures p >= 1
  {
    if n == 0 then 1 else 2 * Pow2(n - 1)
  }

  lemma {:induction false} Pow2Add(a: nat, b: nat)
    ensures Pow2(a + b) == Pow2(a) * Pow2(b)
  {
    if a > 0 {
      Pow2Add(a - 1, b);
      assert Pow2(a) * Pow2(b) == 2 * (Pow2(a - 1) * Pow2(b));
    }
  }

  lemma {:induction false} Pow2Monotone(a: nat, b: nat)
    requires a <= b
    ensures Pow2(a) <= Pow2(b)
  {
    if a < b { Pow2Monotone(a, b - 1); }
  }

  lemma MulDouble(a: int, b: int)
    ensures a * (2 * b) == 2 * (a * b) == (2 * a) * b
  {
  }

  /** `(v >> k) & 1`. */
  function Bit(v: nat, k: nat): bit {
    if k == 0 then v % 2 else Bit(v / 2, k - 1)
  }

  /** `v | (b << k)`. */
  function OrBit(v: nat, k: nat, b: bit): (r: nat) {
    if k == 0 then (v - v % 2) + (if v % 2 == 1 then 1 else b)
    else v % 2 + 2 * OrBit(v / 2, k - 1, b)
  }

  lemma {:induction false} OrBitReads(v: nat, k: nat, b: bit, j: nat)
    ensures Bit(OrBit(v, k, b), j) == if j == k && b == 1 then 1 else Bit(v, j)
  {
    if k > 0 && j > 0 {
      var r := OrBit(v / 2, k - 1, b);
      assert OrBit(v, k, b) / 2 == r;
      OrBitReads(v / 2, k - 1, b, j - 1);
    } else if k == 0 && j > 0 {
      assert OrBit(v, k, b) / 2 == v / 2;
    }
  }

  lemma {:induction false} OrBitRange(v: nat, k: nat, b: bit, n: nat)
    requires v < Pow2(n) && k < n
    ensures OrBit(v, k, b) < Pow2(n)
  {
    if k > 0 {
      OrBitRange(v / 2, k - 1, b, n - 1);
      DoubleBelow(v % 2, OrBit(v / 2, k - 1, b), Pow2(n - 1));
    } else {
      DoubleBelow(if v % 2 == 1 then 1 else b, v / 2, Pow2(n - 1));
    }
  }

  lemma DoubleBelow(b: bit, r: nat, p: nat)
    requires r < p
    ensures b + 2 * r < 2 * p
  {
  }

  /** The low `n` bits of `v`, least significant first. */
  function ToBits(v: nat, n: nat): (w: seq<bit>)
    ensures |w| == n
  {
    if n == 0 then [] else [v % 2] + ToBits(v / 2, n - 1)
  }

  /** The low `n` bits of `v`, most significant first. */
  function ToBitsReversed(v: nat, n: nat): (w: seq<bit>)
    ensures |w| == n
  {
    if n == 0 then [] else [Bit(v, n - 1)] + ToBitsReversed(v, n - 1)
  }

  lemma {:induction false} ToBitsAt(v: nat, n: nat, i: nat)
    requires i < n
    ensures ToBits(v, n)[i] == Bit(v, i)
  {
    if i > 0 { ToBitsAt(v / 2, n - 1, i - 1); }
  }

  lemma {:induction false} ToBitsReversedAt(v: nat, n: nat, i: nat)
    requires i < n
    ensures ToBitsReversed(v, n)[i] == Bit(v, n - 1 - i)
  {
    if i > 0 { ToBitsReversedAt(v, n - 1, i - 1); }
  }

  /** Bit `i` of the stream: `(s[i >> 3] >> (i & 7)) & 1`. */
  function StreamBit(s: seq<byte>, i: nat): bit
    requires i < 8 * |s|
  {
    Bit(s[i / 8], i % 8)
  }

  /** The first `n` bits of `w` lie in `s` from `bp` on. */
  ghost predicate FirstAt(s: seq<byte>, bp: nat, w: seq<bit>, n: nat)
    requires n <= |w|
  {
    if n == 0 then bp <= 8 * |s|
    else FirstAt(s, bp, w, n - 1) && bp + n <= 8 * |s| && StreamBit(s, bp + n - 1) == w[n - 1]
  }

  /** The bits of `s` from `bp` on start with `w`. */
  ghost predicate At(s: seq<byte>, bp: nat, w: seq<bit>) {
    FirstAt(s, bp, w, |w|)
  }

  lemma {:induction false} FirstAtBit(s: seq<byte>, bp: nat, w: seq<bit>, n: nat, i: nat)
    requires n <= |w| && FirstAt(s, bp, w, n) && i < n
    ensures bp + n <= 8 * |s| && StreamBit(s, bp + i) == w[i]
  {
    if i < n - 1 { FirstAtBit(s, bp, w, n - 1, i); }
  }

  lemma AtBit(s: seq<byte>, bp: nat, w: seq<bit>, i: nat)
    requires At(s, bp, w) && i < |w|
    ensures bp + |w| <= 8 * |s| && StreamBit(s, bp + i) == w[i]
  {
    FirstAtBit(s, bp, w, |w|, i);
  }

  lemma {:induction false} FirstAtIntro(s: seq<byte>, bp: nat, w: seq<bit>, n: nat)
    requires n <= |w| && bp + n <= 8 * |s|
    requires forall i :: 0 <= i < n ==> StreamBit(s, bp + i) == w[i]
    ensures FirstAt(s, bp, w, n)
  {
    if n > 0 {
      FirstAtIntro(s, bp, w, n - 1);
      assert StreamBit(s, bp + (n - 1)) == w[n - 1];
    }
  }

  lemma {:induction false} FirstAtLeft(s: seq<byte>, bp: nat, a: seq<bit>, b: seq<bit>, n: nat)
    requires n <= |a|
    ensures FirstAt(s, bp, a + b, n) <==> FirstAt(s, bp, a, n)
  {
    if n > 0 { FirstAtLeft(s, bp, a, b, n - 1); }
  }

  lemma {:induction false} FirstAtRight(s: seq<byte>, bp: nat, a: seq<bit>, b: seq<bit>, n: nat)
    requires n <= |b|
    ensures FirstAt(s, bp, a + b, |a| + n) <==> FirstAt(s, bp, a, |a|) && FirstAt(s, bp + |a|, b, n)
  {
    if n > 0 {
      FirstAtRight(s, bp, a, b, n - 1);
      assert (a + b)[|a| + n - 1] == b[n - 1];
    } else {
      FirstAtLeft(s, bp, a, b, |a|);
      FirstAtFits(s, bp, a, |a|);
    }
  }

  lemma {:induction false} FirstAtFits(s: seq<byte>, bp: nat, w: seq<bit>, n: nat)
    requires n <= |w|
    ensures FirstAt(s, bp, w, n) ==> bp + n <= 8 * |s|
  {
  }

  lemma AtFits(s: seq<byte>, bp: nat, w: seq<bit>)
    requires At(s, bp, w)
    ensures bp + |w| <= 8 * |s|
  {
    FirstAtFits(s, bp, w, |w|);
  }

  lemma AtSplit(s: seq<byte>, bp: nat, a: seq<bit>, b: seq<bit>)
    ensures At(s, bp, a + b) <==> At(s, bp, a) && At(s, bp + |a|, b)
    ensures At(s, bp, a + b) ==> bp + |a| + |b| <= 8 * |s|
  {
    FirstAtRight(s, bp, a, b, |b|);
    FirstAtFits(s, bp, a + b, |a + b|);
  }

  lemma AtSplit3(s: seq<byte>, bp: nat, a: seq<bit>, b: seq<bit>, c: seq<bit>)
    ensures At(s, bp, a + b + c) <==> At(s, bp, a) && At(s, bp + |a|, b) && At(s, bp + |a| + |b|, c)
  {
    AtSplit(s, bp, a + b, c);
    AtSplit(s, bp, a, b);
  }

  /** Any stream that continues `s` still starts with what `s` starts with. */
  lemma AtPrefix(s: seq<byte>, full: seq<byte>, bp: nat, w: seq<bit>)
    requires s <= full && At(s, bp, w)
    ensures At(full, bp, w)
  {
    AtFits(s, bp, w);
    forall i | 0 <= i < |w| ensures StreamBit(full, bp + i) == w[i] {
      AtBit(s, bp, w, i);
      assert full[(bp + i) / 8] == s[(bp + i) / 8];
    }
    FirstAtIntro(full, bp, w, |w|);
  }

  /** The number the decoder reads from `n` bits at `bp`. */
  function ReadBits(s: seq<byte>, bp: nat, n: nat): (v: nat)
    requires bp + n <= 8 * |s|
    ensures v < Pow2(n)
    decreases n
  {
    if n == 0 then 0 else StreamBit(s, bp) + 2 * ReadBits(s, bp + 1, n - 1)
  }

  lemma {:induction false} ReadBitsSnoc(s: seq<byte>, bp: nat, n: nat)
    requires bp + n < 8 * |s|
    ensures ReadBits(s, bp, n + 1) == ReadBits(s, bp, n) + StreamBit(s, bp + n) * Pow2(n)
    decreases n
  {
    hide StreamBit;
    if n > 0 {
      ReadBitsSnoc(s, bp + 1, n - 1);
      MulDouble(StreamBit(s, bp + n), Pow2(n - 1));
    }
  }

  /** Reading undoes writing. */
  lemma {:induction false} ReadBitsInverse(s: seq<byte>, bp: nat, v: nat, n: nat)
    requires At(s, bp, ToBits(v, n)) && v < Pow2(n)
    ensures bp + n <= 8 * |s| && ReadBits(s, bp, n) == v
    decreases n
  {
    AtFits(s, bp, ToBits(v, n));
    if n > 0 {
      AtSplit(s, bp, [v % 2], ToBits(v / 2, n - 1));
      AtBit(s, bp, ToBits(v, n), 0);
      ReadBitsInverse(s, bp + 1, v / 2, n - 1);
    }
  }

  /** The bytes as one number, the first byte being the least significant. */
  ghost function NumberOf(s: seq<byte>): nat {
    if s == [] then 0 else s[0] + 256 * NumberOf(s[1..])
  }

  /** `v >> k` as a division. */
  function Shifted(v: nat, k: nat): nat {
    Quotient(v, Pow2(k))
  }

  function Quotient(v: nat, p: nat): nat
    requires p > 0
  {
    v / p
  }

  lemma HalfOfShifted(v: nat, k: nat)
    ensures Shifted(v, 0) == v
    ensures Shifted(v, k + 1) == Shifted(v, k) / 2 == Shifted(v / 2, k)
  {
    QuotientTwice(v, Pow2(k), 2);
    QuotientTwice(v, 2, Pow2(k));
  }

  lemma QuotientTwice(v: nat, a: nat, b: nat)
    requires a > 0 && b > 0
    ensures a * b > 0 && v / a / b == v / (a * b)
  {
    var q, r := QuotientAndRest(v, a);
    var q', r' := QuotientAndRest(q, b);
    DigitsJoin(a, b, q', r', r);
    QuotientIs(v, a * b, q', a * r' + r);
  }

  lemma QuotientAndRest(v: nat, m: nat) returns (q: nat, r: nat)
    requires m > 0
    ensures v == m * q + r && r < m && q == v / m
  {
    q, r := v / m, v % m;
  }

  lemma DigitsJoin(a: nat, b: nat, q: nat, r: nat, s: nat)
    requires s < a && r < b
    ensures a * (b * q + r) + s == a * b * q + (a * r + s)
    ensures a * r + s < a * b
  {
    ProductBeyond(a, b - r);
  }

  lemma ProductBeyond(m: nat, d: int)
    ensures d >= 1 ==> m * d >= m
    ensures d <= -1 ==> m * d + m <= 0
  {
  }

  lemma QuotientIs(v: nat, m: nat, q: nat, r: nat)
    requires v == m * q + r && r < m
    ensures v / m == q && v % m == r
  {
    var d := v / m - q;
    assert m * d == m * (v / m) - m * q;
    ProductBeyond(m, d);
  }

  /** A bit is a digit of the number. */
  lemma {:induction false} BitIsDigit(v: nat, k: nat)
    ensures Bit(v, k) == Shifted(v, k) % 2
  {
    hide Shifted;
    if k > 0 {
      BitIsDigit(v / 2, k - 1);
      HalfOfShifted(v, k - 1);
    } else {
      HalfOfShifted(v, 0);
    }
  }

  lemma {:induction false} BitOfSum(b: byte, rest: nat, k: nat)
    ensures Bit(b + 256 * rest, k) == if k < 8 then Bit(b, k) else Bit(rest, k - 8)
  {
    var v := b + 256 * rest;
    BitOfHigher(b, rest, 8, k);
  }

  lemma {:induction false} BitOfHigher(b: nat, rest: nat, n: nat, k: nat)
    requires b < Pow2(n)
    ensures Bit(b + Pow2(n) * rest, k) == if k < n then Bit(b, k) else Bit(rest, k - n)
    decreases n
  {
    if n > 0 {
      var p := Pow2(n - 1);
      assert Pow2(n) * rest == 2 * (p * rest);
      var v := b + Pow2(n) * rest;
      assert v / 2 == b / 2 + p * rest && v % 2 == b % 2;
      if k > 0 { BitOfHigher(b / 2, rest, n - 1, k - 1); }
    }
  }

  /** So the bits of a stream are the digits of that number. */
  lemma {:induction false} StreamBitIsDigit(s: seq<byte>, i: nat)
    requires i < 8 * |s|
    ensures StreamBit(s, i) == Bit(NumberOf(s), i)
  {
    BitOfSum(s[0], NumberOf(s[1..]), i);
    if i >= 8 {
      StreamBitIsDigit(s[1..], i - 8);
      assert s[1..][(i - 8) / 8] == s[i / 8];
    }
  }

  lemma DigitAndRest(x: nat, p: nat)
    requires p > 0
    ensures x % 2 + 2 * (x / 2 % p) == x % (2 * p)
  {
    var q := x / 2 / p;
    var r := x % 2 + 2 * (x / 2 % p);
    DigitsJoin(2, p, q, x / 2 % p, x % 2);
    QuotientIs(x, 2 * p, q, r);
  }

  /** What is read is the part of the number between the two bit positions. */
  lemma {:induction false} ReadBitsIsPart(s: seq<byte>, bp: nat, n: nat)
    requires bp + n <= 8 * |s|
    ensures ReadBits(s, bp, n) == Shifted(NumberOf(s), bp) % Pow2(n)
    decreases n
  {
    hide Shifted, NumberOf, StreamBit, Bit;
    if n > 0 {
      var v := NumberOf(s);
      ReadBitsIsPart(s, bp + 1, n - 1);
      StreamBitIsDigit(s, bp);
      BitIsDigit(v, bp);
      HalfOfShifted(v, bp);
      DigitAndRest(Shifted(v, bp), Pow2(n - 1));
    }
  }

  /** Numbers read one after the other are one number. */
  lemma {:induction false} ReadBitsJoin(s: seq<byte>, bp: nat, n: nat, m: nat)
    requires bp + n + m <= 8 * |s|
    ensures ReadBits(s, bp, n + m) == ReadBits(s, bp, n) + Pow2(n) * ReadBits(s, bp + n, m)
    decreases n
  {
    hide StreamBit, ReadBits, Pow2;
    NoBits(s, bp);
    if n > 0 {
      ReadBitsUnfolds(s, bp, n + m);
      ReadBitsUnfolds(s, bp, n);
      ReadBitsJoin(s, bp + 1, n - 1, m);
      assert bp + 1 + (n - 1) == bp + n && n - 1 + m == n + m - 1;
      ScaledSum(StreamBit(s, bp), ReadBits(s, bp + 1, n - 1), n - 1, ReadBits(s, bp + n, m));
    }
  }

  lemma NoBits(s: seq<byte>, bp: nat)
    requires bp <= 8 * |s|
    ensures ReadBits(s, bp, 0) == 0 && Pow2(0) == 1
  {
  }

  lemma ReadBitsUnfolds(s: seq<byte>, bp: nat, n: nat)
    requires bp + n <= 8 * |s| && n > 0
    ensures ReadBits(s, bp, n) == StreamBit(s, bp) + 2 * ReadBits(s, bp + 1, n - 1)
  {
    hide StreamBit;
  }

  lemma ScaledSum(b: nat, a: nat, n: nat, r: nat)
    ensures b + 2 * (a + Pow2(n) * r) == b + 2 * a + Pow2(n + 1) * r
  {
    var p := Pow2(n);
    assert Pow2(n + 1) == 2 * p;
    MulDouble(r, p);
  }

  lemma {:induction false} ReadBitsOfByte(s: seq<byte>, i: nat, k: nat, v: nat)
    requires i < |s| && k <= 8 && v < Pow2(8 - k)
    requires forall j: nat {:trigger Bit(v, j)} :: j < 8 - k ==> Bit(s[i], k + j) == Bit(v, j)
    ensures ReadBits(s, 8 * i + k, 8 - k) == v
    decreases 8 - k
  {
    if k < 8 {
      assert (8 * i + k) / 8 == i && (8 * i + k) % 8 == k;
      assert Bit(s[i], k + 0) == Bit(v, 0) == v % 2;
      forall j: nat | j < 8 - (k + 1) ensures Bit(s[i], k + 1 + j) == Bit(v / 2, j) {
        assert Bit(s[i], k + (j + 1)) == Bit(v, j + 1);
      }
      ReadBitsOfByte(s, i, k + 1, v / 2);
    }
  }

  /** Eight bits from a byte boundary on are the byte. */
  lemma ReadByte(s: seq<byte>, i: nat)
    requires i < |s|
    ensures ReadBits(s, 8 * i, 8) == s[i]
  {
    hide ReadBits, Bit;
    assert Pow2(8) == 256;
    ReadBitsOfByte(s, i, 0, s[i]);
  }

  /** `readBitsFromStream`: adds the bits up one by one. */
  method ReadBitsFromStream(s: seq<byte>, bp: nat, nbits: nat) returns (result: nat, bp': nat)
    requires bp + nbits <= 8 * |s|
    ensures result == ReadBits(s, bp, nbits) && bp' == bp + nbits
  {
    result := 0;
    bp' := bp;
    for i := 0 to nbits
      invariant bp' == bp + i
      invariant result == ReadBits(s, bp, i)
    {
      hide StreamBit, ReadBits, Pow2;
      ReadBitsSnoc(s, bp, i);
      result := result + StreamBit(s, bp') * Pow2(i);
      bp' := bp' + 1;
    }
  }

  /** The buffer holds the bytes `bp` bits need, and no bit beyond is set. */
  ghost predicate Holds(data: seq<byte>, bp: nat) {
    |data| == (bp + 7) / 8 && ZeroFrom(data, bp)
  }

  ghost predicate ZeroFrom(data: seq<byte>, bp: nat) {
    forall i :: bp <= i < 8 * |data| ==> StreamBit(data, i) == 0
  }

  ghost function FirstBits(data: seq<byte>, bp: nat): (w: seq<bit>)
    requires bp <= 8 * |data|
    ensures |w| == bp
  {
    seq(bp, i requires 0 <= i < bp => StreamBit(data, i))
  }

  lemma {:induction false} ZeroBit(k: nat)
    ensures Bit(0, k) == 0
  {
    if k > 0 { ZeroBit(k - 1); }
  }

  /** A fresh zero byte, pushed when the last one is full. */
  lemma PushByte(data: seq<byte>, bp: nat)
    requires Holds(data, bp) && bp % 8 == 0
    ensures ZeroFrom(data + [0], bp)
    ensures FirstBits(data + [0], bp) == FirstBits(data, bp)
  {

    forall i | bp <= i < 8 * |data + [0]| ensures StreamBit(data + [0], i) == 0 {
      assert i / 8 == |data|;
      ZeroBit(i % 8);
    }
  }

  lemma SetLastBit(data: seq<byte>, bp: nat, b: bit)
    requires |data| == bp / 8 + 1 && ZeroFrom(data, bp)
    ensures OrBit(data[|data| - 1], bp % 8, b) < 256
    ensures var data' := data[|data| - 1 := OrBit(data[|data| - 1], bp % 8, b)];
            Holds(data', bp + 1) && FirstBits(data', bp + 1) == FirstBits(data, bp) + [b]
  {
    var last := |data| - 1;
    assert Pow2(8) == 256;
    OrBitRange(data[last], bp % 8, b, 8);
    var data' := data[last := OrBit(data[last], bp % 8, b)];
    forall i | 0 <= i < 8 * |data|
      ensures StreamBit(data', i) == if i == bp && b == 1 then 1 else StreamBit(data, i)
    {
      if i / 8 == last { OrBitReads(data[last], bp % 8, b, i % 8); }
    }
    assert StreamBit(data, bp) == 0;
    assert StreamBit(data', bp) == b;
  }

  /** The encoder's growing byte buffer together with its bit pointer. */
  class BitStream {
    var data: seq<byte>
    var bp: nat

    ghost predicate Valid()
      reads this
    {
      Holds(data, bp)
    }

    ghost function Bits(): (w: seq<bit>)
      requires Valid()
      reads this
      ensures |w| == bp
    {
      FirstBits(data, bp)
    }

    constructor ()
      ensures Valid() && bp == 0 && Bits() == [] && data == []
    {
      data, bp := [], 0;
    }

    /** What has been written is in `data`. */
    lemma Written()
      requires Valid()
      ensures At(data, 0, Bits())
    {
      FirstAtIntro(data, 0, Bits(), bp);
    }

    /** `addBitToStream` */
    method AddBit(b: bit)
      requires Valid()
      modifies this
      ensures Valid() && bp == old(bp) + 1
      ensures Bits() == old(Bits()) + [b]
    {
      if bp % 8 == 0 {
        PushByte(data, bp);
        data := data + [0];
      }
      SetLastBit(data, bp, b);
      data := data[|data| - 1 := OrBit(data[|data| - 1], bp % 8, b)];
      bp := bp + 1;
    }

    /** `addBitsToStream` */
    method AddBits(value: nat, nbits: nat)
      requires Valid()
      modifies this
      ensures Valid() && bp == old(bp) + nbits
      ensures Bits() == old(Bits()) + ToBits(value, nbits)
    {
      ghost var before := Bits();
      for i := 0 to nbits
        invariant Valid() && bp == old(bp) + i
        invariant Bits() == before + ToBits(value, nbits)[..i]
      {
        ToBitsAt(value, nbits, i);
        AddBit(Bit(value, i));
      }
    }

    /** `addBitsToStreamReversed`, which `addHuffmanSymbol` calls. */
    method AddBitsReversed(value: nat, nbits: nat)
      requires Valid()
      modifies this
      ensures Valid() && bp == old(bp) + nbits
      ensures Bits() == old(Bits()) + ToBitsReversed(value, nbits)
    {
      ghost var before := Bits();
      for i := 0 to nbits
        invariant Valid() && bp == old(bp) + i
        invariant Bits() == before + ToBitsReversed(value, nbits)[..i]
      {
        ToBitsReversedAt(value, nbits, i);
        AddBit(Bit(value, nbits - 1 - i));
      }
    }
  }
}
