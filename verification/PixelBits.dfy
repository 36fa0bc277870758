/** Bits in the order PNG stores pixels in, most significant bit of a byte first,
    and the padding of rows to whole bytes. */
module PixelBits {
  import opened Bits
  import opened Sequences

  /** Bit `i` of the reversed stream: `(s[i >> 3] >> (7 - (i & 7))) & 1`. */
  function PixelBit(s: seq<byte>, i: nat): bit
    requires i < 8 * |s|
  {
    Bit(s[i / 8], 7 - i % 8)
  }

  ghost function BitsOf(s: seq<byte>): (b: seq<bit>)
    ensures |b| == 8 * |s|
  {
    seq<bit>(8 * |s|, i requires 0 <= i < 8 * |s| => PixelBit(s, i))
  }

  /** A byte is the number that its bits make, the first one being worth 128. */
  lemma FirstBitIsHighest(s: seq<byte>, i: nat)
    requires i < |s|
    ensures s[i] == 128 * PixelBit(s, 8 * i) + 64 * PixelBit(s, 8 * i + 1) + 32 * PixelBit(s, 8 * i + 2)
                    + 16 * PixelBit(s, 8 * i + 3) + 8 * PixelBit(s, 8 * i + 4) + 4 * PixelBit(s, 8 * i + 5)
                    + 2 * PixelBit(s, 8 * i + 6) + PixelBit(s, 8 * i + 7)
  {
    hide PixelBit;
    EightBits(s[i]);
    BitOfByte(s, i, 0);
    BitOfByte(s, i, 1);
    BitOfByte(s, i, 2);
    BitOfByte(s, i, 3);
    BitOfByte(s, i, 4);
    BitOfByte(s, i, 5);
    BitOfByte(s, i, 6);
    BitOfByte(s, i, 7);
  }

  lemma BitOfByte(s: seq<byte>, i: nat, k: nat)
    requires i < |s| && k < 8
    ensures PixelBit(s, 8 * i + k) == Bit(s[i], 7 - k)
  {
    assert (8 * i + k) / 8 == i && (8 * i + k) % 8 == k;
  }

  lemma LastBitAndRest(v: nat)
    ensures v == 2 * (v / 2) + Bit(v, 0) && forall k: nat {:trigger Bit(v / 2, k)} :: Bit(v, k + 1) == Bit(v / 2, k)
  {
  }

  lemma FourBits(v: nat)
    requires v < 16
    ensures v == 8 * Bit(v, 3) + 4 * Bit(v, 2) + 2 * Bit(v, 1) + Bit(v, 0)
  {
    hide Bit;
    var h, q, e := v / 2, v / 2 / 2, v / 2 / 2 / 2;
    LastBitAndRest(v);
    LastBitAndRest(h);
    LastBitAndRest(q);
    LastBitAndRest(e);
    assert Bit(v, 1) == Bit(h, 0);
    assert Bit(v, 2) == Bit(h, 1) == Bit(q, 0);
    assert Bit(v, 3) == Bit(h, 2) == Bit(q, 1) == Bit(e, 0);
  }

  lemma EightBits(v: byte)
    ensures v == 128 * Bit(v, 7) + 64 * Bit(v, 6) + 32 * Bit(v, 5) + 16 * Bit(v, 4)
                 + 8 * Bit(v, 3) + 4 * Bit(v, 2) + 2 * Bit(v, 1) + Bit(v, 0)
  {
    hide Bit;
    var q, r := v / 16, v % 16;
    FourBits(q);
    FourBits(r);
    HigherBit(r, q, 0);
    HigherBit(r, q, 1);
    HigherBit(r, q, 2);
    HigherBit(r, q, 3);
  }

  lemma HigherBit(r: nat, q: nat, k: nat)
    requires r < 16 && k < 4
    ensures Bit(r + 16 * q, k) == Bit(r, k) && Bit(r + 16 * q, k + 4) == Bit(q, k)
  {
    assert Pow2(4) == 16;
    BitOfHigher(r, q, 4, k);
    BitOfHigher(r, q, 4, k + 4);
  }

  // ----- setting one bit

  /** `v & ~(1 << k)` */
  function ClearBit(v: nat, k: nat): nat {
    if k == 0 then v - v % 2 else v % 2 + 2 * ClearBit(v / 2, k - 1)
  }

  lemma {:induction false} ClearBitReads(v: nat, k: nat, j: nat)
    ensures Bit(ClearBit(v, k), j) == if j == k then 0 else Bit(v, j)
    ensures ClearBit(v, k) <= v
  {
    if k > 0 {
      ClearBitReads(v / 2, k - 1, if j > 0 then j - 1 else 0);
      if j > 0 { assert ClearBit(v, k) / 2 == ClearBit(v / 2, k - 1); }
    } else if j > 0 {
      assert ClearBit(v, k) / 2 == v / 2;
    }
  }

  /** The byte with bit `k` set to `b`. */
  function SetBit(v: byte, k: nat, b: bit): nat {
    if b == 0 then ClearBit(v, k) else OrBit(v, k, 1)
  }

  lemma SetBitReads(v: byte, k: nat, b: bit, j: nat)
    requires k < 8
    ensures SetBit(v, k, b) < 256 && Bit(SetBit(v, k, b), j) == if j == k then b else Bit(v, j)
  {
    assert Pow2(8) == 256;
    ClearBitReads(v, k, j);
    OrBitReads(v, k, 1, j);
    OrBitRange(v, k, 1, 8);
  }

  lemma SetPixelBit(s: seq<byte>, i: nat, b: bit)
    requires i < 8 * |s|
    ensures SetBit(s[i / 8], 7 - i % 8, b) < 256
    ensures BitsOf(s[i / 8 := SetBit(s[i / 8], 7 - i % 8, b)]) == BitsOf(s)[i := b]
  {
    hide SetBit, Bit;
    SetBitReads(s[i / 8], 7 - i % 8, b, 0);
    var s' := s[i / 8 := SetBit(s[i / 8], 7 - i % 8, b)];
    forall j | 0 <= j < 8 * |s| ensures PixelBit(s', j) == if j == i then b else PixelBit(s, j) {
      if j / 8 == i / 8 { SetBitReads(s[i / 8], 7 - i % 8, b, 7 - j % 8); }
    }
  }

  /** setBitOfReversedStream: the bit may have any value before. */
  method SetBitOfReversedStream(out: array<byte>, bp: nat, b: bit)
    requires bp < 8 * out.Length
    modifies out
    ensures BitsOf(out[..]) == old(BitsOf(out[..]))[bp := b]
    ensures forall q :: 0 <= q < out.Length && q != bp / 8 ==> out[q] == old(out[q])
  {
    SetPixelBit(out[..], bp, b);
    ghost var before := out[..];
    out[bp / 8] := SetBit(out[bp / 8], 7 - bp % 8, b);
    assert out[..] == before[bp / 8 := SetBit(before[bp / 8], 7 - bp % 8, b)];
  }

  /** setBitOfReversedStream0: the bit must be 0 before, or right already. */
  method SetBitOfReversedStream0(out: array<byte>, bp: nat, b: bit)
    requires bp < 8 * out.Length && (PixelBit(out[..], bp) == 0 || PixelBit(out[..], bp) == b)
    modifies out
    ensures BitsOf(out[..]) == old(BitsOf(out[..]))[bp := b]
  {
    if b != 0 {
      SetBitOfReversedStream(out, bp, b);
    } else {
      assert BitsOf(out[..])[bp] == 0;
      assert BitsOf(out[..]) == BitsOf(out[..])[bp := 0];
    }
  }

  /** Any bits are the first bits of some bytes. */
  lemma {:induction false} PackedBits(b: seq<bit>, n: nat, size: nat) returns (s: seq<byte>)
    requires n <= |b| <= 8 * size
    ensures |s| == size && forall i {:trigger BitsOf(s)[i]} :: 0 <= i < n ==> BitsOf(s)[i] == b[i]
  {
    if n == 0 {
      s := seq<byte>(size, _ => 0);
    } else {
      var s' := PackedBits(b, n - 1, size);
      SetPixelBit(s', n - 1, b[n - 1]);
      s := s'[(n - 1) / 8 := SetBit(s'[(n - 1) / 8], 7 - (n - 1) % 8, b[n - 1])];
    }
  }

  // ----- moving bits

  /** Copies `n` bits.  The buffers may be the same when no bit moves up. */
  method MoveBits(out: array<byte>, obp: nat, inn: array<byte>, ibp: nat, n: nat)
    requires obp + n <= 8 * out.Length && ibp + n <= 8 * inn.Length
    requires out == inn ==> obp <= ibp
    modifies out
    ensures BitsOf(out[..]) == Written(old(BitsOf(out[..])), obp, old(BitsOf(inn[..]))[ibp..ibp + n])
    ensures forall q :: 0 <= q < out.Length && (8 * q + 8 <= obp || obp + n <= 8 * q) ==> out[q] == old(out[q])
  {
    hide BitsOf, PixelBit, Written;
    ghost var before, source := BitsOf(out[..]), BitsOf(inn[..]);
    WrittenNothing(before, obp);
    assert source[ibp..ibp] == [];
    for x := 0 to n
      invariant BitsOf(out[..]) == Written(before, obp, source[ibp..ibp + x])
      invariant inn != out ==> inn[..] == old(inn[..])
      invariant forall q :: 0 <= q < out.Length && (8 * q + 8 <= obp || obp + n <= 8 * q) ==> out[q] == old(out[q])
    {
      BitIs(inn[..], ibp + x);
      if inn == out { WrittenReads(before, obp, source[ibp..ibp + x], ibp + x); }
      assert BitsOf(inn[..])[ibp + x] == source[ibp + x];
      WrittenSnoc(before, obp, source[ibp..ibp + x], source[ibp + x]);
      assert source[ibp..ibp + x] + [source[ibp + x]] == source[ibp..ibp + x + 1];
      SetBitOfReversedStream(out, obp + x, PixelBit(inn[..], ibp + x));
    }
  }

  /** MoveBits into another buffer, in which the bits are still zero or right already. */
  method MoveBits0(out: array<byte>, obp: nat, inn: array<byte>, ibp: nat, n: nat)
    requires obp + n <= 8 * out.Length && ibp + n <= 8 * inn.Length && out != inn
    requires forall q :: obp <= q < obp + n ==>
               BitsOf(out[..])[q] == 0 || BitsOf(out[..])[q] == BitsOf(inn[..])[q - obp + ibp]
    modifies out
    ensures BitsOf(out[..]) == Written(old(BitsOf(out[..])), obp, BitsOf(inn[..])[ibp..ibp + n])
  {
    hide BitsOf, PixelBit, Written;
    ghost var before, source := BitsOf(out[..]), BitsOf(inn[..]);
    WrittenNothing(before, obp);
    assert source[ibp..ibp] == [];
    for x := 0 to n
      invariant BitsOf(out[..]) == Written(before, obp, source[ibp..ibp + x])
    {
      BitIs(inn[..], ibp + x);
      BitIs(out[..], obp + x);
      WrittenReads(before, obp, source[ibp..ibp + x], obp + x);
      assert before[obp + x] == 0 || before[obp + x] == source[ibp + x];
      WrittenSnoc(before, obp, source[ibp..ibp + x], source[ibp + x]);
      assert source[ibp..ibp + x] + [source[ibp + x]] == source[ibp..ibp + x + 1];
      SetBitOfReversedStream0(out, obp + x, PixelBit(inn[..], ibp + x));
    }
  }

  lemma BitIs(s: seq<byte>, i: nat)
    requires i < 8 * |s|
    ensures BitsOf(s)[i] == PixelBit(s, i)
  {
  }

  // ----- padding

  function Zeros(n: nat): (z: seq<bit>)
    ensures |z| == n
  {
    seq<bit>(n, _ => 0)
  }

  /** `n` rows of `inbits` bits, each filled up with zeros to `outbits`. */
  ghost function Padded(b: seq<bit>, inbits: nat, outbits: nat, n: nat): (p: seq<bit>)
    requires inbits <= outbits && Start(n, inbits) <= |b|
    ensures |p| == Start(n, outbits)
  {
    if n == 0 then []
    else Padded(b, inbits, outbits, n - 1) + b[Start(n - 1, inbits)..Start(n, inbits)] + Zeros(outbits - inbits)
  }

  /** The first `outbits` bits of each of `n` rows of `inbits` bits. */
  ghost function Unpadded(b: seq<bit>, inbits: nat, outbits: nat, n: nat): (p: seq<bit>)
    requires outbits <= inbits && Start(n, inbits) <= |b|
    ensures |p| == Start(n, outbits)
  {
    if n == 0 then []
    else Unpadded(b, inbits, outbits, n - 1) + b[Start(n - 1, inbits)..Start(n - 1, inbits) + outbits]
  }

  lemma {:induction false} UnpaddedPrefix(b: seq<bit>, c: seq<bit>, inbits: nat, outbits: nat, n: nat)
    requires outbits <= inbits && Start(n, inbits) <= |b| <= |c| && b == c[..|b|]
    ensures Unpadded(c, inbits, outbits, n) == Unpadded(b, inbits, outbits, n)
  {
    if n > 0 {
      UnpaddedPrefix(b, c, inbits, outbits, n - 1);
      var from := Start(n - 1, inbits);
      assert from + outbits <= Start(n, inbits);
      assert c[from..from + outbits] == c[..|b|][from..from + outbits];
    }
  }

  /** Removing the padding undoes adding it. */
  lemma {:induction false} UnpaddingUndoesPadding(b: seq<bit>, linebits: nat, padded: nat, n: nat)
    requires linebits <= padded && Start(n, linebits) <= |b|
    ensures Unpadded(Padded(b, linebits, padded, n), padded, linebits, n) == b[..Start(n, linebits)]
  {
    if n > 0 {
      UnpaddingUndoesPadding(b, linebits, padded, n - 1);
      var p, q := Padded(b, linebits, padded, n - 1), Padded(b, linebits, padded, n);
      UnpaddedPrefix(p, q, padded, linebits, n - 1);
      LastPaddedRow(b, linebits, padded, n);
      assert b[..Start(n - 1, linebits)] + b[Start(n - 1, linebits)..Start(n, linebits)] == b[..Start(n, linebits)];
    }
  }

  lemma LastPaddedRow(b: seq<bit>, linebits: nat, padded: nat, n: nat)
    requires linebits <= padded && 0 < n && Start(n, linebits) <= |b|
    ensures var q := Padded(b, linebits, padded, n); var from := Start(n - 1, padded);
            && from + linebits <= |q| && q[from..from + linebits] == b[Start(n - 1, linebits)..Start(n, linebits)]
            && q[..from] == Padded(b, linebits, padded, n - 1)
  {
  }

  /** removePaddingBits: from the bytes at `p` to the bytes at `o`, in place when
      the buffers are the same. */
  method RemovePaddingBits(out: array<byte>, o: nat, inn: array<byte>, p: nat, olinebits: nat, ilinebits: nat, h: nat)
    requires olinebits <= ilinebits && (out == inn ==> o <= p)
    requires 8 * o + Start(h, olinebits) <= 8 * out.Length && 8 * p + Start(h, ilinebits) <= 8 * inn.Length
    modifies out
    ensures BitsOf(out[..]) == Written(old(BitsOf(out[..])), 8 * o,
                                       Unpadded(old(BitsOf(inn[..]))[8 * p..], ilinebits, olinebits, h))
    ensures forall q :: 0 <= q < out.Length && (q < o || 8 * o + Start(h, olinebits) <= 8 * q) ==> out[q] == old(out[q])
  {
    hide BitsOf, Written, Unpadded;
    var diff := ilinebits - olinebits;
    var ibp, obp := 8 * p, 8 * o;
    ghost var before, source, f := BitsOf(out[..]), BitsOf(inn[..]), BitsOf(inn[..])[8 * p..];
    NothingUnpadded(f, ilinebits, olinebits);
    WrittenNothing(before, 8 * o);
    for y := 0 to h
      invariant ibp == 8 * p + Start(y, ilinebits) && obp == 8 * o + Start(y, olinebits)
      invariant Start(y, ilinebits) <= Start(h, ilinebits) && Start(y, olinebits) <= Start(h, olinebits)
      invariant Start(y, olinebits) <= Start(y, ilinebits)
      invariant BitsOf(out[..]) == Written(before, 8 * o, Unpadded(f, ilinebits, olinebits, y))
      invariant inn != out ==> inn[..] == old(inn[..])
      invariant forall q :: 0 <= q < out.Length && (q < o || 8 * o + Start(h, olinebits) <= 8 * q) ==>
                  out[q] == old(out[q])
    {
      StartMonotone(y + 1, h, ilinebits);
      StartMonotone(y + 1, h, olinebits);
      ghost var rows := Unpadded(f, ilinebits, olinebits, y);
      if inn == out { WrittenKeeps(before, 8 * o, rows, ibp, olinebits); }
      assert BitsOf(inn[..])[ibp..ibp + olinebits] == source[ibp..ibp + olinebits];
      MoveBits(out, obp, inn, ibp, olinebits);
      NextUnpadded(source, 8 * p, ilinebits, olinebits, y, ibp);
      WrittenTwice(before, 8 * o, rows, source[ibp..ibp + olinebits]);
      ibp := ibp + olinebits + diff;
      obp := obp + olinebits;
    }
  }

  lemma NothingUnpadded(f: seq<bit>, ilinebits: nat, olinebits: nat)
    requires olinebits <= ilinebits
    ensures Unpadded(f, ilinebits, olinebits, 0) == []
  {
  }

  lemma NextUnpadded(source: seq<bit>, from: nat, ilinebits: nat, olinebits: nat, y: nat, ibp: nat)
    requires olinebits <= ilinebits && from + Start(y + 1, ilinebits) <= |source| && ibp == from + Start(y, ilinebits)
    ensures Unpadded(source[from..], ilinebits, olinebits, y + 1)
         == Unpadded(source[from..], ilinebits, olinebits, y) + source[ibp..ibp + olinebits]
  {
    var f := source[from..];
    assert f[Start(y, ilinebits)..Start(y, ilinebits) + olinebits] == source[ibp..ibp + olinebits];
  }

  /** addPaddingBits: from the bytes at `p` to the start of another buffer. */
  method AddPaddingBits(out: array<byte>, inn: array<byte>, p: nat, olinebits: nat, ilinebits: nat, h: nat)
    requires ilinebits <= olinebits && out != inn
    requires Start(h, olinebits) <= 8 * out.Length && 8 * p + Start(h, ilinebits) <= 8 * inn.Length
    modifies out
    ensures BitsOf(out[..])
            == Written(old(BitsOf(out[..])), 0, Padded(BitsOf(inn[..])[8 * p..], ilinebits, olinebits, h))
  {
    hide BitsOf, Written, Padded;
    var diff := olinebits - ilinebits;
    var obp, ibp := 0, 8 * p;
    ghost var before, source, f := BitsOf(out[..]), BitsOf(inn[..]), BitsOf(inn[..])[8 * p..];
    NothingPadded(f, ilinebits, olinebits);
    WrittenNothing(before, 0);
    for y := 0 to h
      invariant ibp == 8 * p + Start(y, ilinebits) && obp == Start(y, olinebits)
      invariant Start(y, ilinebits) <= Start(h, ilinebits) && Start(y, olinebits) <= Start(h, olinebits)
      invariant BitsOf(out[..]) == Written(before, 0, Padded(f, ilinebits, olinebits, y))
    {
      StartMonotone(y + 1, h, ilinebits);
      StartMonotone(y + 1, h, olinebits);
      ghost var rows := Padded(f, ilinebits, olinebits, y);
      MoveBits(out, obp, inn, ibp, ilinebits);
      ClearBits(out, obp + ilinebits, diff);
      NextPadded(source, 8 * p, ilinebits, olinebits, y, ibp);
      WrittenTwice(before, 0, rows, source[ibp..ibp + ilinebits]);
      WrittenTwice(before, 0, rows + source[ibp..ibp + ilinebits], Zeros(diff));
      ibp := ibp + ilinebits;
      obp := obp + ilinebits + diff;
    }
  }

  lemma NothingPadded(f: seq<bit>, ilinebits: nat, olinebits: nat)
    requires ilinebits <= olinebits
    ensures Padded(f, ilinebits, olinebits, 0) == []
  {
  }

  lemma NextPadded(source: seq<bit>, from: nat, ilinebits: nat, olinebits: nat, y: nat, ibp: nat)
    requires ilinebits <= olinebits && from + Start(y + 1, ilinebits) <= |source| && ibp == from + Start(y, ilinebits)
    ensures Padded(source[from..], ilinebits, olinebits, y + 1)
         == Padded(source[from..], ilinebits, olinebits, y) + source[ibp..ibp + ilinebits]
             + Zeros(olinebits - ilinebits)
  {
    var f := source[from..];
    assert f[Start(y, ilinebits)..Start(y + 1, ilinebits)] == source[ibp..ibp + ilinebits];
  }

  method ClearBits(out: array<byte>, bp: nat, n: nat)
    requires bp + n <= 8 * out.Length
    modifies out
    ensures BitsOf(out[..]) == Written(old(BitsOf(out[..])), bp, Zeros(n))
  {
    hide BitsOf, Written;
    ghost var before := BitsOf(out[..]);
    WrittenNothing(before, bp);
    assert Zeros(0) == [];
    for x := 0 to n
      invariant BitsOf(out[..]) == Written(before, bp, Zeros(x))
    {
      WrittenSnoc(before, bp, Zeros(x), 0);
      assert Zeros(x) + [0] == Zeros(x + 1);
      SetBitOfReversedStream(out, bp + x, 0);
    }
  }
}
