/** The words of the Mersenne Twister: the operations of rng.cpp on them, and what
    these do to the bits. */
module TwisterWords {

  /** `unsigned long` on a 64-bit machine; the words stay below 2^32. */
  type word = bv64

  predicate Fits(x: word) {
    x <= 0xffff_ffff
  }

  function Xor(x: word, y: word): word {
    x ^ y
  }

  lemma XorFits(x: word, y: word)
    requires Fits(x) && Fits(y)
    ensures Fits(Xor(x, y))
  {
  }

  /** Bit `i` of a word. */
  function BitAt(x: word, i: word): word
    requires i < 64
  {
    (x >> i) & 1
  }

  // ----- twisting

  function Twist(u: word, v: word): word {
    (((u & 0x8000_0000) | (v & 0x7fff_ffff)) >> 1) ^ (if v & 1 == 1 then 0x9908_b0df else 0)
  }

  lemma TwistFits(u: word, v: word)
    ensures Fits(Twist(u, v))
  {
  }

  lemma OddTwistBits(u: word, v: word, i: word)
    requires i < 32 && BitAt(v, 0) == 1
    ensures BitAt(Twist(u, v), i)
         == Xor(if i < 30 then BitAt(v, i + 1) else if i == 30 then BitAt(u, 31) else 0, BitAt(0x9908_b0df, i))
  {
  }

  lemma EvenTwistBits(u: word, v: word, i: word)
    requires i < 32 && BitAt(v, 0) == 0
    ensures BitAt(Twist(u, v), i) == if i < 30 then BitAt(v, i + 1) else if i == 30 then BitAt(u, 31) else 0
  {
  }

  /** Bit by bit: bits 1 to 30 of `v` and bit 31 of `u` move down by one place, and
      an odd `v` flips the bits of the matrix A. */
  lemma TwistBits(u: word, v: word, i: word)
    requires i < 32
    ensures BitAt(Twist(u, v), i)
         == Xor(if i < 30 then BitAt(v, i + 1) else if i == 30 then BitAt(u, 31) else 0,
                if BitAt(v, 0) == 1 then BitAt(0x9908_b0df, i) else 0)
  {
    hide Twist;
    if BitAt(v, 0) == 1 {
      OddTwistBits(u, v, i);
    } else {
      EvenTwistBits(u, v, i);
    }
  }

  // ----- tempering, in its four steps

  function Temper(x: word): word {
    FoldBy18(FoldBy15(FoldBy7(FoldBy11(x))))
  }

  function FoldBy11(y: word): word {
    y ^ (y >> 11)
  }

  function FoldBy7(y: word): word {
    y ^ ((y << 7) & 0x9d2c_5680)
  }

  function FoldBy15(y: word): word {
    y ^ ((y << 15) & 0xefc6_0000)
  }

  function FoldBy18(y: word): word {
    y ^ (y >> 18)
  }

  lemma FoldsFit(x: word)
    requires Fits(x)
    ensures Fits(FoldBy11(x)) && Fits(FoldBy7(x)) && Fits(FoldBy15(x)) && Fits(FoldBy18(x))
  {
  }

  lemma TemperFits(x: word)
    requires Fits(x)
    ensures Fits(Temper(x))
  {
    hide Fits, FoldBy11, FoldBy7, FoldBy15, FoldBy18;
    FoldsFit(x);
    FoldsFit(FoldBy11(x));
    FoldsFit(FoldBy7(FoldBy11(x)));
    FoldsFit(FoldBy15(FoldBy7(FoldBy11(x))));
  }

  lemma RightFoldsWritten(x: word)
    ensures FoldBy11(x) == x ^ (x >> 11)
    ensures FoldBy18(x) == x ^ (x >> 18)
  {
  }

  lemma LeftFoldsWritten(x: word)
    ensures FoldBy7(x) == x ^ ((x << 7) & 0x9d2c_5680)
    ensures FoldBy15(x) == x ^ ((x << 15) & 0xefc6_0000)
  {
  }

  lemma FoldsWritten(x: word)
    ensures FoldBy11(x) == x ^ (x >> 11) && FoldBy18(x) == x ^ (x >> 18)
    ensures FoldBy7(x) == x ^ ((x << 7) & 0x9d2c_5680) && FoldBy15(x) == x ^ ((x << 15) & 0xefc6_0000)
  {
    hide FoldBy11, FoldBy7, FoldBy15, FoldBy18;
    RightFoldsWritten(x);
    LeftFoldsWritten(x);
  }

  lemma XorWritten(x: word, y: word)
    ensures Xor(x, y) == x ^ y
  {
  }

  lemma FoldsOfSum(x: word, y: word)
    ensures FoldBy11(x ^ y) == Xor(x ^ (x >> 11), y ^ (y >> 11))
    ensures FoldBy7(x ^ y) == Xor(x ^ ((x << 7) & 0x9d2c_5680), y ^ ((y << 7) & 0x9d2c_5680))
    ensures FoldBy15(x ^ y) == Xor(x ^ ((x << 15) & 0xefc6_0000), y ^ ((y << 15) & 0xefc6_0000))
    ensures FoldBy18(x ^ y) == Xor(x ^ (x >> 18), y ^ (y >> 18))
  {
  }

  lemma FoldsOfXor(x: word, y: word)
    ensures FoldBy11(Xor(x, y)) == Xor(FoldBy11(x), FoldBy11(y))
    ensures FoldBy7(Xor(x, y)) == Xor(FoldBy7(x), FoldBy7(y))
    ensures FoldBy15(Xor(x, y)) == Xor(FoldBy15(x), FoldBy15(y))
    ensures FoldBy18(Xor(x, y)) == Xor(FoldBy18(x), FoldBy18(y))
  {
    hide Xor, FoldBy11, FoldBy7, FoldBy15, FoldBy18;
    XorWritten(x, y);
    FoldsWritten(x);
    FoldsWritten(y);
    FoldsOfSum(x, y);
  }

  /** Tempering is linear over xor. */
  lemma TemperIsLinear(x: word, y: word)
    ensures Temper(Xor(x, y)) == Xor(Temper(x), Temper(y))
  {
    hide Xor, FoldBy11, FoldBy7, FoldBy15, FoldBy18;
    FoldsOfXor(x, y);
    FoldsOfXor(FoldBy11(x), FoldBy11(y));
    FoldsOfXor(FoldBy7(FoldBy11(x)), FoldBy7(FoldBy11(y)));
    FoldsOfXor(FoldBy15(FoldBy7(FoldBy11(x))), FoldBy15(FoldBy7(FoldBy11(y))));
  }

  /** What it makes of each single bit: with TemperIsLinear, of every word. */
  lemma TemperOfBits()
    ensures Temper(0x0000_0001) == 0x0040_0091 && Temper(0x0000_0002) == 0x0000_0002
    ensures Temper(0x0000_0004) == 0x0102_0244 && Temper(0x0000_0008) == 0x0204_0489
    ensures Temper(0x0000_0010) == 0x0000_0010 && Temper(0x0000_0020) == 0x0800_1220
    ensures Temper(0x0000_0040) == 0x0000_0040 && Temper(0x0000_0080) == 0x2040_4890
    ensures Temper(0x0000_0100) == 0x0080_0120 && Temper(0x0000_0200) == 0x0100_0240
    ensures Temper(0x0000_0400) == 0x0200_0480 && Temper(0x0000_0800) == 0x0444_0990
    ensures Temper(0x0000_1000) == 0x0808_1200 && Temper(0x0000_2000) == 0x0102_2244
    ensures Temper(0x0000_4000) == 0x2224_4c81 && Temper(0x0000_8000) == 0x4000_9010
    ensures Temper(0x0001_0000) == 0x8801_3220 && Temper(0x0002_0000) == 0x0102_0000
    ensures Temper(0x0004_0000) == 0x2044_4891 && Temper(0x0008_0000) == 0x0488_0022
    ensures Temper(0x0010_0000) == 0x0910_0044 && Temper(0x0020_0000) == 0x1220_0088
    ensures Temper(0x0040_0000) == 0x0444_0911 && Temper(0x0080_0000) == 0x0888_1222
    ensures Temper(0x0100_0000) == 0x8100_0040 && Temper(0x0200_0000) == 0x2220_4888
    ensures Temper(0x0400_0000) == 0x4400_9100 && Temper(0x0800_0000) == 0x8801_2200
    ensures Temper(0x1000_0000) == 0x1102_0440 && Temper(0x2000_0000) == 0x2004_0801
    ensures Temper(0x4000_0000) == 0x4408_1102 && Temper(0x8000_0000) == 0x8810_2204
  {
  }

  /** The steps of tempering in reverse. */
  function Untemper(y: word): word {
    UnfoldBy11(UnfoldBy7(FoldBy15(FoldBy18(y))))
  }

  function UnfoldBy11(y: word): word {
    y ^ ((y ^ (y >> 11)) >> 11)
  }

  function UnfoldBy7(y: word): word {
    var seven := (y << 7) & 0x9d2c_5680;
    var fourteen := ((y ^ seven) << 7) & 0x9d2c_5680;
    var twentyOne := ((y ^ fourteen) << 7) & 0x9d2c_5680;
    y ^ (((y ^ twentyOne) << 7) & 0x9d2c_5680)
  }

  lemma UnfoldsWritten(x: word)
    ensures UnfoldBy11(x ^ (x >> 11)) == (x ^ (x >> 11)) ^ (((x ^ (x >> 11)) ^ ((x ^ (x >> 11)) >> 11)) >> 11)
    ensures FoldBy18(x ^ (x >> 18)) == (x ^ (x >> 18)) ^ ((x ^ (x >> 18)) >> 18)
  {
  }

  lemma ShiftedOut(x: word)
    requires x & 0xffff_ffff == x
    ensures (x ^ (x >> 11)) ^ (((x ^ (x >> 11)) ^ ((x ^ (x >> 11)) >> 11)) >> 11) == x
    ensures (x ^ (x >> 18)) ^ ((x ^ (x >> 18)) >> 18) == x
  {
  }

  lemma RightShiftsUndone(x: word)
    requires x & 0xffff_ffff == x
    ensures UnfoldBy11(FoldBy11(x)) == x && FoldBy18(FoldBy18(x)) == x
  {
    hide FoldBy11, FoldBy18, UnfoldBy11;
    FoldsWritten(x);
    UnfoldsWritten(x);
    ShiftedOut(x);
  }

  lemma SevenUndone(x: word)
    requires Fits(x)
    ensures UnfoldBy7(FoldBy7(x)) == x
  {
  }

  lemma FifteenUndone(x: word)
    requires Fits(x)
    ensures FoldBy15(FoldBy15(x)) == x
  {
  }

  lemma FitsMasked(x: word)
    requires Fits(x)
    ensures x & 0xffff_ffff == x
  {
  }

  lemma FoldsUndone(x: word)
    requires Fits(x)
    ensures UnfoldBy11(FoldBy11(x)) == x && FoldBy18(FoldBy18(x)) == x
    ensures UnfoldBy7(FoldBy7(x)) == x && FoldBy15(FoldBy15(x)) == x
  {
    hide Fits, FoldBy11, FoldBy7, FoldBy15, FoldBy18, UnfoldBy11, UnfoldBy7;
    FitsMasked(x);
    RightShiftsUndone(x);
    SevenUndone(x);
    FifteenUndone(x);
  }

  /** Nothing is lost: the tempered word gives back the word. */
  lemma UntemperTemper(x: word)
    requires Fits(x)
    ensures Untemper(Temper(x)) == x
  {
    hide Fits, FoldBy11, FoldBy7, FoldBy15, FoldBy18, UnfoldBy11, UnfoldBy7;
    FoldsFit(x);
    FoldsFit(FoldBy11(x));
    FoldsFit(FoldBy7(FoldBy11(x)));
    FoldsUndone(FoldBy15(FoldBy7(FoldBy11(x))));
    FoldsUndone(FoldBy7(FoldBy11(x)));
    FoldsUndone(FoldBy11(x));
    FoldsUndone(x);
  }

  // ----- seeding

  function FoldBy30(p: word): word {
    p ^ (p >> 30)
  }

  /** The next word of the seed sequence. */
  function NextSeedWord(prev: word, j: word): word {
    (1812433253 * FoldBy30(prev) + j) & 0xffff_ffff
  }

  lemma NextSeedWordFits(prev: word, j: word)
    ensures Fits(NextSeedWord(prev, j))
  {
  }

  /** The word before a word of the seed sequence. */
  function PreviousSeedWord(next: word, j: word): word {
    FoldBy30(((next - j) * 2520285293) & 0xffff_ffff)
  }

  lemma FoldBy30Twice(x: word)
    requires Fits(x)
    ensures FoldBy30(FoldBy30(x)) == x && FoldBy30(x) & 0xffff_ffff == FoldBy30(x)
  {
  }

  lemma NextWritten(prev: word, j: word)
    ensures NextSeedWord(prev, j) == (1812433253 * FoldBy30(prev) + j) & 0xffff_ffff
  {
    hide FoldBy30;
  }

  lemma PreviousWritten(p: word, j: word)
    ensures PreviousSeedWord((1812433253 * p + j) & 0xffff_ffff, j) == FoldBy30(p & 0xffff_ffff)
  {
    hide FoldBy30;
  }

  /** No two words have the same next word. */
  lemma SeedWordsAreInvertible(prev: word, j: word)
    requires Fits(prev)
    ensures PreviousSeedWord(NextSeedWord(prev, j), j) == prev
  {
    hide Fits, FoldBy30, PreviousSeedWord, NextSeedWord;
    NextWritten(prev, j);
    PreviousWritten(FoldBy30(prev), j);
    FoldBy30Twice(prev);
  }
}
