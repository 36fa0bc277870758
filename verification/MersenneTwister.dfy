/** The Mersenne Twister of aux::RandomNumberGenerator: a block of 624 words is
    refreshed in place. */
module MersenneTwister {

  import opened TwisterWords

  const N: nat := 624
  const M: nat := 397
  const DEFAULT_SEED: word := 5489

  /** uni_rand_init as a sequence. */
  function SeedWord(seed: word, j: nat): word
    requires j < N
  {
    if j == 0 then seed & 0xffff_ffff else NextSeedWord(SeedWord(seed, j - 1), j as word)
  }

  lemma FirstSeedWord(seed: word)
    ensures SeedWord(seed, 0) == seed & 0xffff_ffff
  {
  }

  lemma SeedWordStep(seed: word, j: nat)
    requires 0 < j < N
    ensures SeedWord(seed, j) == NextSeedWord(SeedWord(seed, j - 1), j as word)
  {
  }

  /** The sequence that the generator is defined by:
      x[k + 624] = x[k + 397] xor twist(x[k], x[k + 1]). */
  function X(seed: word, k: nat): word {
    if k < N then SeedWord(seed, k)
    else Xor(X(seed, k - N + M), Twist(X(seed, k - N), X(seed, k - N + 1)))
  }

  lemma Recurrence(seed: word, k: nat)
    ensures X(seed, k + 624) == Xor(X(seed, k + 397), Twist(X(seed, k), X(seed, k + 1)))
  {
  }

  /** No word of the sequence ever needs more than 32 bits. */
  lemma {:induction false} SequenceFits(seed: word, k: nat)
    ensures Fits(X(seed, k))
  {
    hide Twist, Xor, NextSeedWord, Fits;
    if k >= N {
      SequenceFits(seed, k - N + M);
      TwistFits(X(seed, k - N), X(seed, k - N + 1));
      XorFits(X(seed, k - N + M), Twist(X(seed, k - N), X(seed, k - N + 1)));
    } else if k > 0 {
      NextSeedWordFits(SeedWord(seed, k - 1), k as word);
    } else {
      FirstSeedWordFits(seed);
    }
  }

  lemma FirstSeedWordFits(seed: word)
    ensures Fits(SeedWord(seed, 0))
  {
  }

  /** The words that the default seed leads to. */
  lemma DefaultSeedWords()
    ensures SeedWord(DEFAULT_SEED, 0) == 5489 && SeedWord(DEFAULT_SEED, 1) == 1301868182
    ensures SeedWord(DEFAULT_SEED, 2) == 2938499221 && SeedWord(DEFAULT_SEED, 3) == 2950281878
  {
    SeedWordStep(DEFAULT_SEED, 1);
    SeedWordStep(DEFAULT_SEED, 2);
    SeedWordStep(DEFAULT_SEED, 3);
  }

  /** The seed below 2^32 can be told from any word of the seed sequence. */
  lemma {:induction false} SeedsAreDistinguished(seed: word, other: word, j: nat)
    requires j < N && SeedWord(seed, j) == SeedWord(other, j)
    ensures seed & 0xffff_ffff == other & 0xffff_ffff
  {
    hide NextSeedWord, PreviousSeedWord, Fits;
    if j > 0 {
      SequenceFits(seed, j - 1);
      SequenceFits(other, j - 1);
      SeedWordsAreInvertible(SeedWord(seed, j - 1), j as word);
      SeedWordsAreInvertible(SeedWord(other, j - 1), j as word);
      SeedsAreDistinguished(seed, other, j - 1);
    }
  }

  class Generator {
    const state: array<word>
    var left: int
    var initf: bool
    var next: nat
    // for the specification: the seed, and where state[0] stands in the sequence
    ghost var seed: word
    ghost var base: nat

    /** The array holds a block of the sequence, if it has been seeded. */
    ghost predicate BlockOk()
      reads this, state
    {
      && state.Length == N
      && (!initf ==> base == 0 && seed == DEFAULT_SEED)
      && (initf ==> forall i :: 0 <= i < N ==> state[i] == X(seed, base + i))
    }

    ghost predicate Valid()
      reads this, state
    {
      && BlockOk() && 1 <= left <= N
      && (left > 1 ==> next == N + 1 - left)
      && (!initf ==> left == 1)
    }

    /** The place in the sequence of the word that the next output is made of. */
    ghost function NextIndex(): int
      reads this
    {
      base + N + 1 - left
    }

    constructor ()
      ensures Valid() && fresh(state) && !initf && seed == DEFAULT_SEED && NextIndex() == N
    {
      state := new word[N];
      left, initf, next := 1, false, 0;
      seed, base := DEFAULT_SEED, 0;
    }

    /** uni_rand_init */
    method UniRandInit(newSeed: word)
      requires state.Length == N
      modifies this, state
      ensures Valid() && initf && seed == newSeed && base == 0 && NextIndex() == N
    {
      hide NextSeedWord, SeedWord;
      state[0] := newSeed & 0xffff_ffff;
      FirstSeedWord(newSeed);
      for j := 1 to N
        invariant forall i :: 0 <= i < j ==> state[i] == SeedWord(newSeed, i)
      {
        state[j] := NextSeedWord(state[j - 1], j as word);
        SeedWordStep(newSeed, j);
      }
      left, initf := 1, true;
      seed, base := newSeed, 0;
    }

    /** The words before `p` are those of the next block, the others still those
        of this one. */
    ghost predicate Refreshed(p: nat)
      reads this, state
    {
      && state.Length == N && p <= N
      && (forall i :: 0 <= i < p ==> state[i] == X(seed, base + N + i))
      && (forall i :: p <= i < N ==> state[i] == X(seed, base + i))
    }

    /** The first loop of mt_next_state: p[M] is still to be refreshed. */
    method RefreshLow()
      requires Refreshed(0)
      modifies state
      ensures Refreshed(N - M)
    {
      hide Xor, Twist, X;
      for p := 0 to N - M
        invariant Refreshed(p)
      {
        Recurrence(seed, base + p);
        state[p] := Xor(state[p + M], Twist(state[p], state[p + 1]));
      }
    }

    /** The second loop: p[M - N] has been refreshed already. */
    method RefreshHigh()
      requires Refreshed(N - M)
      modifies state
      ensures Refreshed(N - 1)
    {
      hide Xor, Twist, X;
      for p := N - M to N - 1
        invariant Refreshed(p)
      {
        Recurrence(seed, base + p);
        state[p] := Xor(state[p + M - N], Twist(state[p], state[p + 1]));
      }
    }

    /** The last word, twisted with the first one of the next block. */
    method RefreshLast()
      requires Refreshed(N - 1)
      modifies state
      ensures Refreshed(N)
    {
      hide Xor, Twist, X;
      Recurrence(seed, base + N - 1);
      state[N - 1] := Xor(state[M - 1], Twist(state[N - 1], state[0]));
    }

    /** mt_next_state: all words move on by a whole block. */
    method NextState()
      requires BlockOk()
      modifies this, state
      ensures initf && seed == old(seed) && base == old(base) + N && left == N && next == 0
      ensures Refreshed(0)
    {
      hide Xor, Twist, X;
      if !initf { UniRandInit(DEFAULT_SEED); }
      left, next := N, 0;
      RefreshLow();
      RefreshHigh();
      RefreshLast();
      base := base + N;
    }

    /** uni_rand_int32: the next word of the sequence, tempered. */
    method UniRandInt32() returns (y: word)
      requires Valid()
      modifies this, state
      ensures Valid() && seed == old(seed) && NextIndex() == old(NextIndex()) + 1
      ensures y == Temper(X(seed, old(NextIndex()))) && Fits(y)
    {
      hide X, Temper, Fits;
      SequenceFits(seed, NextIndex());
      TemperFits(X(seed, NextIndex()));
      left := left - 1;
      if left == 0 { NextState(); }
      y := Temper(state[next]);
      next := next + 1;
    }
  }

  /** Any number of outputs: the i-th is the i-th word behind the seeds, tempered. */
  method Generate(seed: word, n: nat) returns (outputs: seq<word>)
    ensures |outputs| == n && forall i :: 0 <= i < n ==> outputs[i] == Temper(X(seed, N + i)) && Fits(outputs[i])
  {
    hide X, Temper, Fits;
    var g := new Generator();
    g.UniRandInit(seed);
    outputs := [];
    for i := 0 to n
      invariant g.Valid() && fresh(g) && fresh(g.state) && g.seed == seed && g.NextIndex() == N + i
      invariant |outputs| == i && forall j :: 0 <= j < i ==> outputs[j] == Temper(X(seed, N + j)) && Fits(outputs[j])
    {
      var y := g.UniRandInt32();
      outputs := outputs + [y];
    }
  }
}
