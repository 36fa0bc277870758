/** Sequences made of pieces of equal size, writing into a sequence, and slices
    of slices. */
module Sequences {

  /** Where piece `y` starts when every piece has `size` elements. */
  function Start(y: nat, size: nat): nat {
    if y == 0 then 0 else Start(y - 1, size) + size
  }

  lemma {:induction false} StartIsProduct(y: nat, size: nat)
    ensures Start(y, size) == y * size
  {
    if y > 0 { StartIsProduct(y - 1, size); }
  }

  lemma {:induction false} StartMonotone(y: nat, h: nat, size: nat)
    requires y <= h
    ensures Start(y, size) <= Start(h, size)
    decreases h - y
  {
    if y < h { StartMonotone(y + 1, h, size); }
  }

  /** The offset as programs compute it. */
  method RowOffset(size: nat, y: nat) returns (index: nat)
    ensures index == Start(y, size)
  {
    StartIsProduct(y, size);
    index := size * y;
  }

  /** The unit `q` lies in one of the `n` pieces of `u` units. */
  lemma {:induction false} Piece(q: nat, n: nat, u: nat) returns (k: nat)
    requires q < Start(n, u)
    ensures k < n && Start(k, u) <= q < Start(k + 1, u)
  {
    if q < Start(n - 1, u) { k := Piece(q, n - 1, u); } else { k := n - 1; }
  }

  /** `before` with `line` written at `o`. */
  ghost function Written<T>(before: seq<T>, o: nat, line: seq<T>): (now: seq<T>)
    requires o + |line| <= |before|
    ensures |now| == |before|
  {
    before[..o] + line + before[o + |line|..]
  }

  lemma WrittenSnoc<T>(before: seq<T>, o: nat, line: seq<T>, v: T)
    requires o + |line| < |before|
    ensures Written(before, o, line)[o + |line| := v] == Written(before, o, line + [v])
  {
  }

  lemma WrittenTwice<T>(before: seq<T>, o: nat, a: seq<T>, b: seq<T>)
    requires o + |a| + |b| <= |before|
    ensures Written(Written(before, o, a), o + |a|, b) == Written(before, o, a + b)
  {
  }

  lemma WrittenReads<T>(before: seq<T>, o: nat, line: seq<T>, i: nat)
    requires o + |line| <= |before| && i < |before|
    ensures Written(before, o, line)[i] == if o <= i < o + |line| then line[i - o] else before[i]
  {
  }

  lemma WrittenNothing<T>(before: seq<T>, o: nat)
    requires o <= |before|
    ensures Written(before, o, []) == before
  {
  }

  lemma WrittenKeeps<T>(before: seq<T>, o: nat, line: seq<T>, p: nat, n: nat)
    requires o + |line| <= p && p + n <= |before|
    ensures Written(before, o, line)[p..p + n] == before[p..p + n]
  {
  }

  lemma WrittenWhole<T>(before: seq<T>, line: seq<T>)
    requires |line| == |before|
    ensures Written(before, 0, line) == line
  {
  }

  lemma WrittenFirst<T>(before: seq<T>, line: seq<T>)
    requires |line| <= |before|
    ensures Written(before, 0, line)[..|line|] == line
  {
  }

  lemma WrittenBelow<T>(s: seq<T>, o: nat, line: seq<T>, a: nat, b: nat)
    requires a <= b <= o && o + |line| <= |s|
    ensures Written(s, o, line)[a..b] == s[a..b]
  {
  }

  lemma Nested<T>(s: seq<T>, a: nat, b: nat, c: nat, d: nat)
    requires a <= b <= |s| && c <= d <= b - a
    ensures s[a..b][c..d] == s[a + c..a + d]
  {
    forall i | 0 <= i < d - c ensures s[a..b][c..d][i] == s[a + c..a + d][i] {
      assert s[a..b][c..d][i] == s[a..b][c + i];
    }
  }
}
