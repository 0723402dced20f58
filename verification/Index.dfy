/** Row-major geometry of an index space of any rank: the independent reference the bounds,
    the iterator and the spans are compared with. An index and the extents are sequences of the
    same length, outermost dimension first. */
module Index {
  import opened Arith

  predicate Positive(b: seq<int>) { forall i :: 0 <= i < |b| ==> b[i] >= 1 }

  predicate InRange(b: seq<int>, idx: seq<int>) {
    |idx| == |b| && forall i :: 0 <= i < |b| ==> 0 <= idx[i] < b[i]
  }

  /** Number of cells: the product of the extents. */
  function Size(b: seq<int>): int {
    if b == [] then 1 else b[0] * Size(b[1..])
  }

  /** Row-major strides: stride i is the number of cells of the dimensions inside i. */
  function Strides(b: seq<int>): (s: seq<int>)
    ensures |s| == |b|
    ensures forall i :: 0 <= i < |b| ==> s[i] == Size(b[i + 1..])
  {
    if b == [] then [] else
      var rest := Strides(b[1..]);
      assert forall i :: 1 <= i < |b| ==> b[1..][i..] == b[i + 1..];
      [Size(b[1..])] + rest
  }

  function Dot(idx: seq<int>, strides: seq<int>): int
    requires |idx| == |strides|
  {
    if idx == [] then 0 else idx[0] * strides[0] + Dot(idx[1..], strides[1..])
  }

  /** Position of an index in row-major order (Horner form; total, so it also gives the
      linear value of digits outside their range). */
  function Rank(b: seq<int>, idx: seq<int>): int
    requires |idx| == |b|
  {
    if b == [] then 0 else idx[0] * Size(b[1..]) + Rank(b[1..], idx[1..])
  }

  /** The index at a position: mixed-radix digits. */
  function Unrank(b: seq<int>, pos: int): (idx: seq<int>)
    requires Positive(b)
    ensures |idx| == |b|
  {
    if b == [] then [] else
      SizePositive(b[1..]);
      [pos / Size(b[1..])] + Unrank(b[1..], pos % Size(b[1..]))
  }

  predicate LexLess(x: seq<int>, y: seq<int>)
    requires |x| == |y|
  {
    x != [] && (x[0] < y[0] || (x[0] == y[0] && LexLess(x[1..], y[1..])))
  }

  function Zeros(n: nat): (z: seq<int>)
    ensures |z| == n && forall i :: 0 <= i < n ==> z[i] == 0
  {
    seq(n, _ => 0)
  }

  /** The last index: every component one below its extent. */
  function Last(b: seq<int>): (l: seq<int>)
    ensures |l| == |b| && forall i :: 0 <= i < |b| ==> l[i] == b[i] - 1
  {
    seq(|b|, i requires 0 <= i < |b| => b[i] - 1)
  }

  function AddIdx(x: seq<int>, y: seq<int>): (z: seq<int>)
    requires |x| == |y|
    ensures |z| == |x| && forall i :: 0 <= i < |x| ==> z[i] == x[i] + y[i]
  {
    seq(|x|, i requires 0 <= i < |x| => x[i] + y[i])
  }

  lemma {:induction false} SizePositive(b: seq<int>)
    requires Positive(b)
    ensures Size(b) >= 1
  {
    if b != [] {
      SizePositive(b[1..]);
      MulPositive(b[0], Size(b[1..]));
    }
  }

  /** The inner positions form a block: moving one step in the outermost dimension is moving
      one whole block. */
  lemma {:induction false} RankBounds(b: seq<int>, idx: seq<int>)
    requires InRange(b, idx)
    ensures 0 <= Rank(b, idx) < Size(b)
  {
    if b != [] {
      var s := Size(b[1..]);
      RankBounds(b[1..], idx[1..]);
      MulMono(idx[0] + 1, b[0], s);
      MulMono(0, idx[0], s);
    }
  }

  /** Positions and in-range indices correspond one to one: Unrank after Rank. */
  lemma {:induction false} UnrankOfRank(b: seq<int>, idx: seq<int>)
    requires Positive(b) && InRange(b, idx)
    ensures Unrank(b, Rank(b, idx)) == idx
  {
    if b != [] {
      RankBounds(b[1..], idx[1..]);
      DivModUnique(idx[0], Rank(b[1..], idx[1..]), Size(b[1..]));
      UnrankOfRank(b[1..], idx[1..]);
      assert idx == [idx[0]] + idx[1..];
    }
  }

  /** Positions and in-range indices correspond one to one: Rank after Unrank, onto
      the whole of [0, Size). */
  lemma {:induction false} RankOfUnrank(b: seq<int>, pos: int)
    requires Positive(b) && 0 <= pos < Size(b)
    ensures InRange(b, Unrank(b, pos)) && Rank(b, Unrank(b, pos)) == pos
  {
    if b != [] {
      var s := Size(b[1..]);
      SizePositive(b[1..]);
      assert pos == (pos / s) * s + pos % s;
      DivBounds(pos, s, b[0]);
      RankOfUnrank(b[1..], pos % s);
      assert Unrank(b, pos)[1..] == Unrank(b[1..], pos % s);
    }
  }

  /** Row-major position is the lexicographic order. */
  lemma {:induction false} RankIsLexOrder(b: seq<int>, x: seq<int>, y: seq<int>)
    requires InRange(b, x) && InRange(b, y)
    ensures LexLess(x, y) <==> Rank(b, x) < Rank(b, y)
    ensures x == y <==> Rank(b, x) == Rank(b, y)
  {
    if b != [] {
      var s := Size(b[1..]);
      RankBounds(b[1..], x[1..]);
      RankBounds(b[1..], y[1..]);
      RankIsLexOrder(b[1..], x[1..], y[1..]);
      DigitOrder(x[0], Rank(b[1..], x[1..]), y[0], Rank(b[1..], y[1..]), s);
      assert x == [x[0]] + x[1..] && y == [y[0]] + y[1..];
    }
  }

  /** The Horner form is the dot product with the row-major strides. */
  lemma {:induction false} RankIsDot(b: seq<int>, idx: seq<int>)
    requires |idx| == |b|
    ensures Rank(b, idx) == Dot(idx, Strides(b))
  {
    if b != [] {
      RankIsDot(b[1..], idx[1..]);
      assert Strides(b)[1..] == Strides(b[1..]);
    }
  }

  /** The last cell of a contiguous block: 1 + sum of (extent - 1) * stride is the product. */
  lemma {:induction false} RankOfLast(b: seq<int>)
    ensures Rank(b, Last(b)) == Size(b) - 1
  {
    if b != [] {
      RankOfLast(b[1..]);
      assert Last(b)[1..] == Last(b[1..]);
      assert (b[0] - 1) * Size(b[1..]) == b[0] * Size(b[1..]) - Size(b[1..]);
    }
  }

  lemma {:induction false} RankOfZeros(b: seq<int>)
    ensures Rank(b, Zeros(|b|)) == 0
  {
    if b != [] {
      RankOfZeros(b[1..]);
      assert Zeros(|b|)[1..] == Zeros(|b[1..]|);
    }
  }

  lemma {:induction false} UnrankZero(b: seq<int>)
    requires Positive(b)
    ensures Unrank(b, 0) == Zeros(|b|)
  {
    SizePositive(b);
    var z := Zeros(|b|);
    RankOfZeros(b);
    UnrankOfRank(b, z);
  }

  lemma {:induction false} DotAdd(x: seq<int>, y: seq<int>, s: seq<int>)
    requires |x| == |y| == |s|
    ensures Dot(AddIdx(x, y), s) == Dot(x, s) + Dot(y, s)
  {
    if x != [] {
      DotAdd(x[1..], y[1..], s[1..]);
      assert AddIdx(x, y)[1..] == AddIdx(x[1..], y[1..]);
      assert (x[0] + y[0]) * s[0] == x[0] * s[0] + y[0] * s[0];
    }
  }

  lemma {:induction false} DotMono(x: seq<int>, y: seq<int>, s: seq<int>)
    requires |x| == |y| == |s|
    requires forall i :: 0 <= i < |x| ==> x[i] <= y[i] && s[i] >= 0
    ensures Dot(x, s) <= Dot(y, s)
  {
    if x != [] {
      MulMono(x[0], y[0], s[0]);
      DotMono(x[1..], y[1..], s[1..]);
    }
  }

  lemma {:induction false} DotNonNegative(x: seq<int>, s: seq<int>)
    requires |x| == |s|
    requires forall i :: 0 <= i < |x| ==> x[i] >= 0 && s[i] >= 0
    ensures Dot(x, s) >= 0
  {
    if x != [] {
      MulMono(0, x[0], s[0]);
      DotNonNegative(x[1..], s[1..]);
    }
  }
}
