/** Walking from `begin()` with `++` until `end()`. */
module Traversal {
  import opened Index
  import opened Odometer

  predicate NonNegative(b: seq<int>) { forall i :: 0 <= i < |b| ==> b[i] >= 0 }

  /** The index after k steps from begin(). */
  function Orbit(b: seq<int>, k: nat): (c: seq<int>)
    ensures |c| == |b|
  {
    if k == 0 then Zeros(|b|) else Inc(b, Orbit(b, k - 1))
  }

  /** A zero extent makes `++` wrap exactly like an extent of one. */
  function Clamp(b: seq<int>): (d: seq<int>)
    ensures |d| == |b| && Positive(d)
    ensures forall i :: 0 <= i < |b| ==> d[i] == if b[i] < 1 then 1 else b[i]
    ensures Positive(b) ==> d == b
  {
    seq(|b|, i requires 0 <= i < |b| => if b[i] < 1 then 1 else b[i])
  }

  lemma {:induction false} StepClamp(b: seq<int>, c: seq<int>)
    requires |b| == |c| && NonNegative(b) && NonNegative(c)
    ensures Step(b, c) == Step(Clamp(b), c)
  {
    if b != [] {
      StepClamp(b[1..], c[1..]);
      assert Clamp(b)[1..] == Clamp(b[1..]);
    }
  }

  /** The k-th index is the k-th position of the clamped space; then comes the boundary. */
  lemma {:induction false} OrbitIsUnrank(b: seq<int>, k: nat)
    requires NonNegative(b) && k <= Size(Clamp(b))
    ensures k < Size(Clamp(b)) ==>
              Orbit(b, k) == Unrank(Clamp(b), k) && InRange(Clamp(b), Orbit(b, k)) &&
              Rank(Clamp(b), Orbit(b, k)) == k
    ensures k == Size(Clamp(b)) ==> Orbit(b, k) == b
  {
    var d := Clamp(b);
    SizePositive(d);
    if k < Size(d) { RankOfUnrank(d, k); }
    if k == 0 {
      UnrankZero(d);
    } else {
      OrbitIsUnrank(b, k - 1);
      StepClamp(b, Orbit(b, k - 1));
      StepIsSuccessor(d, Orbit(b, k - 1));
    }
  }

  /** With positive extents the walk visits every index of the space once, in lexicographic
      order, and reaches end() after exactly as many steps as there are cells. */
  lemma {:induction false} FullTraversal(b: seq<int>)
    requires Positive(b)
    ensures Size(b) >= 1 && Orbit(b, Size(b)) == b
    ensures forall k :: 0 <= k < Size(b) ==>
              InRange(b, Orbit(b, k)) && Rank(b, Orbit(b, k)) == k &&
              (b != [] ==> Orbit(b, k) != b)
    ensures forall idx :: InRange(b, idx) ==>
              0 <= Rank(b, idx) < Size(b) && Orbit(b, Rank(b, idx)) == idx
    ensures forall j, k :: 0 <= j < k < Size(b) ==> LexLess(Orbit(b, j), Orbit(b, k))
  {
    SizePositive(b);
    OrbitIsUnrank(b, Size(b));
    forall k | 0 <= k < Size(b)
      ensures InRange(b, Orbit(b, k)) && Rank(b, Orbit(b, k)) == k && Orbit(b, k) == Unrank(b, k)
    {
      OrbitIsUnrank(b, k);
    }
    forall idx | InRange(b, idx)
      ensures 0 <= Rank(b, idx) < Size(b) && Orbit(b, Rank(b, idx)) == idx
    {
      RankBounds(b, idx);
      UnrankOfRank(b, idx);
    }
    forall j, k | 0 <= j < k < Size(b)
      ensures LexLess(Orbit(b, j), Orbit(b, k))
    {
      RankIsLexOrder(b, Orbit(b, j), Orbit(b, k));
    }
  }

  /** size - linearize(curr) strictly decreases, down to 0 at the end. */
  lemma {:induction false} TraversalMeasure(b: seq<int>, k: nat)
    requires Positive(b) && b != [] && k < Size(b)
    ensures Size(b) - Lin(b, Orbit(b, k)) == Size(b) - k > 0
    ensures Size(b) - Lin(b, Orbit(b, k + 1)) == Size(b) - k - 1
  {
    LinOfOrbit(b, k);
    if k + 1 < Size(b) { LinOfOrbit(b, k + 1); }
    OrbitIsUnrank(b, k + 1);
    LinOfBoundary(b);
  }

  lemma {:induction false} LinOfOrbit(b: seq<int>, k: nat)
    requires Positive(b) && b != [] && k < Size(b)
    ensures Lin(b, Orbit(b, k)) == k
  {
    OrbitIsUnrank(b, k);
    var c := Orbit(b, k);
    assert c != b by { assert c[0] < b[0]; }
    ValidForm(b, c);
  }

  /** Number of steps before the walk meets end(). */
  function Steps(b: seq<int>): nat
    requires NonNegative(b)
  {
    SizePositive(Clamp(b));
    if b == Zeros(|b|) then 0 else Size(Clamp(b))
  }

  /** For any extents, zero ones included, the walk first meets end() after Steps(b) steps. */
  lemma {:induction false} FirstEnd(b: seq<int>)
    requires NonNegative(b) && b != []
    ensures Orbit(b, Steps(b)) == b
    ensures forall k :: 0 <= k < Steps(b) ==> Orbit(b, k) != b
  {
    if b != Zeros(|b|) {
      OrbitIsUnrank(b, Steps(b));
      forall k | 0 <= k < Steps(b)
        ensures Orbit(b, k) != b
      {
        OrbitIsUnrank(b, k);
        var i :| 0 <= i < |b| && b[i] != 0;
        assert Orbit(b, k)[i] < Clamp(b)[i] == b[i];
      }
    }
  }

  lemma {:induction false} SizeZero(b: seq<int>)
    requires NonNegative(b) && !Positive(b)
    ensures Size(b) == 0
  {
    assert b == [b[0]] + b[1..];
    if b[0] >= 1 {
      SizeZero(b[1..]);
    } else {
      assert b[0] * Size(b[1..]) == 0;
    }
  }

  /** The walk makes as many steps as there are cells exactly when no extent is zero or all
      are: an empty space with some non-zero extent is walked through all the same. */
  lemma {:induction false} StepsAreCellsIff(b: seq<int>)
    requires NonNegative(b) && b != []
    ensures Steps(b) == Size(b) <==> Positive(b) || b == Zeros(|b|)
  {
    SizePositive(Clamp(b));
    if !Positive(b) { SizeZero(b); }
  }
}
