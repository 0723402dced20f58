/** The index iterator as functions on sequences, and what it does: over every run it is a
    counter. `b` is the boundary (the extents), `c` the current index. */
module Odometer {
  import opened Arith
  import opened Wrappers
  import opened Index

  // ---------------------------------------------------------------- operations

  /** The source's `less`: some component is smaller. */
  predicate Less(one: seq<int>, other: seq<int>)
    requires |one| == |other|
  {
    exists i :: 0 <= i < |one| && one[i] < other[i]
  }

  /** Carry from the innermost component outwards; None when every component wrapped. */
  function Step(b: seq<int>, c: seq<int>): (r: Option<seq<int>>)
    requires |b| == |c|
    ensures r.Some? ==> |r.value| == |c|
  {
    if b == [] then None else
      match Step(b[1..], c[1..])
      case Some(t) => Some([c[0]] + t)
      case None => if c[0] < b[0] - 1 then Some([c[0] + 1] + Zeros(|b| - 1)) else None
  }

  /** `++`: past the last index comes the boundary itself. */
  function Inc(b: seq<int>, c: seq<int>): (r: seq<int>)
    requires |b| == |c|
    ensures |r| == |b|
  {
    match Step(b, c)
    case Some(n) => n
    case None => b
  }

  /** Borrow from the innermost component outwards; None when every component was zero. */
  function StepBack(b: seq<int>, c: seq<int>): (r: Option<seq<int>>)
    requires |b| == |c|
    ensures r.Some? ==> |r.value| == |c|
  {
    if b == [] then None else
      match StepBack(b[1..], c[1..])
      case Some(t) => Some([c[0]] + t)
      case None => if c[0] >= 1 then Some([c[0] - 1] + Last(b[1..])) else None
  }

  /** `--`, None when its `Expects` fails. */
  function Dec(b: seq<int>, c: seq<int>): (r: Option<seq<int>>)
    requires |b| == |c|
    ensures r.Some? ==> |r.value| == |b|
  {
    if !Less(c, b) then Some(Last(b)) else StepBack(b, c)
  }

  /** The linear position, with the past-the-end form counted from the last index. */
  function Lin(b: seq<int>, c: seq<int>): int
    requires |b| == |c|
  {
    if !Less(c, b) then 1 + Rank(b, Last(c)) else Rank(b, c)
  }

  /** Mixed-radix digits of a linear position, with C++ division. */
  function Digits(b: seq<int>, pos: int): (c: seq<int>)
    requires Positive(b)
    ensures |c| == |b|
  {
    if b == [] then [] else
      SizePositive(b[1..]);
      var s := Size(b[1..]);
      [TruncDiv(pos, s)] + Digits(b[1..], TruncMod(pos, s))
  }

  /** `+=`, None when its final `Expects` fails. */
  function Jump(b: seq<int>, c: seq<int>, n: int): (r: Option<seq<int>>)
    requires |b| == |c| && Positive(b)
    ensures r.Some? ==> |r.value| == |b|
  {
    var d := Digits(b, Lin(b, c) + n);
    if !Less(d, Zeros(|b|)) && !Less(b, d) then Some(d) else None
  }

  // ---------------------------------------------------------------- single steps

  /** The outermost digit of a position and the position inside its block. */
  lemma {:induction false} UnrankCons(b: seq<int>, q: int, r: int)
    requires Positive(b) && b != [] && 0 <= r < Size(b[1..])
    ensures Unrank(b, q * Size(b[1..]) + r) == [q] + Unrank(b[1..], r)
    ensures q * Size(b[1..]) + r < Size(b) <==> q < b[0]
    ensures q * Size(b[1..]) + r >= 0 <==> q >= 0
  {
    var s := Size(b[1..]);
    DivModUnique(q, r, s);
    DigitOrder(q, r, b[0], 0, s);
    DigitOrder(q, r, 0, 0, s);
  }

  lemma {:induction false} NextBlock(q: int, s: int)
    ensures q * s + s == (q + 1) * s + 0
    ensures q * s - 1 == (q - 1) * s + (s - 1)
  {
  }

  /** `++` inside the space goes to the next position. */
  lemma {:induction false} StepIsSuccessor(b: seq<int>, c: seq<int>)
    requires Positive(b) && InRange(b, c)
    ensures Step(b, c) == if Rank(b, c) + 1 < Size(b) then Some(Unrank(b, Rank(b, c) + 1)) else None
  {
    if b != [] {
      var s, r := Size(b[1..]), Rank(b[1..], c[1..]);
      RankBounds(b[1..], c[1..]);
      StepIsSuccessor(b[1..], c[1..]);
      if r + 1 < s {
        UnrankCons(b, c[0], r + 1);
      } else {
        NextBlock(c[0], s);
        UnrankCons(b, c[0] + 1, 0);
        UnrankZero(b[1..]);
      }
    }
  }

  /** `--` inside the space goes to the previous position. */
  lemma {:induction false} StepBackIsPredecessor(b: seq<int>, c: seq<int>)
    requires Positive(b) && InRange(b, c)
    ensures StepBack(b, c) == if Rank(b, c) > 0 then Some(Unrank(b, Rank(b, c) - 1)) else None
  {
    if b != [] {
      var s, r := Size(b[1..]), Rank(b[1..], c[1..]);
      RankBounds(b[1..], c[1..]);
      StepBackIsPredecessor(b[1..], c[1..]);
      if r > 0 {
        UnrankCons(b, c[0], r - 1);
      } else {
        NextBlock(c[0], s);
        UnrankCons(b, c[0] - 1, s - 1);
        UnrankLast(b[1..]);
      }
    }
  }

  lemma {:induction false} UnrankLast(b: seq<int>)
    requires Positive(b)
    ensures Unrank(b, Size(b) - 1) == Last(b)
  {
    RankOfLast(b);
    UnrankOfRank(b, Last(b));
  }

  // ---------------------------------------------------------------- jumps

  lemma {:induction false} NegativeDigit(b: seq<int>, pos: int) returns (i: nat)
    requires Positive(b) && b != [] && pos < 0
    ensures i < |b| && Digits(b, pos)[i] < 0
  {
    var s := Size(b[1..]);
    SizePositive(b[1..]);
    TruncDivMod(pos, s);
    if TruncDiv(pos, s) < 0 {
      i := 0;
    } else {
      assert TruncMod(pos, s) == pos;
      assert b[1..] != [];
      i := NegativeDigit(b[1..], pos);
      i := i + 1;
    }
  }

  /** Inside the space the digits of C++ division are the index at that position. */
  lemma {:induction false} DigitsAreUnrank(b: seq<int>, pos: int)
    requires Positive(b) && pos >= 0
    ensures Digits(b, pos) == Unrank(b, pos)
  {
    if b != [] {
      SizePositive(b[1..]);
      TruncDivMod(pos, Size(b[1..]));
      DigitsAreUnrank(b[1..], pos % Size(b[1..]));
    }
  }

  /** Form of a landing: outermost component by division, the rest in range. */
  lemma {:induction false} LandingForm(b: seq<int>, pos: int)
    requires Positive(b) && b != [] && pos >= 0
    ensures Size(b[1..]) >= 1
    ensures var d := Digits(b, pos);
            d[0] == pos / Size(b[1..]) >= 0 && InRange(b[1..], d[1..]) && Rank(b, d) == pos
  {
    SizePositive(b[1..]);
    var s := Size(b[1..]);
    DigitsAreUnrank(b, pos);
    SizePositive(b[1..]);
    RankOfUnrank(b[1..], pos % s);
    DivBounds(pos, s, 0);
    assert pos == (pos / s) * s + pos % s;
  }

  lemma {:induction false} InnerIsLess(b: seq<int>, c: seq<int>, i: nat)
    requires |c| == |b| && 0 < i < |b| && InRange(b[1..], c[1..])
    ensures c[i] < b[i]
  {
    assert c[i] == c[1..][i - 1] && b[i] == b[1..][i - 1];
  }

  /** Linear value of a landing, whether or not it counts as past the end. */
  lemma {:induction false} LinOfLanding(b: seq<int>, c: seq<int>)
    requires Positive(b) && b != [] && |c| == |b|
    requires 0 <= c[0] <= b[0] && InRange(b[1..], c[1..])
    ensures Lin(b, c) == Rank(b, c)
  {
    if !Less(c, b) {
      if |b| > 1 { InnerIsLess(b, c, 1); }
      assert Last(c)[1..] == [] && c[1..] == [] && b[1..] == [];
    }
  }

  lemma {:induction false} LinOfBoundary(b: seq<int>)
    ensures Lin(b, b) == Size(b)
  {
    RankOfLast(b);
  }

  /** `+=` passes its check exactly when the target position lies in [0, size + stride 0), from
      any index whatever, and the result then sits at exactly that position. */
  lemma {:induction false} JumpExact(b: seq<int>, c: seq<int>, n: int)
    requires Positive(b) && b != [] && |c| == |b|
    ensures var target := Lin(b, c) + n;
            (Jump(b, c, n).Some? <==> 0 <= target < Size(b) + Size(b[1..])) &&
            (Jump(b, c, n).Some? ==>
               Jump(b, c, n).value == Digits(b, target) && Lin(b, Jump(b, c, n).value) == target)
  {
    var target := Lin(b, c) + n;
    var d := Digits(b, target);
    var s := Size(b[1..]);
    SizePositive(b[1..]);
    if target < 0 {
      var i := NegativeDigit(b, target);
      assert d[i] < Zeros(|b|)[i];
    } else {
      LandingForm(b, target);
      DivBounds(target, s, b[0] + 1);
      assert (b[0] + 1) * s == Size(b) + s;
      forall i | 0 < i < |b| ensures 0 <= d[i] < b[i] {
        assert d[i] == d[1..][i - 1] && b[i] == b[1..][i - 1];
      }
      if d[0] <= b[0] {
        LinOfLanding(b, d);
      } else {
        assert b[0] < d[0];
      }
    }
  }

  /** Two accepted jumps are one jump, and the distance between iterators is the jump. */
  lemma {:induction false} JumpsAdd(b: seq<int>, c: seq<int>, m: int, n: int)
    requires Positive(b) && b != [] && |c| == |b| && Jump(b, c, m).Some?
    ensures Jump(b, Jump(b, c, m).value, n) == Jump(b, c, m + n)
    ensures Lin(b, Jump(b, c, m).value) - Lin(b, c) == m
  {
    JumpExact(b, c, m);
    JumpExact(b, Jump(b, c, m).value, n);
    JumpExact(b, c, m + n);
  }

  // ---------------------------------------------------------------- every run is a counter

  /** Indices an iterator can hold: in range, the boundary, or the outermost component at its
      bound with the rest in range (left by a jump to the end or beyond). */
  predicate Valid(b: seq<int>, c: seq<int>) {
    |c| == |b| >= 1 && Positive(b) &&
    (c == b || (0 <= c[0] <= b[0] && InRange(b[1..], c[1..])))
  }

  /** The abstract iterator: a position, or the boundary that `++` leaves at the end. */
  datatype Position = At(pos: int) | PastEnd

  predicate ValidPosition(b: seq<int>, p: Position)
    requires b != []
  {
    p.At? ==> 0 <= p.pos < Size(b) + Size(b[1..]) && (|b| == 1 ==> p.pos < Size(b))
  }

  function Abstract(b: seq<int>, c: seq<int>): Position
    requires |b| == |c|
  {
    if c == b then PastEnd else At(Rank(b, c))
  }

  function Concrete(b: seq<int>, p: Position): seq<int>
    requires Positive(b) && (p.At? ==> p.pos >= 0)
  {
    if p.PastEnd? then b else Unrank(b, p.pos)
  }

  datatype Op = Next | Prev | By(n: int)

  function Apply(b: seq<int>, c: seq<int>, op: Op): Option<seq<int>>
    requires |b| == |c| && Positive(b)
  {
    match op
    case Next => Some(Inc(b, c))
    case Prev => Dec(b, c)
    case By(n) => Jump(b, c, n)
  }

  /** The counter the odometer implements. */
  function Count(b: seq<int>, p: Position, op: Op): Option<Position>
    requires b != []
  {
    match op
    case Next =>
      if p.PastEnd? || p.pos + 1 == Size(b) || p.pos + 1 == Size(b) + Size(b[1..])
      then Some(PastEnd) else Some(At(p.pos + 1))
    case Prev =>
      if p.PastEnd? then Some(At(Size(b) - 1))
      else if p.pos == 0 then None
      else Some(At(p.pos - 1))
    case By(n) =>
      var target := (if p.PastEnd? then Size(b) else p.pos) + n;
      if 0 <= target < Size(b) + Size(b[1..])
      then Some(Landed(b, target))
      else None
  }

  /** Off the boundary a valid index is the digits of its position. */
  lemma {:induction false} ValidDigits(b: seq<int>, c: seq<int>)
    requires Valid(b, c) && c != b
    ensures Rank(b, c) == c[0] * Size(b[1..]) + Rank(b[1..], c[1..])
    ensures 0 <= Rank(b[1..], c[1..]) < Size(b[1..])
    ensures 0 <= c[0] * Size(b[1..])
    ensures c == Unrank(b, Rank(b, c))
  {
    RankBounds(b[1..], c[1..]);
    MulMono(0, c[0], Size(b[1..]));
    DivModUnique(c[0], Rank(b[1..], c[1..]), Size(b[1..]));
    UnrankOfRank(b[1..], c[1..]);
    assert c == [c[0]] + c[1..];
  }

  lemma {:induction false} ValidInRange(b: seq<int>, c: seq<int>)
    requires Valid(b, c) && c != b
    ensures InRange(b, c) <==> c[0] < b[0]
    ensures Less(c, b)
  {
    assert c == [c[0]] + c[1..] && b == [b[0]] + b[1..];
    if c[0] == b[0] {
      InnerIsLess(b, c, 1);
    }
  }

  /** Off the boundary the position tells whether the index is inside the space. */
  lemma {:induction false} ValidForm(b: seq<int>, c: seq<int>)
    requires Valid(b, c) && c != b
    ensures InRange(b, c) <==> Rank(b, c) < Size(b)
    ensures Lin(b, c) == Rank(b, c)
    ensures ValidPosition(b, Abstract(b, c))
    ensures c == Unrank(b, Rank(b, c))
  {
    var s := Size(b[1..]);
    ValidDigits(b, c);
    ValidInRange(b, c);
    DigitOrder(c[0], Rank(b[1..], c[1..]), b[0], 0, s);
    assert |b| == 1 ==> b[1..] == [];
  }

  /** A position has one index, and it is a valid one. */
  lemma {:induction false} ConcreteIsValid(b: seq<int>, p: Position)
    requires Positive(b) && b != [] && ValidPosition(b, p)
    ensures Valid(b, Concrete(b, p)) && Abstract(b, Concrete(b, p)) == p
  {
    if p.At? {
      var s := Size(b[1..]);
      DigitsAreUnrank(b, p.pos);
      LandingForm(b, p.pos);
      var c := Unrank(b, p.pos);
      SizePositive(b[1..]);
      DivBounds(p.pos, s, b[0] + 1);
      assert (b[0] + 1) * s == Size(b) + s;
      if |b| > 1 { InnerIsLess(b, c, 1); }
    }
  }

  lemma {:induction false} NextIsCount(b: seq<int>, c: seq<int>)
    requires Valid(b, c)
    ensures Count(b, Abstract(b, c), Next).Some?
    ensures var p := Count(b, Abstract(b, c), Next).value;
            ValidPosition(b, p) && Inc(b, c) == Concrete(b, p)
  {
    var s := Size(b[1..]);
    if c == b {
      StepOfBoundary(b);
    } else {
      ValidForm(b, c);
      if InRange(b, c) {
        StepIsSuccessor(b, c);
        SizePositive(b[1..]);
      } else {
        var r := Rank(b[1..], c[1..]);
        assert c[0] == b[0];
        StepIsSuccessor(b[1..], c[1..]);
        assert Size(b) == b[0] * s;
        if r + 1 < s {
          DivModUnique(c[0], r + 1, s);
        }
      }
    }
  }

  lemma {:induction false} StepOfBoundary(b: seq<int>)
    ensures Step(b, b) == None
  {
    if b != [] { StepOfBoundary(b[1..]); }
  }

  lemma {:induction false} PrevIsCount(b: seq<int>, c: seq<int>)
    requires Valid(b, c)
    ensures var p := Count(b, Abstract(b, c), Prev);
            Dec(b, c).Some? == p.Some? &&
            (p.Some? ==> ValidPosition(b, p.value) && Dec(b, c).value == Concrete(b, p.value))
  {
    SizePositive(b);
    SizePositive(b[1..]);
    UnrankLast(b);
    if c != b {
      ValidForm(b, c);
      if InRange(b, c) {
        StepBackIsPredecessor(b, c);
        RankBounds(b, c);
      } else {
        PrevFromOverhang(b, c);
      }
    }
  }

  /** `--` with the outermost component at its bound. */
  lemma {:induction false} PrevFromOverhang(b: seq<int>, c: seq<int>)
    requires Valid(b, c) && c != b && c[0] == b[0]
    ensures Rank(b, c) >= Size(b) >= 1
    ensures StepBack(b, c) == Some(Unrank(b, Rank(b, c) - 1))
  {
    var s, r := Size(b[1..]), Rank(b[1..], c[1..]);
    RankBounds(b[1..], c[1..]);
    StepBackIsPredecessor(b[1..], c[1..]);
    SizePositive(b);
    if r > 0 {
      UnrankCons(b, b[0], r - 1);
    } else {
      NextBlock(b[0], s);
      UnrankCons(b, b[0] - 1, s - 1);
      UnrankLast(b[1..]);
    }
  }

  lemma {:induction false} LinIsPosition(b: seq<int>, c: seq<int>)
    requires Valid(b, c)
    ensures Lin(b, c) == if Abstract(b, c).PastEnd? then Size(b) else Abstract(b, c).pos
  {
    if c == b { LinOfBoundary(b); } else { ValidForm(b, c); }
  }

  /** The position a jump lands on. */
  function Landed(b: seq<int>, target: int): Position
    requires b != []
  {
    if |b| == 1 && target == Size(b) then PastEnd else At(target)
  }

  lemma {:induction false} LandingIsConcrete(b: seq<int>, target: nat)
    requires Positive(b) && b != [] && target < Size(b) + Size(b[1..])
    ensures ValidPosition(b, Landed(b, target)) && Digits(b, target) == Concrete(b, Landed(b, target))
  {
    DigitsAreUnrank(b, target);
    if |b| == 1 {
      assert b[1..] == [];
      EndIsUnrank(b);
    }
  }

  lemma {:induction false} JumpLands(b: seq<int>, c: seq<int>, n: int, target: int)
    requires Positive(b) && b != [] && |c| == |b| && target == Lin(b, c) + n
    ensures Jump(b, c, n).Some? <==> 0 <= target < Size(b) + Size(b[1..])
    ensures Jump(b, c, n).Some? ==>
              ValidPosition(b, Landed(b, target)) && Jump(b, c, n).value == Concrete(b, Landed(b, target))
  {
    JumpExact(b, c, n);
    if Jump(b, c, n).Some? { LandingIsConcrete(b, target); }
  }

  lemma {:induction false} ByIsCount(b: seq<int>, c: seq<int>, n: int)
    requires Valid(b, c)
    ensures var p := Count(b, Abstract(b, c), By(n));
            Jump(b, c, n).Some? == p.Some? &&
            (p.Some? ==> ValidPosition(b, p.value) && Jump(b, c, n).value == Concrete(b, p.value))
  {
    LinIsPosition(b, c);
    JumpLands(b, c, n, Lin(b, c) + n);
  }

  /** One operation on a valid index is one operation on the counter: it fails when the counter
      fails, and otherwise leaves the valid index of the counter's new position. */
  lemma {:induction false} ApplyIsCount(b: seq<int>, c: seq<int>, op: Op)
    requires Valid(b, c)
    ensures ValidPosition(b, Abstract(b, c))
    ensures var p := Count(b, Abstract(b, c), op);
            Apply(b, c, op).Some? == p.Some? &&
            (p.Some? ==> ValidPosition(b, p.value) && Apply(b, c, op).value == Concrete(b, p.value) &&
                         Valid(b, Apply(b, c, op).value) && Abstract(b, Apply(b, c, op).value) == p.value)
  {
    if c != b { ValidForm(b, c); }
    match op {
      case Next => NextIsCount(b, c);
      case Prev => PrevIsCount(b, c);
      case By(n) => ByIsCount(b, c, n);
    }
    var p := Count(b, Abstract(b, c), op);
    if p.Some? { ConcreteIsValid(b, p.value); }
  }

  function Run(b: seq<int>, c: seq<int>, ops: seq<Op>): Option<seq<int>>
    requires |b| == |c| && Positive(b)
    decreases |ops|
  {
    if ops == [] then Some(c) else
      var next :- Apply(b, c, ops[0]);
      Run(b, next, ops[1..])
  }

  function CountRun(b: seq<int>, p: Position, ops: seq<Op>): Option<Position>
    requires b != []
    decreases |ops|
  {
    if ops == [] then Some(p) else
      var next :- Count(b, p, ops[0]);
      CountRun(b, next, ops[1..])
  }

  /** Every run of `++`, `--` and `+=`, in any order and from any valid index, is the run of the
      counter: same failures, same final position, and the digits are determined by it. */
  lemma {:induction false} RunIsCounter(b: seq<int>, c: seq<int>, ops: seq<Op>)
    requires Valid(b, c)
    ensures var p := CountRun(b, Abstract(b, c), ops);
            Run(b, c, ops).Some? == p.Some? &&
            (p.Some? ==> ValidPosition(b, p.value) && Valid(b, Run(b, c, ops).value) &&
                         Run(b, c, ops).value == Concrete(b, p.value))
    decreases |ops|
  {
    if ops == [] {
      if c != b { ValidForm(b, c); }
    } else {
      ApplyIsCount(b, c, ops[0]);
      var next := Apply(b, c, ops[0]);
      if next.Some? { RunIsCounter(b, next.value, ops[1..]); }
    }
  }

  // ---------------------------------------------------------------- consequences

  function IncTimes(b: seq<int>, c: seq<int>, n: nat): (r: seq<int>)
    requires |b| == |c|
    ensures |r| == |b|
    decreases n
  {
    if n == 0 then c else IncTimes(b, Inc(b, c), n - 1)
  }

  /** A forward jump inside the space is that many single steps. */
  lemma {:induction false} JumpIsSteps(b: seq<int>, c: seq<int>, n: nat)
    requires Positive(b) && b != [] && InRange(b, c) && Rank(b, c) + n < Size(b)
    ensures Jump(b, c, n) == Some(IncTimes(b, c, n))
  {
    assert c[0] < b[0];
    RankBounds(b, c);
    SizePositive(b[1..]);
    JumpExact(b, c, n);
    DigitsAreUnrank(b, Rank(b, c) + n);
    IncTimesIsUnrank(b, c, n);
  }

  /** A jump to the end leaves (b0, 0, ..., 0) where single steps leave the boundary: the same
      position, and the same index exactly at rank 1. */
  lemma {:induction false} JumpToEnd(b: seq<int>, c: seq<int>, n: nat)
    requires Positive(b) && b != [] && InRange(b, c) && Rank(b, c) + n == Size(b)
    ensures Jump(b, c, n) == Some([b[0]] + Zeros(|b| - 1)) && IncTimes(b, c, n) == b
    ensures Lin(b, [b[0]] + Zeros(|b| - 1)) == Lin(b, b) == Size(b)
    ensures Jump(b, c, n) == Some(IncTimes(b, c, n)) <==> |b| == 1
  {
    ValidForm(b, c);
    SizePositive(b[1..]);
    JumpExact(b, c, n);
    SizePositive(b);
    EndIsUnrank(b);
    DigitsAreUnrank(b, Size(b));
    LinOfBoundary(b);
    IncTimesIsUnrank(b, c, n);
    var e := [b[0]] + Zeros(|b| - 1);
    if |b| > 1 { assert e[1] == 0 < b[1]; } else { assert e == b; }
  }

  lemma {:induction false} EndIsUnrank(b: seq<int>)
    requires Positive(b) && b != []
    ensures Unrank(b, Size(b)) == [b[0]] + Zeros(|b| - 1)
  {
    SizePositive(b[1..]);
    DivModUnique(b[0], 0, Size(b[1..]));
    assert Size(b) == b[0] * Size(b[1..]) + 0;
    UnrankZero(b[1..]);
  }

  lemma {:induction false} IncIsNext(b: seq<int>, c: seq<int>)
    requires Positive(b) && InRange(b, c)
    ensures Rank(b, c) + 1 < Size(b) ==> InRange(b, Inc(b, c)) && Rank(b, Inc(b, c)) == Rank(b, c) + 1
    ensures Rank(b, c) + 1 == Size(b) ==> Inc(b, c) == b
  {
    RankBounds(b, c);
    StepIsSuccessor(b, c);
    if Rank(b, c) + 1 < Size(b) { RankOfUnrank(b, Rank(b, c) + 1); }
  }

  lemma {:induction false} IncTimesIsUnrank(b: seq<int>, c: seq<int>, n: nat)
    requires Positive(b) && InRange(b, c) && Rank(b, c) + n <= Size(b)
    ensures IncTimes(b, c, n) == if Rank(b, c) + n < Size(b) then Unrank(b, Rank(b, c) + n) else b
    decreases n
  {
    if n == 0 {
      RankBounds(b, c);
      UnrankOfRank(b, c);
    } else {
      IncIsNext(b, c);
      if Rank(b, c) + 1 < Size(b) { IncTimesIsUnrank(b, Inc(b, c), n - 1); }
    }
  }

  /** `--` undoes `++` from every in-range index, through the end included. */
  lemma {:induction false} DecUndoesInc(b: seq<int>, c: seq<int>)
    requires Positive(b) && b != [] && InRange(b, c)
    ensures Dec(b, Inc(b, c)) == Some(c)
  {
    ValidForm(b, c);
    RankBounds(b, c);
    SizePositive(b[1..]);
    ApplyIsCount(b, c, Next);
    ApplyIsCount(b, Inc(b, c), Prev);
  }

  /** `--` refuses only the first index. */
  lemma {:induction false} DecFailsIff(b: seq<int>, c: seq<int>)
    requires Positive(b) && b != [] && InRange(b, c)
    ensures Dec(b, c) == None <==> c == Zeros(|b|)
  {
    ValidForm(b, c);
    RankBounds(b, c);
    ApplyIsCount(b, c, Prev);
    UnrankZero(b);
    RankOfZeros(b);
  }

  /** From anywhere that is past the end in every component `--` gives the last index, and the
      linear position is counted from the index before. */
  lemma {:induction false} PastEveryBound(b: seq<int>, c: seq<int>)
    requires |c| == |b| && forall i :: 0 <= i < |b| ==> c[i] >= b[i]
    ensures Dec(b, c) == Some(Last(b)) && Lin(b, c) == 1 + Dot(Last(c), Strides(b))
  {
    RankIsDot(b, Last(c));
  }

  /** From either form of the end `--` gives the last index. */
  lemma {:induction false} DecFromEnd(b: seq<int>)
    requires Positive(b) && b != []
    ensures Dec(b, b) == Some(Last(b)) == Dec(b, [b[0]] + Zeros(|b| - 1))
  {
    var e := [b[0]] + Zeros(|b| - 1);
    assert e[1..] == Zeros(|b| - 1);
    if |b| == 1 {
      assert e == b;
    } else {
      assert e[1] < b[1];
      RankOfZeros(b[1..]);
      StepBackIsPredecessor(b[1..], e[1..]);
      assert [b[0] - 1] + Last(b[1..]) == Last(b);
    }
  }

  /** `--` is `+= -1` on every index an iterator can hold, failures included. */
  lemma {:induction false} DecIsJumpBack(b: seq<int>, c: seq<int>)
    requires Valid(b, c)
    ensures Dec(b, c) == Jump(b, c, -1)
  {
    ApplyIsCount(b, c, Prev);
    ApplyIsCount(b, c, By(-1));
    SizePositive(b);
    SizePositive(b[1..]);
  }

  /** `++` is `+= 1` on an index an iterator can hold exactly when the step does not end at an
      end of the position range: not from the boundary, not onto the last position of the range,
      and onto the end only at rank 1. */
  lemma {:induction false} IncIsJumpForwardIff(b: seq<int>, c: seq<int>)
    requires Valid(b, c)
    ensures Jump(b, c, 1) == Some(Inc(b, c)) <==>
            c != b && Rank(b, c) + 1 != Size(b) + Size(b[1..]) &&
            (Rank(b, c) + 1 == Size(b) ==> |b| == 1)
  {
    ApplyIsCount(b, c, Next);
    ApplyIsCount(b, c, By(1));
    SizePositive(b[1..]);
    var p, q := Count(b, Abstract(b, c), Next), Count(b, Abstract(b, c), By(1));
    if q.Some? { ConcreteIsValid(b, q.value); }
    ConcreteIsValid(b, p.value);
  }
}
