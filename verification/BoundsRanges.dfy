/** `BoundsRanges`: the recursive chain of extents behind `static_bounds`. A dimension is fixed
    by the type (Static) or given at run time (Dynamic); a dynamic level stores the product of
    its extent with everything inside it, not the extent. */
module BoundsRanges {
  import opened Arith
  import opened Wrappers
  import opened Index

  /** One template argument: a fixed extent, or `dynamic_range`. */
  datatype Dim = Fixed(extent: nat) | DynamicRange

  datatype Ranges = Nil | Static(range: int, base: Ranges) | Dynamic(bound: int, base: Ranges) {

    function TotalSize(): int {
      match this
      case Nil => 1
      case Static(range, base) => range * base.TotalSize()
      case Dynamic(bound, _) => bound
    }

    function Depth(): nat {
      if Nil? then 0 else 1 + base.Depth()
    }

    /** Offset of an index, or None when an `Expects` fails. A static level checks both ends of
        its component; a dynamic level compares only the upper end. */
    function Linearize(idx: seq<int>): Option<int>
      requires |idx| == Depth()
    {
      match this
      case Nil => Some(0)
      case Static(range, base) =>
        if 0 <= idx[0] < range then
          var rest :- base.Linearize(idx[1..]);
          Some(base.TotalSize() * idx[0] + rest)
        else None
      case Dynamic(bound, base) =>
        var index := base.TotalSize() * idx[0];
        if index < bound then
          var rest :- base.Linearize(idx[1..]);
          Some(index + rest)
        else None
    }

    /** `contains` of the source: an offset, or -1 for "not contained". */
    function Contains(idx: seq<int>): int
      requires |idx| == Depth()
    {
      match this
      case Nil => -1
      case Static(range, base) =>
        if idx[0] >= range then -1
        else
          var last := base.Contains(idx[1..]);
          if last == -1 then -1 else base.TotalSize() * idx[0] + last
      case Dynamic(bound, base) =>
        var last := base.Contains(idx[1..]);
        if last == -1 then -1
        else
          var cur := base.TotalSize() * idx[0];
          if cur < bound then cur + last else -1
    }

    /** Every inner block has cells, so `elementNum` may divide by its size. */
    predicate Divisible() {
      match this
      case Nil => true
      case Static(_, base) => base.Divisible()
      case Dynamic(_, base) => base.Divisible() && base.TotalSize() > 0
    }

    /** `serialize`, behind `index_bounds`: the extents, a dynamic one by dividing the stored
        product again. */
    function Extents(): (b: seq<int>)
      requires Divisible()
      ensures |b| == Depth()
    {
      match this
      case Nil => []
      case Static(range, base) => [range] + base.Extents()
      case Dynamic(bound, base) => [TruncDiv(bound, base.TotalSize())] + base.Extents()
    }
  }

  /** The extents a type and a list of run-time values describe. */
  function Resolve(shape: seq<Dim>, values: seq<int>): (b: seq<int>)
    requires |values| == DynamicNum(shape)
    ensures |b| == |shape|
  {
    if shape == [] then []
    else if shape[0].Fixed? then [shape[0].extent] + Resolve(shape[1..], values)
    else [values[0]] + Resolve(shape[1..], values[1..])
  }

  function DynamicNum(shape: seq<Dim>): nat {
    if shape == [] then 0 else (if shape[0].DynamicRange? then 1 else 0) + DynamicNum(shape[1..])
  }

  /** The constructor from run-time values: each must be non-negative. */
  function Make(shape: seq<Dim>, values: seq<int>): Option<Ranges>
    requires |values| == DynamicNum(shape)
  {
    if shape == [] then Some(Nil)
    else if shape[0].Fixed? then
      var base :- Make(shape[1..], values);
      Some(Static(shape[0].extent, base))
    else
      var base :- Make(shape[1..], values[1..]);
      if 0 <= values[0] then Some(Dynamic(values[0] * base.TotalSize(), base)) else None
  }

  /** `r` is a chain for the extents `b`. */
  predicate Represents(r: Ranges, b: seq<int>) {
    match r
    case Nil => b == []
    case Static(range, base) => b != [] && range == b[0] && Represents(base, b[1..])
    case Dynamic(bound, base) => b != [] && bound == b[0] * Size(b[1..]) && Represents(base, b[1..])
  }

  predicate AllStatic(r: Ranges) {
    match r
    case Nil => true
    case Static(_, base) => AllStatic(base)
    case Dynamic(_, _) => false
  }

  /** What the checks in Linearize let through, component by component. */
  predicate Accepts(r: Ranges, b: seq<int>, idx: seq<int>)
    requires Represents(r, b) && |idx| == |b|
  {
    r == Nil || (idx[0] < b[0] && (r.Static? ==> idx[0] >= 0) && Accepts(r.base, b[1..], idx[1..]))
  }

  lemma {:induction false} RepresentsSize(r: Ranges, b: seq<int>)
    requires Represents(r, b)
    ensures r.TotalSize() == Size(b) && r.Depth() == |b|
  {
    if r != Nil {
      RepresentsSize(r.base, b[1..]);
    }
  }

  /** Construction succeeds exactly on non-negative values, and the chain it builds is one for
      the extents described. */
  lemma {:induction false} MakeRepresents(shape: seq<Dim>, values: seq<int>)
    requires |values| == DynamicNum(shape)
    ensures Make(shape, values).Some? <==> forall i :: 0 <= i < |values| ==> values[i] >= 0
    ensures Make(shape, values).Some? ==> Represents(Make(shape, values).value, Resolve(shape, values))
  {
    if shape != [] {
      var rest := if shape[0].Fixed? then values else values[1..];
      MakeRepresents(shape[1..], rest);
      var base := Make(shape[1..], rest);
      if base.Some? {
        RepresentsSize(base.value, Resolve(shape[1..], rest));
        assert Resolve(shape, values)[1..] == Resolve(shape[1..], rest);
      }
      if shape[0].DynamicRange? {
        assert values == [values[0]] + rest;
      }
    }
  }

  /** The stored products give back the extents they were built from. */
  lemma {:induction false} ExtentsRoundTrip(r: Ranges, b: seq<int>)
    requires Represents(r, b) && Positive(b)
    ensures r.Divisible() && r.Extents() == b
  {
    if r != Nil {
      ExtentsRoundTrip(r.base, b[1..]);
      RepresentsSize(r.base, b[1..]);
      SizePositive(b[1..]);
      if r.Dynamic? {
        MulMono(0, b[0], Size(b[1..]));
        DivModUnique(b[0], 0, Size(b[1..]));
      }
      assert b == [b[0]] + b[1..];
    }
  }

  /** The checks pass exactly on the accepted indices, and the offset is the row-major position. */
  lemma {:induction false} LinearizeExact(r: Ranges, b: seq<int>, idx: seq<int>)
    requires Represents(r, b) && Positive(b) && |idx| == |b|
    ensures r.Depth() == |b|
    ensures r.Linearize(idx) == if Accepts(r, b, idx) then Some(Rank(b, idx)) else None
  {
    RepresentsSize(r, b);
    if r != Nil {
      var s := Size(b[1..]);
      RepresentsSize(r.base, b[1..]);
      SizePositive(b[1..]);
      LinearizeExact(r.base, b[1..], idx[1..]);
      MulStrict(idx[0], b[0], s);
    }
  }

  lemma {:induction false} InRangeIsAccepted(r: Ranges, b: seq<int>, idx: seq<int>)
    requires Represents(r, b) && |idx| == |b|
    ensures InRange(b, idx) ==> Accepts(r, b, idx)
    ensures AllStatic(r) && Accepts(r, b, idx) ==> InRange(b, idx)
  {
    if r != Nil {
      InRangeIsAccepted(r.base, b[1..], idx[1..]);
      assert idx == [idx[0]] + idx[1..] && b == [b[0]] + b[1..];
    }
  }

  /** Linearize restricted to the index space is a bijection onto [0, TotalSize), monotone for
      lexicographic order. */
  lemma {:induction false} LinearizeBijection(r: Ranges, b: seq<int>)
    requires Represents(r, b) && Positive(b)
    ensures r.Depth() == |b|
    ensures forall x :: InRange(b, x) ==>
              r.Linearize(x).Some? && 0 <= r.Linearize(x).value < r.TotalSize()
    ensures forall x, y :: InRange(b, x) && InRange(b, y) ==>
              r.Linearize(x).Some? && r.Linearize(y).Some? &&
              (LexLess(x, y) <==> r.Linearize(x).value < r.Linearize(y).value) &&
              (x == y <==> r.Linearize(x).value == r.Linearize(y).value)
    ensures forall pos :: 0 <= pos < r.TotalSize() ==>
              InRange(b, Unrank(b, pos)) && r.Linearize(Unrank(b, pos)) == Some(pos)
  {
    RepresentsSize(r, b);
    forall x | InRange(b, x)
      ensures r.Linearize(x) == Some(Rank(b, x)) && 0 <= Rank(b, x) < Size(b)
    {
      LinearizeExact(r, b, x);
      InRangeIsAccepted(r, b, x);
      RankBounds(b, x);
    }
    forall x, y | InRange(b, x) && InRange(b, y)
      ensures LexLess(x, y) <==> Rank(b, x) < Rank(b, y)
      ensures x == y <==> Rank(b, x) == Rank(b, y)
    {
      RankIsLexOrder(b, x, y);
    }
    forall pos | 0 <= pos < Size(b)
      ensures InRange(b, Unrank(b, pos)) && Rank(b, Unrank(b, pos)) == pos
    {
      RankOfUnrank(b, pos);
    }
  }

  /** An index one below zero in a dynamic component, zero elsewhere. */
  lemma {:induction false} DynamicAcceptsNegative(r: Ranges, b: seq<int>) returns (idx: seq<int>)
    requires Represents(r, b) && Positive(b) && !AllStatic(r)
    ensures |idx| == |b| && Accepts(r, b, idx) && !InRange(b, idx)
  {
    var z := Zeros(|b| - 1);
    if r.Dynamic? {
      idx := [-1] + z;
      assert idx[1..] == z;
      InRangeIsAccepted(r.base, b[1..], z);
      assert idx[0] < 0;
    } else {
      var rest := DynamicAcceptsNegative(r.base, b[1..]);
      idx := [0] + rest;
      assert idx[1..] == rest;
      if InRange(b, idx) {
        assert InRange(b[1..], rest) by {
          forall i | 0 <= i < |rest| ensures 0 <= rest[i] < b[1..][i] { assert rest[i] == idx[i + 1]; }
        }
      }
    }
  }

  /** The checks reject every index outside the index space exactly when no extent is
      dynamic: the dynamic level never looks at the lower end. */
  lemma {:induction false} ChecksCompleteIffAllStatic(r: Ranges, b: seq<int>)
    requires Represents(r, b) && Positive(b)
    ensures r.Depth() == |b|
    ensures AllStatic(r) <==>
            forall idx :: |idx| == |b| ==> (r.Linearize(idx).Some? <==> InRange(b, idx))
  {
    RepresentsSize(r, b);
    forall idx | |idx| == |b|
      ensures r.Linearize(idx).Some? <==> Accepts(r, b, idx)
      ensures InRange(b, idx) ==> Accepts(r, b, idx)
      ensures AllStatic(r) && Accepts(r, b, idx) ==> InRange(b, idx)
    {
      LinearizeExact(r, b, idx);
      InRangeIsAccepted(r, b, idx);
    }
    if !AllStatic(r) {
      var idx := DynamicAcceptsNegative(r, b);
      assert r.Linearize(idx).Some? && !InRange(b, idx);
    }
  }

  /** `contains` starts from "not contained" at the innermost level and never leaves it, so it
      is right about an index exactly when that index is outside the space. */
  lemma {:induction false} ContainsIsNever(r: Ranges, b: seq<int>, idx: seq<int>)
    requires Represents(r, b) && |idx| == |b|
    ensures r.Depth() == |b| && r.Contains(idx) == -1
    ensures (r.Contains(idx) != -1 <==> InRange(b, idx)) <==> !InRange(b, idx)
  {
    RepresentsSize(r, b);
    if r != Nil {
      ContainsIsNever(r.base, b[1..], idx[1..]);
    }
  }

  /** With a zero extent anywhere there is no cell, and every index without negative components
      is rejected. */
  lemma {:induction false} EmptyRejects(r: Ranges, b: seq<int>, idx: seq<int>)
    requires Represents(r, b) && |idx| == |b|
    requires forall i :: 0 <= i < |b| ==> b[i] >= 0 && idx[i] >= 0
    requires !Positive(b)
    ensures r.Depth() == |b| && r.Linearize(idx) == None && r.TotalSize() == 0
  {
    RepresentsSize(r, b);
    RepresentsSize(r.base, b[1..]);
    assert b == [b[0]] + b[1..];
    if Positive(b[1..]) {
      SizePositive(b[1..]);
      assert b[0] == 0;
      MulMono(0, idx[0], Size(b[1..]));
    } else {
      EmptyRejects(r.base, b[1..], idx[1..]);
      assert b[0] * Size(b[1..]) == 0;
    }
  }
}
