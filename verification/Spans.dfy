/** Spans over index spaces: `multi_span` (contiguous) and `strided_span`, with element access,
    single-index slicing, and sections. Addresses are byte addresses; `unit` is the size of an element. */
module Spans {
  import opened Arith
  import opened Wrappers
  import opened Index
  import opened StridedBounds
  import opened BoundsRanges
  import opened Traversal

  datatype Pointer = Null | Ptr(addr: int) {
    function Plus(n: int): Pointer { if Null? then Null else Ptr(addr + n) }
  }

  // ---------------------------------------------------------------- strided_span

  datatype StridedSpan = StridedSpan(data: Pointer, unit: nat, bounds: Bounds) {
    function Rank(): nat { |bounds.extents| }

    /** `operator[]` on a whole index: the address of its cell. */
    function Cell(idx: seq<int>): Option<Pointer>
      requires bounds.WellFormed() && |idx| == Rank()
    {
      var offset :- bounds.LinearizeSpec(idx);
      Some(data.Plus(unit * offset))
    }

    /** `operator[]` on one component, for rank > 1. */
    function Slice(i: int): Option<StridedSpan>
      requires bounds.WellFormed() && Rank() > 1
    {
      if !(i < Size(bounds.extents)) then None else
        var offset := i * bounds.strides[0];
        if !(offset < bounds.TotalSpec()) then None else
          NewStridedSpan(data.Plus(unit * offset), unit, bounds.Slice().TotalSpec(), bounds.Slice())
    }

    function Section(origin: seq<int>, extents: seq<int>): Option<StridedSpan>
      requires bounds.WellFormed() && |origin| == |extents| == Rank()
    {
      var offset :- bounds.LinearizeSpec(origin);
      var cell :- Cell(origin);
      NewStridedSpan(cell, unit, bounds.TotalSpec() - offset, Bounds(extents, bounds.strides))
    }
  }

  /** The checking constructor: the bounds must not reach past `size` elements. */
  function NewStridedSpan(data: Pointer, unit: nat, size: int, bounds: Bounds): Option<StridedSpan>
    requires bounds.WellFormed()
  {
    if ((Size(bounds.extents) > 0 && data != Null) || Size(bounds.extents) == 0) && bounds.TotalSpec() <= size
    then Some(StridedSpan(data, unit, bounds)) else None
  }

  lemma {:induction false} EmptyIff(b: seq<int>)
    requires NonNegative(b)
    ensures Size(b) >= 0 && (Size(b) == 0 <==> !Positive(b))
  {
    if Positive(b) { SizePositive(b); } else { SizeZero(b); }
  }

  /** When a span can be made: its last cell is below `size`, and it has an address unless some
      extent is zero. */
  lemma {:induction false} MadeIff(data: Pointer, unit: nat, size: int, bounds: Bounds)
    requires bounds.WellFormed() && NonNegative(bounds.extents)
    ensures NewStridedSpan(data, unit, size, bounds).Some? <==>
            Dot(Last(bounds.extents), bounds.strides) < size && (data == Null ==> !Positive(bounds.extents))
    ensures NewStridedSpan(data, unit, size, bounds).Some? ==>
              NewStridedSpan(data, unit, size, bounds).value == StridedSpan(data, unit, bounds)
  {
    EmptyIff(bounds.extents);
  }

  /** The same for contiguous spans. */
  lemma {:induction false} MadeMultiIff(data: Pointer, unit: nat, ranges: Ranges, b: seq<int>)
    requires Represents(ranges, b) && NonNegative(b)
    ensures NewMultiSpan(data, unit, ranges).Some? <==> (data == Null ==> !Positive(b))
  {
    RepresentsSize(ranges, b);
    EmptyIff(b);
  }

  /** A span whose cells all have an address. */
  predicate Sound(s: StridedSpan) { s.bounds.Regular() && s.data != Null }

  /** The section lies inside its parent, dimension by dimension. */
  predicate Fits(origin: seq<int>, extents: seq<int>, bounds: seq<int>) {
    |origin| == |extents| == |bounds| && Positive(extents) &&
    forall i :: 0 <= i < |bounds| ==> 0 <= origin[i] && origin[i] + extents[i] <= bounds[i]
  }

  /** When a section is accepted: the origin is, and the last cell of the section is not past
      the last cell of the parent. */
  lemma {:induction false} SectionExact(s: StridedSpan, origin: seq<int>, extents: seq<int>)
    requires Sound(s) && |origin| == |extents| == s.Rank() && Positive(extents)
    ensures s.Section(origin, extents).Some? <==>
            s.bounds.Accepts(origin) &&
            Dot(AddIdx(origin, Last(extents)), s.bounds.strides) <= Dot(Last(s.bounds.extents), s.bounds.strides)
  {
    SizePositive(extents);
    DotAdd(origin, Last(extents), s.bounds.strides);
  }

  /** A section inside its parent is accepted, and its cell idx is the parent's cell
      origin + idx. */
  lemma {:induction false} SectionCells(s: StridedSpan, origin: seq<int>, extents: seq<int>)
    requires Sound(s) && Fits(origin, extents, s.bounds.extents)
    ensures s.Section(origin, extents).Some?
    ensures var sec := s.Section(origin, extents).value;
            Sound(sec) && sec.bounds == Bounds(extents, s.bounds.strides) && sec.unit == s.unit
    ensures forall idx :: InRange(extents, idx) ==>
              InRange(s.bounds.extents, AddIdx(origin, idx)) &&
              s.Cell(AddIdx(origin, idx)).Some? &&
              s.Section(origin, extents).value.Cell(idx) == s.Cell(AddIdx(origin, idx))
  {
    SectionExact(s, origin, extents);
    DotMono(AddIdx(origin, Last(extents)), Last(s.bounds.extents), s.bounds.strides);
    var sec := s.Section(origin, extents).value;
    forall idx | InRange(extents, idx)
      ensures InRange(s.bounds.extents, AddIdx(origin, idx))
      ensures s.Cell(AddIdx(origin, idx)).Some? && sec.Cell(idx) == s.Cell(AddIdx(origin, idx))
    {
      DotAdd(origin, idx, s.bounds.strides);
      Distribute(s.unit, Dot(origin, s.bounds.strides), Dot(idx, s.bounds.strides));
    }
  }

  lemma {:induction false} Distribute(u: int, a: int, b: int)
    ensures u * (a + b) == u * a + u * b
  {
  }

  /** A section of a section is one section at the summed origin. */
  lemma {:induction false} SectionsCompose(s: StridedSpan, o1: seq<int>, e1: seq<int>, o2: seq<int>, e2: seq<int>)
    requires Sound(s) && Fits(o1, e1, s.bounds.extents) && Fits(o2, e2, e1)
    ensures Fits(AddIdx(o1, o2), e2, s.bounds.extents)
    ensures s.Section(o1, e1).Some?
    ensures s.Section(o1, e1).value.Section(o2, e2) == s.Section(AddIdx(o1, o2), e2)
    ensures s.Section(AddIdx(o1, o2), e2).Some?
  {
    SectionCells(s, o1, e1);
    SectionCells(s, AddIdx(o1, o2), e2);
    var sec := s.Section(o1, e1).value;
    SectionCells(sec, o2, e2);
    DotAdd(o1, o2, s.bounds.strides);
    Distribute(s.unit, Dot(o1, s.bounds.strides), Dot(o2, s.bounds.strides));
  }

  /** Where a section's cell lies in its parent, whatever the origin. */
  lemma {:induction false} SectionOffset(s: StridedSpan, origin: seq<int>, extents: seq<int>, idx: seq<int>)
    requires Sound(s) && |origin| == |extents| == s.Rank() && Positive(extents)
    requires s.Section(origin, extents).Some? && InRange(extents, idx)
    ensures s.Section(origin, extents).value.Cell(idx) ==
            Some(s.data.Plus(s.unit * Dot(AddIdx(origin, idx), s.bounds.strides)))
    ensures Dot(AddIdx(origin, idx), s.bounds.strides) >= Dot(origin, s.bounds.strides)
    ensures Dot(AddIdx(origin, idx), s.bounds.strides) < s.bounds.TotalSpec()
  {
    var strides := s.bounds.strides;
    SectionExact(s, origin, extents);
    DotAdd(origin, idx, strides);
    DotNonNegative(idx, strides);
    DotMono(AddIdx(origin, idx), AddIdx(origin, Last(extents)), strides);
    Distribute(s.unit, Dot(origin, strides), Dot(idx, strides));
  }

  /** The section's cells are offsets inside its parent. */
  ghost predicate Inside(s: StridedSpan, origin: seq<int>, extents: seq<int>)
    requires s.bounds.WellFormed() && |origin| == |extents| == s.Rank()
  {
    forall idx :: InRange(extents, idx) ==> 0 <= Dot(AddIdx(origin, idx), s.bounds.strides) < s.bounds.TotalSpec()
  }

  /** An accepted section stays inside its parent's memory exactly when its origin is not before
      the parent's first cell: acceptance guards the upper end only. */
  lemma {:induction false} SectionInsideIff(s: StridedSpan, origin: seq<int>, extents: seq<int>)
    requires Sound(s) && |origin| == |extents| == s.Rank() && Positive(extents)
    requires s.Section(origin, extents).Some?
    ensures Inside(s, origin, extents) <==> Dot(origin, s.bounds.strides) >= 0
    ensures forall idx :: InRange(extents, idx) ==>
              s.Section(origin, extents).value.Cell(idx) ==
              Some(s.data.Plus(s.unit * Dot(AddIdx(origin, idx), s.bounds.strides)))
  {
    forall idx | InRange(extents, idx)
      ensures s.Section(origin, extents).value.Cell(idx) ==
              Some(s.data.Plus(s.unit * Dot(AddIdx(origin, idx), s.bounds.strides)))
      ensures Dot(AddIdx(origin, idx), s.bounds.strides) >= Dot(origin, s.bounds.strides)
      ensures Dot(AddIdx(origin, idx), s.bounds.strides) < s.bounds.TotalSpec()
    {
      SectionOffset(s, origin, extents, idx);
    }
    assert AddIdx(origin, Zeros(|origin|)) == origin && InRange(extents, Zeros(|origin|));
  }

  /** An index with one component set. */
  function OneHot(n: nat, i: nat, v: int): (x: seq<int>)
    requires i < n
    ensures |x| == n && forall j :: 0 <= j < n ==> x[j] == if j == i then v else 0
  {
    seq(n, j requires 0 <= j < n => if j == i then v else 0)
  }

  lemma {:induction false} DotZeros(s: seq<int>)
    ensures Dot(Zeros(|s|), s) == 0
  {
    if s != [] {
      DotZeros(s[1..]);
      assert Zeros(|s|)[1..] == Zeros(|s[1..]|);
    }
  }

  lemma {:induction false} DotOneHot(i: nat, v: int, s: seq<int>)
    requires i < |s|
    ensures Dot(OneHot(|s|, i, v), s) == v * s[i]
  {
    if i == 0 {
      DotZeros(s[1..]);
      assert OneHot(|s|, i, v)[1..] == Zeros(|s[1..]|);
    } else {
      DotOneHot(i - 1, v, s[1..]);
      assert OneHot(|s|, i, v)[1..] == OneHot(|s[1..]|, i - 1, v);
    }
  }

  /** Extents of one, but for dimension i. */
  function OneWide(n: nat, i: nat, v: int): (e: seq<int>)
    requires i < n
    ensures |e| == n && Last(e) == OneHot(n, i, v - 1)
  {
    seq(n, j requires 0 <= j < n => if j == i then v else 1)
  }

  /** Any single cell one step before the first along any dimension is accepted as a section, and
      lies one stride before the parent's memory. */
  lemma {:induction false} NegativeOriginAccepted(s: StridedSpan, i: nat)
    requires Sound(s) && i < s.Rank()
    ensures var origin, extents := OneHot(s.Rank(), i, -1), OneWide(s.Rank(), i, 1);
            s.Section(origin, extents).Some? && InRange(extents, Zeros(s.Rank())) &&
            s.Section(origin, extents).value.Cell(Zeros(s.Rank())) == Some(s.data.Plus(s.unit * -s.bounds.strides[i])) &&
            (Inside(s, origin, extents) <==> s.bounds.strides[i] == 0)
  {
    var n := s.Rank();
    var origin, extents := OneHot(n, i, -1), OneWide(n, i, 1);
    var strides := s.bounds.strides;
    DotOneHot(i, -1, strides);
    DotNonNegative(Last(s.bounds.extents), strides);
    assert forall j :: 0 <= j < n ==> extents[j] == Last(extents)[j] + 1;
    assert AddIdx(origin, Last(extents)) == origin == AddIdx(origin, Zeros(n));
    SectionExact(s, origin, extents);
    SectionInsideIff(s, origin, extents);
  }

  /** The smallest such case: a section of three cells from index -1 on. */
  lemma {:induction false} NegativeOriginEscapes(data: int, unit: nat)
    ensures var s := StridedSpan(Ptr(data), unit, Bounds([3], [1]));
            Sound(s) && s.Section([-1], [2]).Some? &&
            s.Section([-1], [2]).value.Cell([0]) == Some(Ptr(data - unit)) && !Inside(s, [-1], [2])
  {
    var s := StridedSpan(Ptr(data), unit, Bounds([3], [1]));
    assert Last([3]) == [2] && Last([2]) == [1];
    assert AddIdx([-1], Last([2])) == [0] && AddIdx([-1], [0]) == [-1];
    Dot1(0);
    Dot1(2);
    Dot1(-1);
    SectionExact(s, [-1], [2]);
    SectionInsideIff(s, [-1], [2]);
    assert InRange([2], [0]);
  }

  lemma {:induction false} Dot1(x: int)
    ensures Dot([x], [1]) == x
  {
    assert [x][1..] == [] && [1][1..] == [];
  }

  /** One step past dimension i is past the last cell. */
  predicate RowsSpan(s: StridedSpan)
    requires s.bounds.WellFormed()
  {
    forall i :: 0 <= i < s.Rank() ==> s.bounds.extents[i] * s.bounds.strides[i] >= s.bounds.TotalSpec()
  }

  lemma {:induction false} OverrunRejected(s: StridedSpan, origin: seq<int>, extents: seq<int>, i: nat)
    requires Sound(s) && |origin| == |extents| == s.Rank() && Positive(extents) && i < s.Rank()
    requires forall j :: 0 <= j < |origin| ==> origin[j] >= 0
    requires origin[i] + extents[i] > s.bounds.extents[i]
    requires s.bounds.extents[i] * s.bounds.strides[i] >= s.bounds.TotalSpec()
    ensures s.Section(origin, extents) == None
  {
    var over := OneHot(s.Rank(), i, s.bounds.extents[i]);
    SectionExact(s, origin, extents);
    DotOneHot(i, s.bounds.extents[i], s.bounds.strides);
    DotMono(over, AddIdx(origin, Last(extents)), s.bounds.strides);
  }

  lemma {:induction false} OverrunAccepted(s: StridedSpan, i: nat)
    requires Sound(s) && i < s.Rank()
    requires s.bounds.extents[i] * s.bounds.strides[i] < s.bounds.TotalSpec()
    ensures var origin, extents := Zeros(s.Rank()), OneWide(s.Rank(), i, s.bounds.extents[i] + 1);
            Positive(extents) && s.Section(origin, extents).Some? && !Fits(origin, extents, s.bounds.extents)
  {
    var n := s.Rank();
    var origin, extents := Zeros(n), OneWide(n, i, s.bounds.extents[i] + 1);
    DotOneHot(i, s.bounds.extents[i], s.bounds.strides);
    assert forall j :: 0 <= j < n ==> extents[j] == Last(extents)[j] + 1;
    assert AddIdx(origin, Last(extents)) == Last(extents);
    SectionExact(s, origin, extents);
    assert origin[i] + extents[i] > s.bounds.extents[i];
  }

  /** Acceptance means fitting, for all sections from non-negative origins, exactly when in every
      dimension of the parent one step past its extent is past the last cell. */
  lemma {:induction false} AcceptedFitsIff(s: StridedSpan)
    requires Sound(s)
    ensures RowsSpan(s) <==>
            forall origin: seq<int>, extents: seq<int> ::
              |origin| == |extents| == s.Rank() && Positive(extents) &&
              (forall j :: 0 <= j < |origin| ==> origin[j] >= 0) && s.Section(origin, extents).Some? ==>
                Fits(origin, extents, s.bounds.extents)
  {
    if RowsSpan(s) {
      forall origin: seq<int>, extents: seq<int> |
        |origin| == |extents| == s.Rank() && Positive(extents) &&
        (forall j :: 0 <= j < |origin| ==> origin[j] >= 0) && s.Section(origin, extents).Some?
        ensures Fits(origin, extents, s.bounds.extents)
      {
        if !Fits(origin, extents, s.bounds.extents) {
          var i :| 0 <= i < s.Rank() && origin[i] + extents[i] > s.bounds.extents[i];
          OverrunRejected(s, origin, extents, i);
        }
      }
    } else {
      var i :| 0 <= i < s.Rank() && s.bounds.extents[i] * s.bounds.strides[i] < s.bounds.TotalSpec();
      OverrunAccepted(s, i);
    }
  }

  /** An instance that is not so: a section of a 2 x 3 span whose row runs over into the next row
      passes, and its cell (0, 2) is the parent's cell (1, 0). */
  lemma {:induction false} AcceptedSectionNeedNotFit(data: int, unit: nat)
    ensures var s := StridedSpan(Ptr(data), unit, Bounds([2, 3], [3, 1]));
            !Fits([0, 1], [1, 3], s.bounds.extents) && s.Section([0, 1], [1, 3]).Some? &&
            s.Section([0, 1], [1, 3]).value.Cell([0, 2]) == s.Cell([1, 0])
  {
    var s := StridedSpan(Ptr(data), unit, Bounds([2, 3], [3, 1]));
    Dot2(0, 3, 3, 1);
    assert !Fits([0, 1], [1, 3], s.bounds.extents) by { assert [0, 1][1] + [1, 3][1] > [2, 3][1]; }
    assert s.Section([0, 1], [1, 3]).Some? by {
      assert Last([2, 3]) == [1, 2] && Last([1, 3]) == [0, 2] && AddIdx([0, 1], [0, 2]) == [0, 3];
      Dot2(1, 2, 3, 1);
      SectionExact(s, [0, 1], [1, 3]);
    }
    assert s.Section([0, 1], [1, 3]).value.Cell([0, 2]) == s.Cell([1, 0]) by {
      assert AddIdx([0, 1], [0, 2]) == [0, 3];
      Dot2(1, 0, 3, 1);
      SectionOffset(s, [0, 1], [1, 3], [0, 2]);
    }
  }

  lemma {:induction false} Dot2(x: int, y: int, s: int, t: int)
    ensures Dot([x, y], [s, t]) == x * s + y * t
  {
    assert [x, y][1..] == [y] && [s, t][1..] == [t];
    assert [y][1..] == [] && [t][1..] == [];
    assert Dot([y], [t]) == y * t + Dot([], []);
  }

  /** Dereferencing the k-th position of a section's iterator reads the parent's cell at
      origin + (k-th index of the section's own space). */
  lemma {:induction false} SectionTraversal(s: StridedSpan, origin: seq<int>, extents: seq<int>, k: nat)
    requires Sound(s) && Fits(origin, extents, s.bounds.extents) && k < Size(extents)
    ensures s.Section(origin, extents).Some? && InRange(extents, Orbit(extents, k))
    ensures s.Section(origin, extents).value.Cell(Orbit(extents, k)) ==
            s.Cell(AddIdx(origin, Unrank(extents, k)))
  {
    SectionCells(s, origin, extents);
    OrbitIsUnrank(extents, k);
  }

  // ---------------------------------------------------------------- slicing

  /** Slicing with one index after another, then element access at rank 1. */
  function Nested(s: StridedSpan, idx: seq<int>): Option<Pointer>
    requires s.bounds.WellFormed() && |idx| == s.Rank()
    decreases |idx|
  {
    if |idx| == 1 then s.Cell(idx)
    else
      var inner :- s.Slice(idx[0]);
      Nested(inner, idx[1..])
  }

  /** When a slice is accepted: its block starts before the last cell, and the component is below
      the number of cells. Nothing looks at the lower end. */
  lemma {:induction false} SliceExact(s: StridedSpan, i: int)
    requires Sound(s) && s.Rank() > 1
    ensures s.Slice(i).Some? <==> i < Size(s.bounds.extents) && i * s.bounds.strides[0] < s.bounds.TotalSpec()
    ensures s.Slice(i).Some? ==>
              s.Slice(i).value ==
                StridedSpan(s.data.Plus(s.unit * (i * s.bounds.strides[0])), s.unit, s.bounds.Slice()) &&
              Sound(s.Slice(i).value)
  {
    SizePositive(s.bounds.extents[1..]);
  }

  /** A slice by an in-range component passes its checks and starts at that component's block. */
  lemma {:induction false} SliceAccepted(s: StridedSpan, i: int)
    requires Sound(s) && s.Rank() > 1 && 0 <= i < s.bounds.extents[0]
    ensures s.Slice(i) == Some(StridedSpan(s.data.Plus(s.unit * (i * s.bounds.strides[0])), s.unit, s.bounds.Slice()))
    ensures Sound(s.Slice(i).value)
  {
    var e := s.bounds.extents;
    var t := s.bounds.strides;
    SliceExact(s, i);
    SizePositive(e[1..]);
    MulMono(i + 1, e[0], Size(e[1..]));
    MulMono(1, Size(e[1..]), i + 1);
    MulMono(i, e[0] - 1, t[0]);
    assert Last(e)[1..] == Last(e[1..]);
    DotNonNegative(Last(e[1..]), t[1..]);
  }

  /** Slices are accepted exactly inside the outermost extent, for all non-negative components,
      exactly when the first component past it is caught by one of the two comparisons. */
  lemma {:induction false} SliceChecksIff(s: StridedSpan)
    requires Sound(s) && s.Rank() > 1
    ensures (forall i :: i >= 0 ==> (s.Slice(i).Some? <==> i < s.bounds.extents[0])) <==>
            s.bounds.extents[0] * s.bounds.strides[0] >= s.bounds.TotalSpec() || s.bounds.extents[0] >= Size(s.bounds.extents)
  {
    var e, t := s.bounds.extents[0], s.bounds.strides[0];
    forall i | i >= 0
      ensures i < e ==> s.Slice(i).Some?
      ensures i >= e ==> i * t >= e * t
      ensures s.Slice(i).Some? <==> i < Size(s.bounds.extents) && i * t < s.bounds.TotalSpec()
    {
      SliceExact(s, i);
      if i < e { SliceAccepted(s, i); } else { MulMono(e, i, t); }
    }
    assert s.Slice(e).Some? <==> e < Size(s.bounds.extents) && e * t < s.bounds.TotalSpec();
  }

  /** Every negative component is accepted, and starts before the parent's memory unless the
      stride is zero. */
  lemma {:induction false} NegativeSliceAccepted(s: StridedSpan, i: int)
    requires Sound(s) && s.Rank() > 1 && i < 0
    ensures s.Slice(i).Some?
    ensures s.Slice(i).value.data == s.data.Plus(s.unit * (i * s.bounds.strides[0]))
    ensures i * s.bounds.strides[0] < 0 <==> s.bounds.strides[0] > 0
  {
    SizePositive(s.bounds.extents);
    DotNonNegative(Last(s.bounds.extents), s.bounds.strides);
    if s.bounds.strides[0] > 0 { MulMono(i, -1, s.bounds.strides[0]); }
    SliceExact(s, i);
  }

  /** Two accepted slices that leave the parent's memory: one below, one above. */
  lemma {:induction false} SlicesEscape(data: int, unit: nat)
    ensures var s := StridedSpan(Ptr(data), unit, Bounds([2, 3], [3, 1]));
            Sound(s) && s.Slice(-1).Some? && s.Slice(-1).value.data == Ptr(data + unit * -3)
    ensures var s := StridedSpan(Ptr(data), unit, Bounds([2, 3], [1, 4]));
            Sound(s) && s.bounds.TotalSpec() == 10 && s.Slice(5).Some? &&
            s.Slice(5).value.Cell([2]) == Some(Ptr(data + unit * 13))
  {
    var below := StridedSpan(Ptr(data), unit, Bounds([2, 3], [3, 1]));
    NegativeSliceAccepted(below, -1);
    var above := StridedSpan(Ptr(data), unit, Bounds([2, 3], [1, 4]));
    assert Last([2, 3]) == [1, 2] && [2, 3][1..] == [3] && [1, 4][1..] == [4] && [3][1..] == [];
    Dot2(1, 2, 1, 4);
    assert Size([3]) == 3 * Size([]) && Size([2, 3]) == 2 * Size([3]);
    SliceExact(above, 5);
    assert [2][1..] == [] && [4][1..] == [];
    assert Dot([2], [4]) == 2 * 4 + Dot([], []);
    Distribute(unit, 5, 8);
  }

  /** A slice's cell is the span's cell with the sliced component in front. */
  lemma {:induction false} SliceCell(s: StridedSpan, idx: seq<int>)
    requires Sound(s) && InRange(s.bounds.extents, idx) && |idx| > 1
    ensures s.Slice(idx[0]).Some?
    ensures var inner := s.Slice(idx[0]).value;
            Sound(inner) && InRange(inner.bounds.extents, idx[1..]) &&
            s.Cell(idx).Some? && inner.Cell(idx[1..]) == s.Cell(idx)
  {
    SliceAccepted(s, idx[0]);
    Distribute(s.unit, idx[0] * s.bounds.strides[0], Dot(idx[1..], s.bounds.strides[1..]));
  }

  /** Repeated slicing reaches the cell of the whole index, and no check on the way fails. */
  lemma {:induction false} NestedIsCell(s: StridedSpan, idx: seq<int>)
    requires Sound(s) && InRange(s.bounds.extents, idx)
    ensures Nested(s, idx) == s.Cell(idx) && s.Cell(idx).Some?
    decreases |idx|
  {
    if |idx| > 1 {
      SliceCell(s, idx);
      NestedIsCell(s.Slice(idx[0]).value, idx[1..]);
    }
  }

  // ---------------------------------------------------------------- multi_span

  datatype MultiSpan = MultiSpan(data: Pointer, unit: nat, ranges: Ranges) {

    function Cell(idx: seq<int>): Option<Pointer>
      requires |idx| == ranges.Depth()
    {
      var offset :- ranges.Linearize(idx);
      Some(data.Plus(unit * offset))
    }

    function Slice(i: int): Option<MultiSpan>
      requires ranges.Depth() > 1
    {
      if !(i >= 0 && i < ranges.TotalSize()) then None else
        var offset := i * ranges.base.TotalSize();
        if !(offset < ranges.TotalSize()) then None else
          NewMultiSpan(data.Plus(unit * offset), unit, ranges.base)
    }

    function Section(origin: seq<int>, extents: seq<int>): Option<StridedSpan>
      requires ranges.Divisible() && |origin| == |extents| == ranges.Depth() >= 1
    {
      var offset :- ranges.Linearize(origin);
      var cell :- Cell(origin);
      NewStridedSpan(cell, unit, ranges.TotalSize() - offset, Bounds(extents, Strides(ranges.Extents())))
    }
  }

  function NewMultiSpan(data: Pointer, unit: nat, ranges: Ranges): Option<MultiSpan> {
    if (ranges.TotalSize() > 0 && data != Null) || ranges.TotalSize() == 0
    then Some(MultiSpan(data, unit, ranges)) else None
  }

  predicate SoundMulti(m: MultiSpan, b: seq<int>) {
    b != [] && Positive(b) && Represents(m.ranges, b) && m.data != Null
  }

  /** The same memory as a strided span. */
  function Strided(m: MultiSpan, b: seq<int>): StridedSpan {
    StridedSpan(m.data, m.unit, Bounds(b, Strides(b)))
  }

  lemma {:induction false} SizesNonNegative(b: seq<int>)
    requires Positive(b)
    ensures Bounds(b, Strides(b)).Regular() || b == []
  {
    forall i | 0 <= i < |b| ensures Strides(b)[i] >= 0 { SizePositive(b[i + 1..]); }
  }

  /** A contiguous span and its strided view agree on cells and on sections, for every index and
      every origin the chain's checks let through, so everything proved of strided sections holds of
      contiguous ones. */
  lemma {:induction false} ContiguousIsStrided(m: MultiSpan, b: seq<int>, origin: seq<int>, extents: seq<int>)
    requires SoundMulti(m, b) && |origin| == |extents| == |b|
    ensures Sound(Strided(m, b)) && m.ranges.Depth() == |b| && m.ranges.Divisible()
    ensures Accepts(m.ranges, b, origin) ==>
              m.Cell(origin) == Strided(m, b).Cell(origin) && m.Section(origin, extents) == Strided(m, b).Section(origin, extents)
    ensures !Accepts(m.ranges, b, origin) ==> m.Cell(origin) == None && m.Section(origin, extents) == None
  {
    SizesNonNegative(b);
    RepresentsSize(m.ranges, b);
    ExtentsRoundTrip(m.ranges, b);
    LinearizeExact(m.ranges, b, origin);
    if Accepts(m.ranges, b, origin) { AcceptedIsBelow(m.ranges, b, origin); }
    RankIsDot(b, origin);
    ContiguousTotal(b);
  }

  lemma {:induction false} AcceptedIsBelow(r: Ranges, b: seq<int>, idx: seq<int>)
    requires Represents(r, b) && |idx| == |b| && Accepts(r, b, idx)
    ensures forall i :: 0 <= i < |b| ==> idx[i] < b[i]
  {
    if r != Nil {
      AcceptedIsBelow(r.base, b[1..], idx[1..]);
      assert idx == [idx[0]] + idx[1..] && b == [b[0]] + b[1..];
    }
  }

  lemma {:induction false} SuffixFits(b: seq<int>, i: nat)
    requires Positive(b) && i <= |b|
    ensures 1 <= Size(b[i..]) <= Size(b)
    ensures i < |b| ==> Size(b[i..]) == b[i] * Size(b[i + 1..])
    decreases i
  {
    SizePositive(b[i..]);
    if i < |b| { assert b[i..][1..] == b[i + 1..]; }
    if i == 0 {
      assert b[0..] == b;
    } else {
      SuffixFits(b, i - 1);
      MulMono(1, b[i - 1], Size(b[i..]));
    }
  }

  lemma {:induction false} OnesSuffix(b: seq<int>, i: nat)
    requires Positive(b) && i < |b| && forall j :: 0 <= j < |b| - 1 ==> b[j] == 1
    ensures Size(b[i..]) == Size(b)
    decreases i
  {
    if i == 0 {
      assert b[0..] == b;
    } else {
      OnesSuffix(b, i - 1);
      SuffixFits(b, i - 1);
    }
  }

  lemma {:induction false} BlocksShrink(b: seq<int>)
    requires Positive(b) && b != []
    ensures (forall i :: 0 <= i < |b| ==> Size(b[i..]) >= Size(b)) <==> (forall j :: 0 <= j < |b| - 1 ==> b[j] == 1)
  {
    if forall j :: 0 <= j < |b| - 1 ==> b[j] == 1 {
      forall i | 0 <= i < |b| ensures Size(b[i..]) >= Size(b) { OnesSuffix(b, i); }
    }
    if forall i :: 0 <= i < |b| ==> Size(b[i..]) >= Size(b) {
      forall j | 0 <= j < |b| - 1 ensures b[j] == 1 { SuffixKept(b, j); }
    }
  }

  lemma {:induction false} SuffixKept(b: seq<int>, j: nat)
    requires Positive(b) && j + 1 < |b| && Size(b[j + 1..]) >= Size(b)
    ensures b[j] == 1
  {
    SuffixFits(b, j);
    SizePositive(b[j + 1..]);
    if b[j] >= 2 { MulMono(2, b[j], Size(b[j + 1..])); }
  }

  /** For a contiguous span, accepted sections from non-negative origins all lie inside it exactly
      when every extent but the innermost is one: as soon as there are two rows, a section can run
      over from one into the next. */
  lemma {:induction false} ContiguousFitsIff(m: MultiSpan, b: seq<int>)
    requires SoundMulti(m, b)
    ensures m.ranges.Depth() == |b| && m.ranges.Divisible()
    ensures (forall j :: 0 <= j < |b| - 1 ==> b[j] == 1) <==>
            forall origin: seq<int>, extents: seq<int> ::
              |origin| == |extents| == |b| && Positive(extents) &&
              (forall j :: 0 <= j < |origin| ==> origin[j] >= 0) && m.Section(origin, extents).Some? ==>
                Fits(origin, extents, b)
  {
    var s := Strided(m, b);
    SizesNonNegative(b);
    RepresentsSize(m.ranges, b);
    ExtentsRoundTrip(m.ranges, b);
    RowsSpanIff(b);
    AcceptedFitsIff(s);
    forall origin: seq<int>, extents: seq<int> |
      |origin| == |extents| == |b| && (forall j :: 0 <= j < |origin| ==> origin[j] >= 0)
      ensures m.Section(origin, extents) == s.Section(origin, extents)
    {
      ContiguousSections(m, b, origin, extents);
    }
  }

  lemma {:induction false} RowsSpanIff(b: seq<int>)
    requires Positive(b) && b != []
    ensures (forall i :: 0 <= i < |b| ==> b[i] * Strides(b)[i] >= Bounds(b, Strides(b)).TotalSpec()) <==>
            (forall j :: 0 <= j < |b| - 1 ==> b[j] == 1)
  {
    BlocksShrink(b);
    ContiguousTotal(b);
    forall i | 0 <= i < |b| ensures b[i] * Strides(b)[i] == Size(b[i..]) { assert b[i..][1..] == b[i + 1..]; }
  }

  /** From a non-negative origin the two section operations are the same, refusals included. */
  lemma {:induction false} ContiguousSections(m: MultiSpan, b: seq<int>, origin: seq<int>, extents: seq<int>)
    requires SoundMulti(m, b) && |origin| == |extents| == |b| && forall j :: 0 <= j < |b| ==> origin[j] >= 0
    ensures m.ranges.Depth() == |b| && m.ranges.Divisible()
    ensures m.Section(origin, extents) == Strided(m, b).Section(origin, extents)
  {
    ContiguousIsStrided(m, b, origin, extents);
    InRangeIsAccepted(m.ranges, b, origin);
    if !Accepts(m.ranges, b, origin) { assert !InRange(b, origin); }
  }

  /** A section inside a contiguous span is accepted and addresses the parent's cells. */
  lemma {:induction false} ContiguousSection(m: MultiSpan, b: seq<int>, origin: seq<int>, extents: seq<int>, idx: seq<int>)
    requires SoundMulti(m, b) && Fits(origin, extents, b) && InRange(extents, idx)
    ensures m.ranges.Depth() == |b| && m.ranges.Divisible() && InRange(b, AddIdx(origin, idx))
    ensures m.Section(origin, extents).Some?
    ensures m.Section(origin, extents).value.Cell(idx) == m.Cell(AddIdx(origin, idx))
    ensures m.Cell(AddIdx(origin, idx)).Some?
  {
    InRangeIsAccepted(m.ranges, b, origin);
    InRangeIsAccepted(m.ranges, b, AddIdx(origin, idx));
    ContiguousIsStrided(m, b, origin, extents);
    SectionCells(Strided(m, b), origin, extents);
    ContiguousIsStrided(m, b, AddIdx(origin, idx), extents);
  }

  function NestedMulti(m: MultiSpan, idx: seq<int>): Option<Pointer>
    requires |idx| == m.ranges.Depth() >= 1
    decreases |idx|
  {
    if |idx| == 1 then m.Cell(idx)
    else
      var inner :- m.Slice(idx[0]);
      NestedMulti(inner, idx[1..])
  }

  /** A slice is accepted exactly for the components of the outermost extent. */
  lemma {:induction false} SliceMultiExact(m: MultiSpan, b: seq<int>, i: int)
    requires SoundMulti(m, b) && |b| > 1
    ensures m.ranges.Depth() > 1
    ensures m.Slice(i).Some? <==> 0 <= i < b[0]
    ensures m.Slice(i).Some? ==>
              SoundMulti(m.Slice(i).value, b[1..]) &&
              m.Slice(i).value == MultiSpan(m.data.Plus(m.unit * (i * Size(b[1..]))), m.unit, m.ranges.base)
  {
    var s := Size(b[1..]);
    RepresentsSize(m.ranges, b);
    RepresentsSize(m.ranges.base, b[1..]);
    SizePositive(b[1..]);
    MulStrict(i, b[0], s);
    MulMono(1, s, b[0]);
  }

  lemma {:induction false} NestedMultiIsCell(m: MultiSpan, b: seq<int>, idx: seq<int>)
    requires SoundMulti(m, b) && InRange(b, idx)
    ensures m.ranges.Depth() == |b|
    ensures NestedMulti(m, idx) == m.Cell(idx) && m.Cell(idx).Some?
    decreases |idx|
  {
    RepresentsSize(m.ranges, b);
    LinearizeExact(m.ranges, b, idx);
    InRangeIsAccepted(m.ranges, b, idx);
    if |idx| > 1 {
      SliceMultiExact(m, b, idx[0]);
      var inner := m.Slice(idx[0]).value;
      NestedMultiIsCell(inner, b[1..], idx[1..]);
      LinearizeExact(inner.ranges, b[1..], idx[1..]);
      InRangeIsAccepted(inner.ranges, b[1..], idx[1..]);
      Distribute(m.unit, idx[0] * Size(b[1..]), Index.Rank(b[1..], idx[1..]));
    }
  }
}
