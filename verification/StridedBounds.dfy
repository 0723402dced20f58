/** `strided_bounds`: extents with explicit strides. The loops of the source are methods, each
    proved against a function on the two sequences. */
module StridedBounds {
  import opened Wrappers
  import opened Index

  datatype Bounds = Bounds(extents: seq<int>, strides: seq<int>) {

    predicate WellFormed() { |extents| == |strides| >= 1 }

    /** Extents at least one and strides not negative: every cell has an offset >= 0. */
    predicate Regular() {
      WellFormed() && Positive(extents) && forall i :: 0 <= i < |strides| ==> strides[i] >= 0
    }

    /** Cells reach from offset 0 to the offset of the last index. */
    function TotalSpec(): int
      requires WellFormed()
    {
      1 + Dot(Last(extents), strides)
    }

    /** The only check is the upper end of each component. */
    predicate Accepts(idx: seq<int>) {
      |idx| == |extents| && forall i :: 0 <= i < |idx| ==> idx[i] < extents[i]
    }

    function LinearizeSpec(idx: seq<int>): Option<int>
      requires WellFormed() && |idx| == |extents|
    {
      if Accepts(idx) then Some(Dot(idx, strides)) else None
    }

    method TotalSize() returns (size: int)
      requires WellFormed()
      ensures size == TotalSpec()
    {
      var ret := 0;
      ghost var last := Last(extents);
      for i := 0 to |extents|
        invariant ret + Dot(last[i..], strides[i..]) == Dot(last, strides)
      {
        assert last[i..][1..] == last[i + 1..] && strides[i..][1..] == strides[i + 1..];
        ret := ret + (extents[i] - 1) * strides[i];
      }
      size := ret + 1;
    }

    method CellCount() returns (size: int)
      requires WellFormed()
      ensures size == Size(extents)
    {
      size := 1;
      for i := 0 to |extents|
        invariant size * Size(extents[i..]) == Size(extents)
      {
        assert extents[i..][1..] == extents[i + 1..];
        size := size * extents[i];
      }
    }

    method Contains(idx: seq<int>) returns (inside: bool)
      requires WellFormed() && |idx| == |extents|
      ensures inside <==> InRange(extents, idx)
    {
      for i := 0 to |extents|
        invariant forall j :: 0 <= j < i ==> 0 <= idx[j] < extents[j]
      {
        if idx[i] < 0 || idx[i] >= extents[i] { return false; }
      }
      return true;
    }

    method Linearize(idx: seq<int>) returns (offset: Option<int>)
      requires WellFormed() && |idx| == |extents|
      ensures offset == LinearizeSpec(idx)
    {
      var ret := 0;
      for i := 0 to |extents|
        invariant forall j :: 0 <= j < i ==> idx[j] < extents[j]
        invariant ret + Dot(idx[i..], strides[i..]) == Dot(idx, strides)
      {
        if !(idx[i] < extents[i]) { return None; }
        assert idx[i..][1..] == idx[i + 1..] && strides[i..][1..] == strides[i + 1..];
        ret := ret + idx[i] * strides[i];
      }
      return Some(ret);
    }

    function Slice(): Bounds
      requires WellFormed() && |extents| > 1
    {
      Bounds(extents[1..], strides[1..])
    }
  }

  /** `shift_left`: an index without its outermost component. */
  method ShiftLeft(other: seq<int>) returns (ret: seq<int>)
    requires |other| > 1
    ensures ret == other[1..]
  {
    var a := new int[|other| - 1];
    for i := 0 to |other| - 1
      invariant forall j :: 0 <= j < i ==> a[j] == other[j + 1]
    {
      a[i] := other[i + 1];
    }
    ret := a[..];
  }

  /** `make_stride` for contiguous bounds: strides built from the innermost dimension out. */
  method MakeStride(extents: seq<int>) returns (ret: seq<int>)
    requires |extents| >= 1
    ensures ret == Strides(extents)
  {
    var rank := |extents|;
    var stride := new int[rank](_ => 0);
    stride[rank - 1] := 1;
    assert extents[rank..] == [];
    for i := 1 to rank
      invariant forall j :: rank - i <= j < rank ==> stride[j] == Size(extents[j + 1..])
    {
      assert extents[rank - i..][1..] == extents[rank - i + 1..];
      stride[rank - i - 1] := stride[rank - i] * extents[rank - i];
    }
    ret := stride[..];
  }

  /** Every cell of regular bounds lies between 0 and the total size, and the two ends are
      reached. */
  lemma {:induction false} CellsFit(b: Bounds, idx: seq<int>)
    requires b.Regular() && InRange(b.extents, idx)
    ensures b.LinearizeSpec(idx) == Some(Dot(idx, b.strides))
    ensures 0 <= Dot(idx, b.strides) < b.TotalSpec()
    ensures b.TotalSpec() == Dot(Last(b.extents), b.strides) + 1
  {
    DotNonNegative(idx, b.strides);
    DotMono(idx, Last(b.extents), b.strides);
  }

  /** The check guards the upper end only: what it lets through lies inside exactly when its offset
      is not negative. */
  lemma {:induction false} AcceptedInsideIff(b: Bounds, idx: seq<int>)
    requires b.Regular() && b.Accepts(idx)
    ensures 0 <= Dot(idx, b.strides) < b.TotalSpec() <==> Dot(idx, b.strides) >= 0
  {
    DotMono(idx, Last(b.extents), b.strides);
  }

  /** For row-major strides the total size is the number of cells. */
  lemma {:induction false} ContiguousTotal(extents: seq<int>)
    requires |extents| >= 1
    ensures Bounds(extents, Strides(extents)).TotalSpec() == Size(extents)
  {
    RankOfLast(extents);
    RankIsDot(extents, Last(extents));
  }
}
