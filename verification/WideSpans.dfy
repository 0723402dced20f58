/** `as_strided_span`: reading a span of bytes as a span of elements of d bytes. */
module WideSpans {
  import opened Arith
  import opened Wrappers
  import opened Index
  import opened StridedBounds
  import opened Spans

  /** `resize_extent`: the innermost extent must hold whole elements. */
  function ResizeExtent(extents: seq<int>, d: nat): Option<seq<int>>
    requires |extents| >= 1 && d >= 1
  {
    var n := |extents| - 1;
    if extents[n] >= d && extents[n] % d == 0 then Some(extents[n := extents[n] / d]) else None
  }

  /** What `resize_stride` demands: unit innermost stride, room for whole elements in the next
      one, and each stride a multiple of the one inside it. */
  predicate Resizable(strides: seq<int>, d: nat)
    requires |strides| >= 1 && d >= 1
  {
    var n := |strides| - 1;
    strides[n] == 1 &&
    (n > 0 ==> strides[n - 1] >= d && strides[n - 1] % d == 0) &&
    forall i :: 0 < i <= n ==> strides[i] >= 1 && strides[i - 1] >= strides[i] && strides[i - 1] % strides[i] == 0
  }

  /** The strides in elements of d bytes. */
  function WideStrides(strides: seq<int>, d: nat): (w: seq<int>)
    requires d >= 1
    ensures |w| == |strides|
  {
    seq(|strides|, i requires 0 <= i < |strides| => if i == |strides| - 1 then 1 else strides[i] / d)
  }

  method ResizeStride(strides: seq<int>, d: nat) returns (r: Option<seq<int>>)
    requires |strides| >= 1 && d >= 1
    ensures r == if Resizable(strides, d) then Some(WideStrides(strides, d)) else None
    ensures var n := |strides| - 1;
            r.Some? <==>
            strides[n] == 1 && (n > 0 ==> strides[n - 1] >= d && strides[n - 1] % d == 0) &&
            forall i :: 0 < i <= n ==> strides[i] >= 1 && strides[i - 1] >= strides[i] && strides[i - 1] % strides[i] == 0
  {
    var n := |strides| - 1;
    if strides[n] != 1 { return None; }
    if n == 0 {
      assert strides == WideStrides(strides, d);
      return Some(strides);
    }
    if !(strides[n - 1] >= d && TruncMod(strides[n - 1], d) == 0) {
      TruncDivMod(strides[n - 1], d);
      return None;
    }
    TruncDivMod(strides[n - 1], d);
    var i := n;
    while i > 0
      invariant 0 <= i <= n && strides[i] >= 1
      invariant forall j :: i < j <= n ==>
                  strides[j] >= 1 && strides[j - 1] >= strides[j] && strides[j - 1] % strides[j] == 0
    {
      if !(strides[i - 1] >= strides[i] && TruncMod(strides[i - 1], strides[i]) == 0) {
        TruncDivMod(strides[i - 1], strides[i]);
        return None;
      }
      TruncDivMod(strides[i - 1], strides[i]);
      i := i - 1;
    }
    var ret := new int[|strides|](k requires 0 <= k < |strides| => TruncDiv(strides[k], d));
    ret[n] := 1;
    assert ret[..] == WideStrides(strides, d) by {
      forall k | 0 <= k < n ensures ret[k] == strides[k] / d {
        StridesPositive(strides, d, k);
      }
    }
    return Some(ret[..]);
  }

  lemma {:induction false} StridesPositive(strides: seq<int>, d: nat, i: nat)
    requires |strides| >= 1 && d >= 1 && Resizable(strides, d) && i < |strides|
    ensures strides[i] >= 1
    decreases |strides| - i
  {
    if i < |strides| - 1 { assert strides[i + 1 - 1] >= strides[i + 1] >= 1; }
  }

  lemma {:induction false} DividesTrans(a: int, b: int, d: int)
    requires d >= 1 && b >= 1 && a % b == 0 && b % d == 0
    ensures a % d == 0
  {
    assert a == (a / b) * b && b == (b / d) * d;
    assert a == ((a / b) * (b / d)) * d + 0;
    DivModUnique((a / b) * (b / d), 0, d);
  }

  /** The chain of multiples makes every stride but the last divisible by the element size. */
  lemma {:induction false} StridesDivisible(strides: seq<int>, d: nat, i: nat)
    requires d >= 1 && i + 1 < |strides| && Resizable(strides, d)
    ensures strides[i] % d == 0 && strides[i] >= 1
    decreases |strides| - i
  {
    StridesPositive(strides, d, i);
    if i + 2 < |strides| {
      StridesDivisible(strides, d, i + 1);
      assert strides[i + 1 - 1] % strides[i + 1] == 0;
      DividesTrans(strides[i], strides[i + 1], d);
    }
  }

  function AsWide(s: StridedSpan, d: nat): Option<StridedSpan>
    requires s.bounds.WellFormed() && s.unit == 1 && d >= 1
  {
    var extents :- ResizeExtent(s.bounds.extents, d);
    if Resizable(s.bounds.strides, d) then
      NewStridedSpan(s.data, d, TruncDiv(s.bounds.TotalSpec(), d), Bounds(extents, WideStrides(s.bounds.strides, d)))
    else None
  }

  /** A wide index and a byte inside the element, as a byte index. */
  function ByteIndex(idx: seq<int>, d: nat, byte: int): seq<int>
    requires |idx| >= 1
  {
    idx[|idx| - 1 := idx[|idx| - 1] * d + byte]
  }

  /** The offset in bytes is d times the offset in elements, plus the byte inside the element. */
  lemma {:induction false} WideDot(idx: seq<int>, strides: seq<int>, d: nat, byte: int)
    requires |idx| == |strides| >= 1 && d >= 1
    requires strides[|strides| - 1] == 1
    requires forall i :: 0 <= i < |strides| - 1 ==> strides[i] % d == 0
    ensures Dot(ByteIndex(idx, d, byte), strides) == d * Dot(idx, WideStrides(strides, d)) + byte
  {
    var w := WideStrides(strides, d);
    var x := ByteIndex(idx, d, byte);
    if |idx| > 1 {
      WideDot(idx[1..], strides[1..], d, byte);
      assert w[1..] == WideStrides(strides[1..], d);
      assert x[1..] == ByteIndex(idx[1..], d, byte);
      assert strides[0] == d * w[0];
      Regroup(d, idx[0], w[0], Dot(idx[1..], w[1..]));
    } else {
      assert x[1..] == [] && w[1..] == [];
    }
  }

  lemma {:induction false} Regroup(d: int, i: int, w: int, rest: int)
    ensures i * (d * w) + d * rest == d * (i * w + rest)
  {
  }

  function WideBounds(b: Bounds, d: nat): Bounds
    requires b.WellFormed() && d >= 1
  {
    var n := |b.extents| - 1;
    Bounds(b.extents[n := b.extents[n] / d], WideStrides(b.strides, d))
  }

  lemma {:induction false} WideRegular(b: Bounds, d: nat)
    requires b.Regular() && d >= 1 && Resizable(b.strides, d) && b.extents[|b.extents| - 1] >= d
    ensures WideBounds(b, d).Regular()
  {
    var n := |b.extents| - 1;
    DivBounds(b.extents[n], d, 1);
    forall i | 0 <= i < n ensures b.strides[i] / d >= 0 {
      DivBounds(b.strides[i], d, 0);
    }
  }

  lemma {:induction false} LastByte(e: seq<int>, d: nat)
    requires |e| >= 1 && d >= 1 && e[|e| - 1] % d == 0
    ensures ByteIndex(Last(e[|e| - 1 := e[|e| - 1] / d]), d, d - 1) == Last(e)
  {
    var n := |e| - 1;
    assert (e[n] / d) * d == e[n];
    assert (e[n] / d - 1) * d + (d - 1) == e[n] - 1;
  }

  /** The total size in elements divides the total size in bytes exactly. */
  lemma {:induction false} WideTotal(b: Bounds, d: nat)
    requires b.Regular() && d >= 1 && Resizable(b.strides, d)
    requires b.extents[|b.extents| - 1] >= d && b.extents[|b.extents| - 1] % d == 0
    ensures b.TotalSpec() == d * WideBounds(b, d).TotalSpec() && WideBounds(b, d).TotalSpec() >= 1
  {
    var wide := WideBounds(b, d);
    WideRegular(b, d);
    forall i | 0 <= i < |b.strides| - 1 ensures b.strides[i] % d == 0 {
      StridesDivisible(b.strides, d, i);
    }
    LastByte(b.extents, d);
    WideDot(Last(wide.extents), b.strides, d, d - 1);
    Distribute(d, 1, Dot(Last(wide.extents), wide.strides));
    DotNonNegative(Last(wide.extents), wide.strides);
  }

  /** When the demands on extents and strides are met the constructor's own check passes: the
      total size divides exactly. */
  lemma {:induction false} AsWideExact(s: StridedSpan, d: nat)
    requires Sound(s) && s.unit == 1 && d >= 1
    ensures var n := s.Rank() - 1;
            AsWide(s, d).Some? <==>
            s.bounds.extents[n] >= d && s.bounds.extents[n] % d == 0 && Resizable(s.bounds.strides, d)
    ensures AsWide(s, d).Some? ==>
              Sound(AsWide(s, d).value) && AsWide(s, d).value.unit == d && AsWide(s, d).value.data == s.data &&
              s.bounds.TotalSpec() == d * AsWide(s, d).value.bounds.TotalSpec()
  {
    var e := s.bounds.extents;
    var n := |e| - 1;
    if e[n] >= d && e[n] % d == 0 && Resizable(s.bounds.strides, d) {
      WideTotal(s.bounds, d);
      WideRegular(s.bounds, d);
      var wide := WideBounds(s.bounds, d);
      ExactQuotient(s.bounds.TotalSpec(), wide.TotalSpec(), d);
      SizePositive(wide.extents);
    }
  }

  lemma {:induction false} ExactQuotient(total: int, q: int, d: int)
    requires d >= 1 && q >= 1 && total == d * q
    ensures TruncDiv(total, d) == q
  {
    MulPositive(d, q);
    DivModUnique(q, 0, d);
  }

  lemma {:induction false} RowMajorStep(b: seq<int>, i: nat)
    requires Positive(b) && 0 < i < |b|
    ensures Strides(b)[i] >= 1 && Strides(b)[i - 1] >= Strides(b)[i] && Strides(b)[i - 1] % Strides(b)[i] == 0
    ensures i == |b| - 1 ==> Strides(b)[i - 1] == b[i]
  {
    var s := Size(b[i + 1..]);
    SizePositive(b[i + 1..]);
    assert b[i..][1..] == b[i + 1..] && Size(b[i..]) == b[i] * s;
    MulMono(1, b[i], s);
    DivModUnique(b[i], 0, s);
    if i == |b| - 1 { assert b[i + 1..] == []; }
  }

  /** Row-major strides can be resized exactly when the innermost dimension holds whole elements
      (or is the only one). */
  lemma {:induction false} RowMajorResizableIff(b: seq<int>, d: nat)
    requires Positive(b) && |b| >= 1 && d >= 1
    ensures Resizable(Strides(b), d) <==> |b| == 1 || b[|b| - 1] % d == 0
  {
    var n := |b| - 1;
    assert b[n + 1..] == [] && Strides(b)[n] == 1;
    forall i | 0 < i <= n
      ensures Strides(b)[i] >= 1 && Strides(b)[i - 1] >= Strides(b)[i] && Strides(b)[i - 1] % Strides(b)[i] == 0
    {
      RowMajorStep(b, i);
    }
    if n > 0 {
      RowMajorStep(b, n);
      if b[n] % d == 0 { WholeElements(b[n], d); }
    }
  }

  lemma {:induction false} WholeElements(x: int, d: nat)
    requires x >= 1 && d >= 1 && x % d == 0
    ensures x >= d
  {
    DivBounds(x, d, 1);
    assert x == x / d * d;
  }

  /** Bytes laid out row by row can be read as elements of d bytes exactly when a row holds whole
      elements; and a section of them, exactly when its rows do and (at rank 2 and above) so do the
      rows it is cut from. */
  lemma {:induction false} SectionAsWideIff(s: StridedSpan, b: seq<int>, d: nat)
    requires Sound(s) && s.unit == 1 && d >= 1
    requires Positive(b) && |b| == s.Rank() && s.bounds.strides == Strides(b)
    ensures var n := |b| - 1;
            AsWide(s, d).Some? <==> s.bounds.extents[n] % d == 0 && (n == 0 || b[n] % d == 0)
    ensures s.bounds.extents == b ==> (AsWide(s, d).Some? <==> b[|b| - 1] % d == 0)
  {
    AsWideExact(s, d);
    RowMajorResizableIff(b, d);
    var last := s.bounds.extents[|b| - 1];
    if last % d == 0 { WholeElements(last, d); }
  }

  /** What an accepted wide span looks like. */
  lemma {:induction false} WideShape(s: StridedSpan, d: nat)
    requires Sound(s) && s.unit == 1 && d >= 1 && AsWide(s, d).Some?
    ensures var e := s.bounds.extents;
            var n := |e| - 1;
            e[n] % d == 0 && s.bounds.strides[n] == 1 &&
            AsWide(s, d).value == StridedSpan(s.data, d, Bounds(e[n := e[n] / d], WideStrides(s.bounds.strides, d)))
    ensures forall i :: 0 <= i < |s.bounds.strides| - 1 ==> s.bounds.strides[i] % d == 0
  {
    forall i | 0 <= i < |s.bounds.strides| - 1 ensures s.bounds.strides[i] % d == 0 {
      StridesDivisible(s.bounds.strides, d, i);
    }
  }

  lemma {:induction false} ByteIndexInRange(e: seq<int>, idx: seq<int>, d: nat, byte: int)
    requires |e| >= 1 && d >= 1 && e[|e| - 1] % d == 0 && 0 <= byte < d
    requires InRange(e[|e| - 1 := e[|e| - 1] / d], idx)
    ensures InRange(e, ByteIndex(idx, d, byte))
  {
    var n := |e| - 1;
    var we := e[n := e[n] / d];
    assert 0 <= idx[n] < we[n];
    MulMono(idx[n] + 1, e[n] / d, d);
    MulMono(0, idx[n], d);
    assert (e[n] / d) * d == e[n];
    forall i | 0 <= i < n ensures 0 <= idx[i] < e[i] { assert e[i] == we[i]; }
  }

  /** Byte `byte` of wide element idx is the byte cell of the combined index, in range on both
      sides. */
  lemma {:induction false} WideCell(s: StridedSpan, d: nat, idx: seq<int>, byte: int)
    requires Sound(s) && s.unit == 1 && d >= 1 && AsWide(s, d).Some?
    requires InRange(AsWide(s, d).value.bounds.extents, idx) && 0 <= byte < d
    ensures InRange(s.bounds.extents, ByteIndex(idx, d, byte))
    ensures var wide := AsWide(s, d).value.Cell(idx);
            wide.Some? && s.Cell(ByteIndex(idx, d, byte)) == Some(wide.value.Plus(byte))
  {
    WideShape(s, d);
    ByteIndexInRange(s.bounds.extents, idx, d, byte);
    WideDot(idx, s.bounds.strides, d, byte);
  }

  /** Every byte cell of the span belongs to one wide element: the wide span covers exactly the
      bytes of the byte span. */
  lemma {:induction false} EveryByteIsCovered(s: StridedSpan, d: nat, x: seq<int>)
    requires Sound(s) && s.unit == 1 && d >= 1 && AsWide(s, d).Some?
    requires InRange(s.bounds.extents, x)
    ensures var n := |x| - 1;
            var idx := x[n := x[n] / d];
            InRange(AsWide(s, d).value.bounds.extents, idx) &&
            ByteIndex(idx, d, x[n] % d) == x &&
            AsWide(s, d).value.Cell(idx).Some? &&
            s.Cell(x) == Some(AsWide(s, d).value.Cell(idx).value.Plus(x[n] % d))
  {
    WideShape(s, d);
    var n := |x| - 1;
    var e := s.bounds.extents;
    var idx := x[n := x[n] / d];
    CoveredIndex(e, x, d);
    WideCell(s, d, idx, x[n] % d);
  }

  lemma {:induction false} CoveredIndex(e: seq<int>, x: seq<int>, d: nat)
    requires |e| >= 1 && d >= 1 && e[|e| - 1] % d == 0 && InRange(e, x)
    ensures var n := |x| - 1;
            InRange(e[n := e[n] / d], x[n := x[n] / d]) && ByteIndex(x[n := x[n] / d], d, x[n] % d) == x
  {
    var n := |x| - 1;
    assert (e[n] / d) * d == e[n];
    DivBounds(x[n], d, e[n] / d);
    assert x[n] == (x[n] / d) * d + x[n] % d;
  }
}
