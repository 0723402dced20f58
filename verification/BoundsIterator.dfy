/** `bounds_iterator`: the odometer over an index buffer that is updated in place. Every method
    is proved against the function of the same operation in Odometer. */
module BoundsIterator {
  import opened Arith
  import opened Wrappers
  import opened Index
  import opened Odometer

  class Iterator {
    const boundary: seq<int>
    const curr: array<int>

    ghost predicate WellFormed()
      reads this
    {
      curr.Length == |boundary| >= 1
    }

    /** `begin()`: the zero index. */
    constructor Begin(extents: seq<int>)
      requires |extents| >= 1
      ensures WellFormed() && fresh(curr) && boundary == extents && curr[..] == Zeros(|extents|)
    {
      boundary := extents;
      curr := new int[|extents|](_ => 0);
    }

    /** `end()`: the boundary itself. */
    constructor End(extents: seq<int>)
      requires |extents| >= 1
      ensures WellFormed() && fresh(curr) && boundary == extents && curr[..] == extents
    {
      boundary := extents;
      curr := new int[|extents|](i requires 0 <= i < |extents| => extents[i]);
    }

    method Increment()
      requires WellFormed()
      modifies curr
      ensures curr[..] == Inc(boundary, old(curr[..]))
    {
      ghost var c := curr[..];
      var i := curr.Length;
      assert boundary[i..] == [] && c[i..] == [];
      while i > 0
        invariant 0 <= i <= curr.Length
        invariant curr[..i] == c[..i] && curr[i..] == Zeros(|c| - i)
        invariant Step(boundary[i..], c[i..]) == None
      {
        i := i - 1;
        assert curr[i] == c[i];
        assert boundary[i..][1..] == boundary[i + 1..] && c[i..][1..] == c[i + 1..];
        if curr[i] < boundary[i] - 1 {
          curr[i] := curr[i] + 1;
          StepInner(boundary, c, i);
          assert curr[..] == c[..i] + ([c[i] + 1] + Zeros(|c| - i - 1));
          return;
        }
        curr[i] := 0;
        assert curr[i..] == [0] + curr[i + 1..] == Zeros(|c| - i);
      }
      assert boundary[0..] == boundary && c[0..] == c;
      forall k | 0 <= k < curr.Length { curr[k] := boundary[k]; }
    }

    method Decrement() returns (ok: bool)
      requires WellFormed()
      modifies curr
      ensures ok == Dec(boundary, old(curr[..])).Some?
      ensures ok ==> curr[..] == Dec(boundary, old(curr[..])).value
    {
      var smaller := IsLess(curr[..], boundary);
      if !smaller {
        SetToLast();
        ok := true;
      } else {
        ok := Borrow();
      }
    }

    /** The past-the-end branch of `--`. */
    method SetToLast()
      requires WellFormed()
      modifies curr
      ensures curr[..] == Last(boundary)
    {
      for i := 0 to curr.Length
        invariant forall k :: 0 <= k < i ==> curr[k] == boundary[k] - 1
      {
        curr[i] := boundary[i] - 1;
      }
    }

    /** The borrow loop of `--`. */
    method Borrow() returns (ok: bool)
      requires WellFormed()
      modifies curr
      ensures ok == StepBack(boundary, old(curr[..])).Some?
      ensures ok ==> curr[..] == StepBack(boundary, old(curr[..])).value
    {
      ghost var c := curr[..];
      var i := curr.Length;
      assert boundary[i..] == [] && c[i..] == [];
      while i > 0
        invariant 0 <= i <= curr.Length
        invariant curr[..i] == c[..i] && curr[i..] == Last(boundary[i..])
        invariant StepBack(boundary[i..], c[i..]) == None
      {
        i := i - 1;
        assert curr[i] == c[i];
        assert boundary[i..][1..] == boundary[i + 1..] && c[i..][1..] == c[i + 1..];
        if curr[i] >= 1 {
          curr[i] := curr[i] - 1;
          StepBackInner(boundary, c, i);
          assert curr[..] == c[..i] + ([c[i] - 1] + Last(boundary[i + 1..]));
          return true;
        }
        curr[i] := boundary[i] - 1;
        assert curr[i..] == [boundary[i] - 1] + Last(boundary[i + 1..]) == Last(boundary[i..]);
      }
      assert boundary[0..] == boundary && c[0..] == c;
      return false;
    }

    /** `+=`; false when the final `Expects` fails. */
    method Advance(n: int) returns (ok: bool)
      requires WellFormed() && Positive(boundary)
      modifies curr
      ensures ok == Jump(boundary, old(curr[..]), n).Some?
      ensures ok ==> curr[..] == Jump(boundary, old(curr[..]), n).value
    {
      var linear := Linearize(curr[..]);
      var stride := RowMajorStrides();
      SetDigits(stride, linear + n);
      var below := IsLess(curr[..], Zeros(curr.Length));
      var above := IsLess(boundary, curr[..]);
      ok := !below && !above;
    }

    /** The division loop of `+=`. */
    method SetDigits(stride: array<int>, target: int)
      requires WellFormed() && Positive(boundary)
      requires stride != curr && stride[..] == Strides(boundary)
      modifies curr
      ensures curr[..] == Digits(boundary, target)
    {
      var linear := target;
      ghost var all := Digits(boundary, target);
      for i := 0 to curr.Length
        invariant forall k :: 0 <= k < i ==> curr[k] == all[k]
        invariant Digits(boundary[i..], linear) == all[i..]
      {
        assert boundary[i..][1..] == boundary[i + 1..] && all[i..][1..] == all[i + 1..];
        SizePositive(boundary[i + 1..]);
        assert stride[i] == stride[..][i] == Size(boundary[i + 1..]);
        curr[i] := TruncDiv(linear, stride[i]);
        linear := TruncMod(linear, stride[i]);
      }
    }

    /** The stride array at the head of `+=`. */
    method RowMajorStrides() returns (stride: array<int>)
      requires WellFormed()
      ensures fresh(stride) && stride[..] == Strides(boundary)
    {
      var rank := |boundary|;
      stride := new int[rank](_ => 0);
      stride[rank - 1] := 1;
      assert boundary[rank..] == [];
      var i := rank - 1;
      while i > 0
        invariant 0 <= i <= rank - 1
        invariant forall j :: i <= j < rank ==> stride[j] == Size(boundary[j + 1..])
      {
        i := i - 1;
        assert boundary[i + 1..][1..] == boundary[i + 2..];
        stride[i] := stride[i + 1] * boundary[i + 1];
      }
    }

    method IsLess(one: seq<int>, other: seq<int>) returns (less: bool)
      requires |one| == |other|
      ensures less == Less(one, other)
    {
      for i := 0 to |one|
        invariant forall j :: 0 <= j < i ==> one[j] >= other[j]
      {
        if one[i] < other[i] { return true; }
      }
      return false;
    }

    method Linearize(idx: seq<int>) returns (res: int)
      requires WellFormed() && |idx| == |boundary|
      ensures res == Lin(boundary, idx)
    {
      var multiplier := 1;
      res := 0;
      var smaller := IsLess(idx, boundary);
      var i := |idx|;
      assert boundary[i..] == [] && idx[i..] == [];
      if !smaller {
        res := 1;
        ghost var last := Last(idx);
        while i > 0
          invariant 0 <= i <= |idx|
          invariant multiplier == Size(boundary[i..]) && res == 1 + Rank(boundary[i..], last[i..])
        {
          i := i - 1;
          assert boundary[i..][1..] == boundary[i + 1..] && last[i..][1..] == last[i + 1..];
          res := res + (idx[i] - 1) * multiplier;
          multiplier := multiplier * boundary[i];
        }
        assert last[0..] == last;
      } else {
        while i > 0
          invariant 0 <= i <= |idx|
          invariant multiplier == Size(boundary[i..]) && res == Rank(boundary[i..], idx[i..])
        {
          i := i - 1;
          assert boundary[i..][1..] == boundary[i + 1..] && idx[i..][1..] == idx[i + 1..];
          res := res + idx[i] * multiplier;
          multiplier := multiplier * boundary[i];
        }
        assert idx[0..] == idx;
      }
      assert boundary[0..] == boundary;
    }

    /** The distance between two iterators over the same bounds. */
    method Difference(rhs: Iterator) returns (n: int)
      requires WellFormed() && rhs.WellFormed() && rhs.boundary == boundary
      ensures n == Lin(boundary, curr[..]) - Lin(boundary, rhs.curr[..])
    {
      var a := Linearize(curr[..]);
      var b := Linearize(rhs.curr[..]);
      n := a - b;
    }
  }

  lemma {:induction false} PrefixCons(c: seq<int>, i: nat, v: seq<int>)
    requires 0 < i <= |c|
    ensures c[..i] + v == [c[0]] + (c[1..][..i - 1] + v)
  {
  }

  /** A step taken in the inner components is a step of the whole index. */
  lemma {:induction false} StepInner(b: seq<int>, c: seq<int>, i: nat)
    requires |b| == |c| && i < |b| && Step(b[i..], c[i..]).Some?
    ensures Step(b, c) == Some(c[..i] + Step(b[i..], c[i..]).value)
  {
    var v := Step(b[i..], c[i..]).value;
    if i == 0 {
      assert b[0..] == b && c[0..] == c && c[..0] + v == v;
    } else {
      assert b[1..][i - 1..] == b[i..] && c[1..][i - 1..] == c[i..];
      StepInner(b[1..], c[1..], i - 1);
      PrefixCons(c, i, v);
    }
  }

  lemma {:induction false} StepBackInner(b: seq<int>, c: seq<int>, i: nat)
    requires |b| == |c| && i < |b| && StepBack(b[i..], c[i..]).Some?
    ensures StepBack(b, c) == Some(c[..i] + StepBack(b[i..], c[i..]).value)
  {
    var v := StepBack(b[i..], c[i..]).value;
    if i == 0 {
      assert b[0..] == b && c[0..] == c && c[..0] + v == v;
    } else {
      assert b[1..][i - 1..] == b[i..] && c[1..][i - 1..] == c[i..];
      StepBackInner(b[1..], c[1..], i - 1);
      PrefixCons(c, i, v);
    }
  }
}
