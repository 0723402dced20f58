/** `gsl::narrow_cast`, `gsl::narrow`, and the one-comparison range check of `gsl::span`, for
    two's complement integers of any width. */
module Narrowing {
  import opened Arith
  import opened Wrappers

  datatype IntType = IntType(bits: nat, signed: bool)

  function Pow2(n: nat): (p: int)
    ensures p > 0
  {
    if n == 0 then 1 else 2 * Pow2(n - 1)
  }

  /** Least value and one more than the greatest. */
  function Low(t: IntType): int
    requires t.bits > 0
  {
    if t.signed then -Pow2(t.bits - 1) else 0
  }

  function High(t: IntType): int
    requires t.bits > 0
  {
    if t.signed then Pow2(t.bits - 1) else Pow2(t.bits)
  }

  predicate Fits(v: int, t: IntType)
    requires t.bits > 0
  {
    Low(t) <= v < High(t)
  }

  /** `narrow_cast<T>(v)`: the value of the type that agrees with v in the low bits. */
  function NarrowCast(v: int, t: IntType): (r: int)
    requires t.bits > 0
  {
    var low := v % Pow2(t.bits);
    if t.signed && low >= Pow2(t.bits - 1) then low - Pow2(t.bits) else low
  }

  /** `narrow<T>(u)` for u of type `from`; None is termination. */
  function Narrow(u: int, from: IntType, to: IntType): Option<int>
    requires from.bits > 0 && to.bits > 0
  {
    var t := NarrowCast(u, to);
    if NarrowCast(t, from) != u then None
    else if from.signed != to.signed && (t < 0) != (u < 0) then None
    else Some(t)
  }

  /** A cast gives the value of the target type that differs by a multiple of 2^bits. */
  lemma {:induction false} Congruent(v: int, t: IntType) returns (k: int)
    requires t.bits > 0
    ensures Fits(NarrowCast(v, t), t) && NarrowCast(v, t) == v + k * Pow2(t.bits)
  {
    var p := Pow2(t.bits);
    assert p == 2 * Pow2(t.bits - 1);
    assert v == v / p * p + v % p;
    k := -(v / p);
    assert -(v / p) * p == -(v / p * p);
    if NarrowCast(v, t) != v % p {
      k := k - 1;
      assert (-(v / p) - 1) * p == -(v / p * p) - p;
    }
  }

  lemma {:induction false} Multiple(k: int, p: int)
    requires p > 0
    ensures k >= 1 ==> k * p >= p
    ensures k <= -1 ==> k * p <= -p
  {
    if k >= 1 { MulMono(1, k, p); } else if k <= -1 { MulMono(k, -1, p); }
  }

  lemma {:induction false} NoRoom(x: int, y: int, k: int, p: int)
    requires x == y + k * p && -p < x - y < p
    ensures x == y
  {
    Multiple(k, p);
  }

  lemma {:induction false} Pow2Mono(m: nat, n: nat)
    requires m <= n
    ensures Pow2(m) <= Pow2(n)
    decreases n - m
  {
    if m < n { Pow2Mono(m, n - 1); }
  }

  /** A cast keeps exactly the values of the type. */
  lemma {:induction false} CastKeepsIff(v: int, t: IntType)
    requires t.bits > 0
    ensures NarrowCast(v, t) == v <==> Fits(v, t)
  {
    var k := Congruent(v, t);
    if Fits(v, t) {
      assert Pow2(t.bits) == 2 * Pow2(t.bits - 1);
      NoRoom(NarrowCast(v, t), v, k, Pow2(t.bits));
    }
  }

  /** The two checks accept only an unchanged value. */
  lemma {:induction false} AcceptedIsSame(u: int, from: IntType, to: IntType)
    requires from.bits > 0 && to.bits > 0 && Fits(u, from) && Narrow(u, from, to).Some?
    ensures Narrow(u, from, to).value == u
  {
    var t := NarrowCast(u, to);
    var there := Congruent(u, to);
    var back := Congruent(t, from);
    var p, q := Pow2(to.bits), Pow2(from.bits);
    assert p == 2 * Pow2(to.bits - 1) && q == 2 * Pow2(from.bits - 1);
    if from.bits <= to.bits {
      Pow2Mono(from.bits, to.bits);
      Pow2Mono(from.bits - 1, to.bits - 1);
      NoRoom(t, u, there, p);
    } else {
      Pow2Mono(to.bits, from.bits);
      Pow2Mono(to.bits - 1, from.bits - 1);
      NoRoom(u, t, back, q);
    }
  }

  /** `narrow` returns exactly when the value fits the target type, and then returns it: for all
      widths and all four combinations of signedness. */
  lemma {:induction false} NarrowIsExact(u: int, from: IntType, to: IntType)
    requires from.bits > 0 && to.bits > 0 && Fits(u, from)
    ensures Narrow(u, from, to) == if Fits(u, to) then Some(u) else None
  {
    CastKeepsIff(u, to);
    CastKeepsIff(u, from);
    if Narrow(u, from, to).Some? { AcceptedIsSame(u, from, to); }
  }

  /** `span::CheckRange`, for an index type and a `size_t` of the given widths. */
  function CheckRange(idx: int, size: int, indexBits: nat, sizeBits: nat): bool
    requires indexBits > 0 && sizeBits > 0
  {
    if indexBits <= sizeBits then
      NarrowCast(idx, IntType(sizeBits, false)) < NarrowCast(size, IntType(sizeBits, false))
    else
      0 <= idx < size
  }

  lemma {:induction false} Unsigned(v: int, indexBits: nat, sizeBits: nat)
    requires 0 < indexBits <= sizeBits && Fits(v, IntType(indexBits, true))
    ensures NarrowCast(v, IntType(sizeBits, false)) == if v >= 0 then v else v + Pow2(sizeBits)
    ensures Pow2(indexBits - 1) <= Pow2(sizeBits) - Pow2(indexBits - 1)
  {
    var half, p := Pow2(indexBits - 1), Pow2(sizeBits);
    Pow2Mono(indexBits - 1, sizeBits - 1);
    assert p == 2 * Pow2(sizeBits - 1);
    CastKeepsIff(v, IntType(sizeBits, false));
    if v < 0 {
      var k := Congruent(v, IntType(sizeBits, false));
      assert k * p == (k - 1) * p + p;
      NoRoom(NarrowCast(v, IntType(sizeBits, false)), v + p, k - 1, p);
    }
  }

  /** The comparison is the range check for every index, exactly when the size is not negative or
      is not cast at all. */
  lemma {:induction false} CheckRangeIff(size: int, indexBits: nat, sizeBits: nat)
    requires indexBits > 0 && sizeBits > 0 && Fits(size, IntType(indexBits, true))
    ensures size >= 0 || indexBits > sizeBits <==>
            forall idx :: Fits(idx, IntType(indexBits, true)) ==>
              (CheckRange(idx, size, indexBits, sizeBits) <==> 0 <= idx < size)
  {
    if indexBits <= sizeBits {
      forall idx | Fits(idx, IntType(indexBits, true))
        ensures size >= 0 ==> (CheckRange(idx, size, indexBits, sizeBits) <==> 0 <= idx < size)
      {
        Unsigned(idx, indexBits, sizeBits);
        Unsigned(size, indexBits, sizeBits);
      }
      if size < 0 {
        Unsigned(0, indexBits, sizeBits);
        Unsigned(size, indexBits, sizeBits);
        assert Fits(0, IntType(indexBits, true)) && CheckRange(0, size, indexBits, sizeBits);
      }
    }
  }
}
