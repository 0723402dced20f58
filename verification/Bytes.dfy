/** Byte memory: little-endian words, C strings, block writes, and what it means for memory to
    hold given bytes at an address. */
module Bytes {

  type byte = x: int | 0 <= x < 256
  type word = x: int | 0 <= x < 0x1_0000_0000

  /** Results of code that runs on memory it does not own. Fault stands for an access outside
      memory, Panic for `ccos_panic`; neither returns to the caller. */
  datatype Outcome<+T> = Ok(value: T) | Panic | Fault {
    predicate IsFailure() { !Ok? }

    function PropagateFailure<U>(): Outcome<U>
      requires !Ok?
    {
      if Panic? then Panic else Fault
    }

    function Extract(): T
      requires Ok?
    {
      value
    }
  }

  /** Memory m holds the bytes s at address a. */
  predicate Holds(m: seq<byte>, a: int, s: seq<byte>) {
    0 <= a && a + |s| <= |m| && forall i :: 0 <= i < |s| ==> m[a + i] == s[i]
  }

  lemma {:induction false} HoldsIsSlice(m: seq<byte>, a: int, s: seq<byte>)
    ensures Holds(m, a, s) <==> 0 <= a && a + |s| <= |m| && m[a..a + |s|] == s
  {
    if 0 <= a && a + |s| <= |m| && m[a..a + |s|] == s {
      forall i | 0 <= i < |s| ensures m[a + i] == s[i] { assert m[a..a + |s|][i] == s[i]; }
    }
  }

  lemma {:induction false} HoldsConcat(m: seq<byte>, a: int, s: seq<byte>, t: seq<byte>)
    ensures Holds(m, a, s + t) <==> Holds(m, a, s) && Holds(m, a + |s|, t)
  {
    var u := s + t;
    if Holds(m, a, u) {
      forall i | 0 <= i < |s| ensures m[a + i] == s[i] { assert u[i] == s[i]; }
      forall i | 0 <= i < |t| ensures m[a + |s| + i] == t[i] { assert u[|s| + i] == t[i]; }
    }
    if Holds(m, a, s) && Holds(m, a + |s|, t) {
      forall i | 0 <= i < |u| ensures m[a + i] == u[i] {
        if i >= |s| { assert u[i] == t[i - |s|]; }
      }
    }
  }

  lemma {:induction false} HoldsSlice(m: seq<byte>, a: int, s: seq<byte>, i: nat, j: nat)
    requires Holds(m, a, s) && i <= j <= |s|
    ensures Holds(m, a + i, s[i..j])
    ensures m[a + i..a + j] == s[i..j]
  {
    forall k | 0 <= k < j - i ensures m[a + i + k] == s[i..j][k] { assert s[i..j][k] == s[i + k]; }
    HoldsIsSlice(m, a + i, s[i..j]);
  }

  /** `*(uint32_t*)`: a little-endian word. */
  function ReadWord(m: seq<byte>, a: int): word
    requires 0 <= a && a + 4 <= |m|
  {
    (m[a] as int) + 0x100 * (m[a + 1] as int) + 0x1_0000 * (m[a + 2] as int) + 0x100_0000 * (m[a + 3] as int)
  }

  /** Byte i of a word, least significant first. */
  function ByteOf(w: word, i: nat): byte
    requires i < 4
  {
    if i == 0 then w % 0x100
    else if i == 1 then w / 0x100 % 0x100
    else if i == 2 then w / 0x1_0000 % 0x100
    else w / 0x100_0000
  }

  function WordBytes(w: word): (s: seq<byte>)
    ensures |s| == 4
  {
    seq(4, i requires 0 <= i < 4 => ByteOf(w, i))
  }

  lemma {:induction false} HeldWord(m: seq<byte>, a: int, w: word)
    ensures Holds(m, a, WordBytes(w)) <==> 0 <= a && a + 4 <= |m| && ReadWord(m, a) == w
  {
    if 0 <= a && a + 4 <= |m| {
      var s := WordBytes(w);
      BytesOfWord(w, m[a], m[a + 1], m[a + 2], m[a + 3]);
      assert Holds(m, a, s) <==> m[a + 0] == s[0] && m[a + 1] == s[1] && m[a + 2] == s[2] && m[a + 3] == s[3];
    }
  }

  lemma {:induction false} BytesOfWord(w: word, b0: byte, b1: byte, b2: byte, b3: byte)
    ensures (b0 as int) + 0x100 * (b1 as int) + 0x1_0000 * (b2 as int) + 0x100_0000 * (b3 as int) == w <==>
            b0 == ByteOf(w, 0) && b1 == ByteOf(w, 1) && b2 == ByteOf(w, 2) && b3 == ByteOf(w, 3)
  {
    var low := w % 0x1_0000;
    var high := w / 0x1_0000;
    assert w == high * 0x1_0000 + low;
    assert w / 0x100 % 0x100 == low / 0x100 && w % 0x100 == low % 0x100;
    assert w / 0x1_0000 % 0x100 == high % 0x100 && w / 0x100_0000 == high / 0x100;
    TwoBytes(low, b0, b1);
    TwoBytes(high, b2, b3);
  }

  lemma {:induction false} TwoBytes(h: int, low: byte, high: byte)
    requires 0 <= h < 0x1_0000
    ensures (low as int) + 0x100 * (high as int) == h <==> low == h % 0x100 && high == h / 0x100
  {
  }

  /** `memcpy` into memory; the caller has checked the range. */
  function Write(m: seq<byte>, a: int, s: seq<byte>): (r: seq<byte>)
    requires 0 <= a && a + |s| <= |m|
    ensures |r| == |m|
  {
    seq(|m|, i requires 0 <= i < |m| => if a <= i < a + |s| then s[i - a] else m[i])
  }

  lemma {:induction false} WriteHolds(m: seq<byte>, a: int, s: seq<byte>)
    requires 0 <= a && a + |s| <= |m|
    ensures Holds(Write(m, a, s), a, s)
  {
  }

  /** A write leaves what lies outside it. */
  lemma {:induction false} WriteElsewhere(m: seq<byte>, a: int, s: seq<byte>, b: int, t: seq<byte>)
    requires 0 <= a && a + |s| <= |m|
    requires a + |s| <= b || b + |t| <= a
    ensures Holds(Write(m, a, s), b, t) <==> Holds(m, b, t)
  {
    if 0 <= b && b + |t| <= |m| {
      assert forall i :: 0 <= i < |t| ==> (Write(m, a, s)[b + i] == t[i] <==> m[b + i] == t[i]);
    }
  }

  // ---------------------------------------------------------------- C strings

  predicate NoNul(s: seq<byte>) { forall i :: 0 <= i < |s| ==> s[i] != 0 }

  /** Memory holds the C string s at a. */
  predicate HoldsString(m: seq<byte>, a: int, s: seq<byte>) {
    NoNul(s) && Holds(m, a, s + [0])
  }

  /** A `char const*`: into memory, or the value of a constant or caller's string. */
  datatype CString = In(addr: int) | Lit(chars: seq<byte>)

  /** `strcmp(memory at a, t) == 0`: reads no further than the first difference. */
  function MemStrEq(m: seq<byte>, a: int, t: seq<byte>): Outcome<bool>
    decreases |t|
  {
    if !(0 <= a < |m|) then Fault
    else if t == [] then Ok(m[a] == 0)
    else if m[a] != t[0] then Ok(false)
    else MemStrEq(m, a + 1, t[1..])
  }

  function StrEq(m: seq<byte>, s: CString, t: seq<byte>): Outcome<bool> {
    match s
    case In(a) => MemStrEq(m, a, t)
    case Lit(chars) => Ok(chars == t)
  }

  /** On a terminated string the comparison is equality of the strings. */
  lemma {:induction false} HeldStringEq(m: seq<byte>, a: int, s: seq<byte>, t: seq<byte>)
    requires HoldsString(m, a, s) && NoNul(t)
    ensures MemStrEq(m, a, t) == Ok(s == t)
    decreases |t|
  {
    var z := s + [0];
    assert m[a] == m[a + 0] == z[0];
    if t != [] && s != [] && s[0] == t[0] {
      HoldsSlice(m, a, z, 1, |z|);
      assert z[1..] == s[1..] + [0];
      HeldStringEq(m, a + 1, s[1..], t[1..]);
      assert s == [s[0]] + s[1..] && t == [t[0]] + t[1..];
    }
  }

  method Strcmp(mem: array<byte>, s: CString, t: seq<byte>) returns (r: Outcome<bool>)
    ensures r == StrEq(mem[..], s, t)
  {
    match s {
      case Lit(chars) => return Ok(chars == t);
      case In(a) =>
        var i := 0;
        while i < |t|
          invariant 0 <= i <= |t|
          invariant MemStrEq(mem[..], a, t) == MemStrEq(mem[..], a + i, t[i..])
        {
          if !(0 <= a + i < mem.Length) { return Fault; }
          if mem[a + i] != t[i] { return Ok(false); }
          assert t[i..][1..] == t[i + 1..];
          i := i + 1;
        }
        if !(0 <= a + i < mem.Length) { return Fault; }
        return Ok(mem[a + i] == 0);
    }
  }
}
