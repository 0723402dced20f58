/** The operating system's function table and lookup by name. */
module OsTable {
  import opened Wrappers
  import opened Bytes

  /** A named address: a row of the OS table, or an exported function. */
  datatype Binding = Binding(name: seq<byte>, addr: word)

  /** First-wins lookup in a list of bindings. */
  function Lookup(bs: seq<Binding>, name: seq<byte>): Option<word> {
    if bs == [] then None
    else if bs[0].name == name then Some(bs[0].addr)
    else Lookup(bs[1..], name)
  }

  predicate Names(bs: seq<Binding>, name: seq<byte>) {
    exists i :: 0 <= i < |bs| && bs[i].name == name
  }

  predicate NamesTerminated(bs: seq<Binding>) {
    forall i :: 0 <= i < |bs| ==> NoNul(bs[i].name)
  }

  /** Lookup finds the first binding of the name, and fails only if there is none. */
  lemma {:induction false} LookupIsFirst(bs: seq<Binding>, name: seq<byte>)
    ensures Lookup(bs, name).Some? <==> Names(bs, name)
    ensures Lookup(bs, name).Some? ==>
              exists i :: 0 <= i < |bs| && bs[i] == Binding(name, Lookup(bs, name).value) &&
                          forall j :: 0 <= j < i ==> bs[j].name != name
    decreases |bs|
  {
    if bs != [] {
      if bs[0].name == name {
        assert bs[0] == Binding(name, Lookup(bs, name).value);
      } else {
        LookupIsFirst(bs[1..], name);
        if Names(bs, name) {
          var i :| 0 <= i < |bs| && bs[i].name == name;
          assert bs[1..][i - 1].name == name;
        }
        if Lookup(bs, name).Some? {
          var i :| 0 <= i < |bs[1..]| && bs[1..][i] == Binding(name, Lookup(bs, name).value) &&
                   forall j :: 0 <= j < i ==> bs[1..][j].name != name;
          assert bs[i + 1] == bs[1..][i];
          forall j | 0 <= j < i + 1 ensures bs[j].name != name {
            if j > 0 { assert bs[j] == bs[1..][j - 1]; }
          }
        }
      }
    }
  }

  /** Looking in one list and then in another is looking in their concatenation. */
  lemma {:induction false} LookupConcat(a: seq<Binding>, b: seq<Binding>, name: seq<byte>)
    ensures Lookup(a + b, name) == if Lookup(a, name).Some? then Lookup(a, name) else Lookup(b, name)
    decreases |a|
  {
    if a == [] {
      assert a + b == b;
    } else {
      LookupConcat(a[1..], b, name);
      assert (a + b)[1..] == a[1..] + b;
    }
  }

  /** `ccos_get_builtin_proc`: the first row whose name compares equal; panics if there is none. */
  function BuiltinProc(m: seq<byte>, os: seq<Binding>, name: CString): Outcome<word>
    decreases |os|
  {
    if os == [] then Panic else
      var eq :- StrEq(m, name, os[0].name);
      if eq then Ok(os[0].addr) else BuiltinProc(m, os[1..], name)
  }

  method CcosGetBuiltinProc(mem: array<byte>, os: seq<Binding>, name: CString) returns (r: Outcome<word>)
    ensures r == BuiltinProc(mem[..], os, name)
  {
    var i := 0;
    assert os[0..] == os;
    while i < |os|
      invariant 0 <= i <= |os|
      invariant BuiltinProc(mem[..], os, name) == BuiltinProc(mem[..], os[i..], name)
    {
      var eq := Strcmp(mem, name, os[i].name);
      assert os[i..][1..] == os[i + 1..];
      if !eq.Ok? { return eq.PropagateFailure<word>(); }
      if eq.value { return Ok(os[i].addr); }
      i := i + 1;
    }
    return Panic;
  }

  /** The CString stands for the string s. */
  predicate Denotes(m: seq<byte>, c: CString, s: seq<byte>) {
    match c
    case In(a) => HoldsString(m, a, s)
    case Lit(chars) => chars == s
  }

  /** On a terminated name the search is lookup, and a missing name panics. */
  lemma {:induction false} BuiltinIsLookup(m: seq<byte>, os: seq<Binding>, c: CString, s: seq<byte>)
    requires NamesTerminated(os) && Denotes(m, c, s)
    ensures BuiltinProc(m, os, c) == if Lookup(os, s).Some? then Ok(Lookup(os, s).value) else Panic
    decreases |os|
  {
    if os != [] {
      if c.In? { HeldStringEq(m, c.addr, s, os[0].name); }
      BuiltinIsLookup(m, os[1..], c, s);
    }
  }
}
