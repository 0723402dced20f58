/** What a CCDL file says, read off the file alone, and what the loader makes of it once the file
    lies in target memory: the exact effect of loading, and what lookups return. */
module Image {
  import opened Wrappers
  import opened Bytes
  import opened OsTable
  import opened Ccdl

  datatype Import = Import(name: seq<byte>, address: word)

  /** The C string at a, up to its terminator. */
  function ReadString(f: seq<byte>, a: int): Outcome<seq<byte>>
    decreases |f| - a
  {
    if !(0 <= a < |f|) then Fault
    else if f[a] == 0 then Ok([])
    else
      var rest :- ReadString(f, a + 1);
      Ok([f[a]] + rest)
  }

  /** The import or export entries i..num, of which the i-th is at p, with their names. */
  function Entries(f: seq<byte>, p: nat, strings: nat, i: nat, num: nat): Outcome<seq<Import>>
    decreases num - i
  {
    if i >= num then Ok([])
    else if p + 16 > |f| then Fault
    else
      var ent := ReadProc(f, p);
      var name :- ReadString(f, strings + ent.nameOffset);
      var rest :- Entries(f, p + 16, strings, i + 1, num);
      Ok([Import(name, ent.address)] + rest)
  }

  /** An import or export section at p: a count, the entries, the string table. */
  function EntriesAt(f: seq<byte>, p: nat): Outcome<seq<Import>> {
    if p + 16 > |f| then Fault
    else
      var n := ReadWord(f, p);
      Entries(f, p + 16, StringTable(p + 16, n), 0, n)
  }

  /** The entries of the first section of the given type; none if there is no such section. */
  function EntriesOf(f: seq<byte>, kind: word): Outcome<seq<Import>> {
    if 32 > |f| then Fault
    else
      var sec :- FindSection(f, 0, ReadHeader(f, 0).numSections, kind, 0);
      if sec == None then Ok([]) else EntriesAt(f, sec.value.offset)
  }

  /** The code to load: where it goes and its bytes. */
  datatype Code = Code(loadAddress: word, bytes: seq<byte>)

  function CodeOf(f: seq<byte>): Outcome<Option<Code>> {
    if 32 > |f| then Fault
    else
      var sec :- FindSection(f, 0, ReadHeader(f, 0).numSections, CODE, 0);
      if sec == None then Ok(None)
      else
        var s := sec.value;
        if s.size == 0 then Ok(Some(Code(s.loadAddress, [])))
        else if s.offset + s.size > |f| then Fault
        else Ok(Some(Code(s.loadAddress, f[s.offset..s.offset + s.size])))
  }

  function Exported(es: seq<Import>): (bs: seq<Binding>)
    ensures |bs| == |es|
  {
    if es == [] then [] else [Binding(es[0].name, es[0].address)] + Exported(es[1..])
  }

  // ---------------------------------------------------------------- reading the file in place

  lemma {:induction false} WordInPlace(m: seq<byte>, base: nat, f: seq<byte>, a: nat)
    requires Holds(m, base, f) && a + 4 <= |f|
    ensures ReadWord(m, base + a) == ReadWord(f, a)
  {
    assert f[a] == m[base + a] && f[a + 1] == m[base + a + 1] && f[a + 2] == m[base + a + 2] && f[a + 3] == m[base + a + 3];
  }

  lemma {:induction false} HeaderInPlace(m: seq<byte>, base: nat, f: seq<byte>)
    requires Holds(m, base, f) && 32 <= |f|
    ensures ReadHeader(m, base) == ReadHeader(f, 0)
  {
    WordInPlace(m, base, f, 4);
    WordInPlace(m, base, f, 8);
    WordInPlace(m, base, f, 12);
    HoldsSlice(m, base, f, 0, 4);
  }

  lemma {:induction false} SectionInPlace(m: seq<byte>, base: nat, f: seq<byte>, a: nat)
    requires Holds(m, base, f) && a + 32 <= |f|
    ensures ReadSection(m, base + a) == ReadSection(f, a)
  {
    WordInPlace(m, base, f, a + 4);
    WordInPlace(m, base, f, a + 8);
    WordInPlace(m, base, f, a + 12);
    WordInPlace(m, base, f, a + 20);
    WordInPlace(m, base, f, a + 24);
  }

  lemma {:induction false} ProcInPlace(m: seq<byte>, base: nat, f: seq<byte>, a: nat)
    requires Holds(m, base, f) && a + 16 <= |f|
    ensures ReadProc(m, base + a) == ReadProc(f, a)
  {
    WordInPlace(m, base, f, a);
    WordInPlace(m, base, f, a + 12);
  }

  /** A search that stays inside the file has the same result where the file lies in memory. */
  lemma {:induction false} FindSectionInPlace(m: seq<byte>, base: nat, f: seq<byte>, num: nat, kind: word, i: nat)
    requires Holds(m, base, f) && FindSection(f, 0, num, kind, i).Ok?
    ensures FindSection(m, base, num, kind, i) == FindSection(f, 0, num, kind, i)
    decreases num - i
  {
    if i < num {
      SectionInPlace(m, base, f, 32 + i * 32);
      if ReadSection(f, 32 + i * 32).kind != kind {
        FindSectionInPlace(m, base, f, num, kind, i + 1);
      }
    }
  }

  lemma {:induction false} StringInPlace(m: seq<byte>, base: nat, f: seq<byte>, a: nat)
    requires Holds(m, base, f) && ReadString(f, a).Ok?
    ensures HoldsString(m, base + a, ReadString(f, a).value)
    decreases |f| - a
  {
    assert m[base + a] == f[a];
    var s := ReadString(f, a).value;
    if f[a] == 0 {
      assert s + [0] == [0];
    } else {
      StringInPlace(m, base, f, a + 1);
      var t := ReadString(f, a + 1).value;
      HoldsConcat(m, base + a, [f[a]], t + [0]);
      assert s + [0] == [f[a]] + (t + [0]);
    }
  }

  lemma {:induction false} ReadStringIsHeld(f: seq<byte>, a: nat, s: seq<byte>)
    requires HoldsString(f, a, s)
    ensures ReadString(f, a) == Ok(s)
    decreases |s|
  {
    var z := s + [0];
    assert f[a] == f[a + 0] == z[0];
    if s != [] {
      HoldsSlice(f, a, z, 1, |z|);
      assert z[1..] == s[1..] + [0];
      ReadStringIsHeld(f, a + 1, s[1..]);
      assert s == [s[0]] + s[1..];
    }
  }

  // ---------------------------------------------------------------- effect of loading

  /** A range of n bytes at a, inside memory and outside the file. */
  predicate Outside(a: nat, n: nat, base: nat, f: seq<byte>, memory: nat) {
    a + n <= memory && (a + n <= base || base + |f| <= a)
  }

  predicate StubsOutside(imports: seq<Import>, base: nat, f: seq<byte>, memory: nat) {
    forall i :: 0 <= i < |imports| ==> Outside(imports[i].address, 8, base, f, memory)
  }

  /** The stubs written one after another, up to the first name that is not in the table. */
  function LinkAll(m: seq<byte>, imports: seq<Import>, os: seq<Binding>): (r: Loaded)
    requires forall i :: 0 <= i < |imports| ==> imports[i].address + 8 <= |m|
    ensures |r.mem| == |m|
    decreases |imports|
  {
    if imports == [] then Loaded(m, Done)
    else match Lookup(os, imports[0].name)
      case None => Loaded(m, Panicked)
      case Some(addr) => LinkAll(Write(m, imports[0].address, Stub(addr)), imports[1..], os)
  }

  predicate AllKnown(imports: seq<Import>, os: seq<Binding>) {
    forall i :: 0 <= i < |imports| ==> Lookup(os, imports[i].name).Some?
  }

  lemma {:induction false} PatchEntryInPlace(m: seq<byte>, base: nat, f: seq<byte>, os: seq<Binding>,
                                             p: nat, strings: nat, q: nat, t: nat, imp: Import)
    requires Holds(m, base, f) && NamesTerminated(os) && p + 16 <= |f| && q == base + p && t == base + strings
    requires ReadString(f, strings + ReadProc(f, p).nameOffset) == Ok(imp.name) && ReadProc(f, p).address == imp.address
    requires imp.address + 8 <= |m|
    ensures PatchEntry(m, os, q, t) == Loaded(LinkOne(m, imp, os), if Lookup(os, imp.name).Some? then Done else Panicked)
  {
    var ent := ReadProc(f, p);
    ProcInPlace(m, base, f, p);
    StringInPlace(m, base, f, strings + ent.nameOffset);
    BuiltinIsLookup(m, os, In(t + ent.nameOffset), imp.name);
  }

  /** Taking a list of entries apart. */
  lemma {:induction false} EntriesStep(f: seq<byte>, p: nat, strings: nat, i: nat, num: nat, es: seq<Import>)
      returns (imp: Import, rest: seq<Import>)
    requires i < num && Entries(f, p, strings, i, num) == Ok(es)
    ensures p + 16 <= |f| && es == [imp] + rest && es[0] == imp && es[1..] == rest
    ensures ReadString(f, strings + ReadProc(f, p).nameOffset) == Ok(imp.name) && ReadProc(f, p).address == imp.address
    ensures Entries(f, p + 16, strings, i + 1, num) == Ok(rest)
  {
    imp := es[0];
    rest := Entries(f, p + 16, strings, i + 1, num).value;
  }

  lemma {:induction false} StubsOutsideCons(imp: Import, rest: seq<Import>, base: nat, f: seq<byte>, memory: nat)
    requires StubsOutside([imp] + rest, base, f, memory)
    ensures Outside(imp.address, 8, base, f, memory) && StubsOutside(rest, base, f, memory)
  {
    var all := [imp] + rest;
    assert Outside(all[0].address, 8, base, f, memory);
    forall i | 0 <= i < |rest| ensures Outside(rest[i].address, 8, base, f, memory) {
      assert all[i + 1] == rest[i];
    }
  }

  /** The memory after one stub, if its name is known. */
  function LinkOne(m: seq<byte>, imp: Import, os: seq<Binding>): (m1: seq<byte>)
    requires imp.address + 8 <= |m|
    ensures |m1| == |m|
  {
    if Lookup(os, imp.name).Some? then Write(m, imp.address, Stub(Lookup(os, imp.name).value)) else m
  }

  /** One stub leaves the file and the room for the other stubs. */
  lemma {:induction false} LinkOneReady(m: seq<byte>, base: nat, f: seq<byte>, imp: Import, rest: seq<Import>, os: seq<Binding>)
    requires Holds(m, base, f) && StubsOutside([imp] + rest, base, f, |m|)
    ensures imp.address + 8 <= |m| && forall k :: 0 <= k < |rest| ==> rest[k].address + 8 <= |m|
    ensures StubsOutside(rest, base, f, |m|) && Holds(LinkOne(m, imp, os), base, f)
  {
    StubsOutsideCons(imp, rest, base, f, |m|);
    StubsFit(rest, base, f, |m|);
    if Lookup(os, imp.name).Some? {
      WriteElsewhere(m, imp.address, Stub(Lookup(os, imp.name).value), base, f);
    }
  }

  /** One more entry in front of both. */
  lemma {:induction false} PatchCons(m: seq<byte>, os: seq<Binding>, q: nat, t: nat, i: nat, num: nat,
                                     imp: Import, rest: seq<Import>)
    requires i < num && imp.address + 8 <= |m|
    requires forall k :: 0 <= k < |rest| ==> rest[k].address + 8 <= |m|
    requires PatchEntry(m, os, q, t) == Loaded(LinkOne(m, imp, os), if Lookup(os, imp.name).Some? then Done else Panicked)
    requires PatchImports(LinkOne(m, imp, os), os, q + 16, t, i + 1, num) == LinkAll(LinkOne(m, imp, os), rest, os)
    ensures forall k :: 0 <= k < |rest| + 1 ==> ([imp] + rest)[k].address + 8 <= |m|
    ensures PatchImports(m, os, q, t, i, num) == LinkAll(m, [imp] + rest, os)
  {
    var all := [imp] + rest;
    assert all[0] == imp && all[1..] == rest;
  }

  /** The patch loop over a file in memory links the file's entries. (p and strings are positions
      in the file, q and t the same places in memory.) */
  lemma {:induction false} PatchIsLink(m: seq<byte>, base: nat, f: seq<byte>, os: seq<Binding>,
                                       p: nat, strings: nat, q: nat, t: nat, i: nat, num: nat, es: seq<Import>)
    requires Holds(m, base, f) && NamesTerminated(os) && q == base + p && t == base + strings
    requires Entries(f, p, strings, i, num) == Ok(es) && StubsOutside(es, base, f, |m|)
    ensures PatchImports(m, os, q, t, i, num) == LinkAll(m, es, os)
    decreases num - i, 1
  {
    if i < num {
      var imp, rest := EntriesStep(f, p, strings, i, num, es);
      PatchConsIsLink(m, base, f, os, p, strings, q, t, i, num, imp, rest);
    }
  }

  lemma {:induction false} PatchConsIsLink(m: seq<byte>, base: nat, f: seq<byte>, os: seq<Binding>,
                                           p: nat, strings: nat, q: nat, t: nat, i: nat, num: nat, imp: Import, rest: seq<Import>)
    requires Holds(m, base, f) && NamesTerminated(os) && q == base + p && t == base + strings && i < num
    requires StubsOutside([imp] + rest, base, f, |m|) && p + 16 <= |f|
    requires ReadString(f, strings + ReadProc(f, p).nameOffset) == Ok(imp.name) && ReadProc(f, p).address == imp.address
    requires Entries(f, p + 16, strings, i + 1, num) == Ok(rest)
    ensures forall k :: 0 <= k < |rest| + 1 ==> ([imp] + rest)[k].address + 8 <= |m|
    ensures PatchImports(m, os, q, t, i, num) == LinkAll(m, [imp] + rest, os)
    decreases num - i, 0
  {
    LinkOneReady(m, base, f, imp, rest, os);
    PatchIsLink(LinkOne(m, imp, os), base, f, os, p + 16, strings, q + 16, t, i + 1, num, rest);
    PatchEntryInPlace(m, base, f, os, p, strings, q, t, imp);
    PatchCons(m, os, q, t, i, num, imp, rest);
  }

  /** The file lies at base; everything the loader needs can be read inside it; and what it
      writes lies outside it. */
  predicate Loadable(m: seq<byte>, base: nat, f: seq<byte>) {
    Holds(m, base, f) && 32 <= |f| && Supported(ReadHeader(f, 0)) &&
    CodeOf(f).Ok? && CodeOf(f).value.Some? &&
    Outside(CodeOf(f).value.value.loadAddress, |CodeOf(f).value.value.bytes|, base, f, |m|) &&
    EntriesOf(f, IMPORT).Ok? && StubsOutside(EntriesOf(f, IMPORT).value, base, f, |m|)
  }

  /** The memory a loadable file asks for: its code, then its stubs in entry order. */
  function Effect(m: seq<byte>, base: nat, f: seq<byte>, os: seq<Binding>): (r: Loaded)
    requires Loadable(m, base, f)
  {
    var code := CodeOf(f).value.value;
    LinkAll(Write(m, code.loadAddress, code.bytes), EntriesOf(f, IMPORT).value, os)
  }

  lemma {:induction false} CopyInPlace(m: seq<byte>, base: nat, f: seq<byte>, dst: nat, src: nat, n: nat)
    requires Holds(m, base, f) && (n > 0 ==> src + n <= |f|) && dst + n <= |m|
    ensures CopyBlock(m, dst, base + src, n) == Some(Write(m, dst, if n == 0 then [] else f[src..src + n]))
  {
    if n == 0 {
      assert Write(m, dst, []) == m;
    } else {
      HoldsSlice(m, base, f, src, src + n);
    }
  }

  lemma {:induction false} LoadCodeInPlace(m: seq<byte>, base: nat, f: seq<byte>)
    requires Holds(m, base, f) && CodeOf(f).Ok? && CodeOf(f).value.Some?
    requires CodeOf(f).value.value.loadAddress + |CodeOf(f).value.value.bytes| <= |m|
    ensures 32 <= |f|
    ensures var code := CodeOf(f).value.value;
            LoadCode(m, base, ReadHeader(f, 0).numSections) == Loaded(Write(m, code.loadAddress, code.bytes), Done)
  {
    var num := ReadHeader(f, 0).numSections;
    FindSectionInPlace(m, base, f, num, CODE, 0);
    var s := FindSection(f, 0, num, CODE, 0).value.value;
    CopyInPlace(m, base, f, s.loadAddress, s.offset, s.size);
  }

  lemma {:induction false} StringTableInPlace(base: nat, p: nat, n: word)
    ensures StringTable(base + p, n) == base + StringTable(p, n)
  {
  }

  lemma {:induction false} PatchSectionInPlace(m: seq<byte>, base: nat, f: seq<byte>, os: seq<Binding>, p: nat, q: nat)
    requires Holds(m, base, f) && NamesTerminated(os) && q == base + p
    requires EntriesAt(f, p).Ok? && StubsOutside(EntriesAt(f, p).value, base, f, |m|)
    ensures q + 16 <= |m|
    ensures var n := ReadWord(m, q);
            PatchImports(m, os, q + 16, StringTable(q + 16, n), 0, n) ==
            LinkAll(m, EntriesAt(f, p).value, os)
  {
    WordInPlace(m, base, f, p);
    var n := ReadWord(f, p);
    var start, from := p + 16, q + 16;
    StringTableInPlace(base, start, n);
    PatchIsLink(m, base, f, os, start, StringTable(start, n), from, StringTable(from, n), 0, n, EntriesAt(f, p).value);
  }

  /** The section an entry list was read from. */
  lemma {:induction false} SectionOf(f: seq<byte>, kind: word) returns (sec: Option<Section>)
    requires EntriesOf(f, kind).Ok?
    ensures |f| >= 32 && FindSection(f, 0, ReadHeader(f, 0).numSections, kind, 0) == Ok(sec)
    ensures EntriesOf(f, kind) == if sec.Some? then EntriesAt(f, sec.value.offset) else Ok([])
  {
    sec := FindSection(f, 0, ReadHeader(f, 0).numSections, kind, 0).value;
  }

  lemma {:induction false} ResolveInPlace(m: seq<byte>, base: nat, f: seq<byte>, os: seq<Binding>)
    requires Holds(m, base, f) && NamesTerminated(os)
    requires EntriesOf(f, IMPORT).Ok? && StubsOutside(EntriesOf(f, IMPORT).value, base, f, |m|)
    ensures |f| >= 32
    ensures ResolveImports(m, base, ReadHeader(f, 0).numSections, os) == LinkAll(m, EntriesOf(f, IMPORT).value, os)
  {
    var sec := SectionOf(f, IMPORT);
    FindSectionInPlace(m, base, f, ReadHeader(f, 0).numSections, IMPORT, 0);
    if sec.Some? {
      var p: nat := sec.value.offset;
      PatchSectionInPlace(m, base, f, os, p, base + p);
    }
  }

  /** Loading a loadable file has exactly the effect the file asks for. */
  lemma {:induction false} LoadIsEffect(m: seq<byte>, base: nat, f: seq<byte>, os: seq<Binding>)
    requires Loadable(m, base, f) && NamesTerminated(os)
    ensures Load(m, base, os) == Effect(m, base, f, os)
  {
    HeaderInPlace(m, base, f);
    LoadCodeInPlace(m, base, f);
    var code := CodeOf(f).value.value;
    WriteElsewhere(m, code.loadAddress, code.bytes, base, f);
    ResolveInPlace(Write(m, code.loadAddress, code.bytes), base, f, os);
  }

  /** It succeeds exactly when the OS table has every imported name. */
  lemma {:induction false} LinkSucceedsIff(m: seq<byte>, imports: seq<Import>, os: seq<Binding>)
    requires forall i :: 0 <= i < |imports| ==> imports[i].address + 8 <= |m|
    ensures LinkAll(m, imports, os).status == if AllKnown(imports, os) then Done else Panicked
    decreases |imports|
  {
    if imports != [] {
      assert imports == [imports[0]] + imports[1..];
      var found := Lookup(os, imports[0].name);
      if found.Some? {
        LinkSucceedsIff(Write(m, imports[0].address, Stub(found.value)), imports[1..], os);
      }
    }
  }

  /** The value of one cell after the stubs: the last stub that covers it, else what was there. */
  function CellAfterStubs(was: byte, x: nat, imports: seq<Import>, os: seq<Binding>): byte
    requires AllKnown(imports, os)
    decreases |imports|
  {
    if imports == [] then was
    else
      var n := |imports| - 1;
      assert AllKnown(imports[..n], os);
      var last := imports[n];
      if last.address <= x < last.address + 8
      then Stub(Lookup(os, last.name).value)[x - last.address]
      else CellAfterStubs(was, x, imports[..n], os)
  }

  lemma {:induction false} LinkConcat(m: seq<byte>, imports: seq<Import>, last: Import, os: seq<Binding>)
    requires forall i :: 0 <= i < |imports| ==> imports[i].address + 8 <= |m|
    requires last.address + 8 <= |m| && AllKnown(imports, os) && Lookup(os, last.name).Some?
    ensures LinkAll(m, imports + [last], os) ==
            Loaded(Write(LinkAll(m, imports, os).mem, last.address, Stub(Lookup(os, last.name).value)), Done)
    decreases |imports|
  {
    var all := imports + [last];
    if imports == [] {
      assert all == [last] && all[1..] == [];
      assert LinkAll(Write(m, last.address, Stub(Lookup(os, last.name).value)), [], os).status == Done;
    } else {
      assert all[0] == imports[0] && all[1..] == imports[1..] + [last];
      LinkConcat(Write(m, imports[0].address, Stub(Lookup(os, imports[0].name).value)), imports[1..], last, os);
    }
  }

  lemma {:induction false} LinkCells(m: seq<byte>, imports: seq<Import>, os: seq<Binding>, x: nat)
    requires forall i :: 0 <= i < |imports| ==> imports[i].address + 8 <= |m|
    requires AllKnown(imports, os) && x < |m|
    ensures LinkAll(m, imports, os).mem[x] == CellAfterStubs(m[x], x, imports, os)
    decreases |imports|
  {
    if imports != [] {
      var n := |imports| - 1;
      var last := imports[n];
      assert imports == imports[..n] + [last];
      LinkConcat(m, imports[..n], last, os);
      LinkCells(m, imports[..n], os, x);
      WriteHolds(LinkAll(m, imports[..n], os).mem, last.address, Stub(Lookup(os, last.name).value));
    }
  }

  /** A load is successful exactly when every imported name is known; a missing name panics. */
  lemma {:induction false} LoadSucceedsIff(m: seq<byte>, base: nat, f: seq<byte>, os: seq<Binding>)
    requires Loadable(m, base, f) && NamesTerminated(os)
    ensures Load(m, base, os).status == if AllKnown(EntriesOf(f, IMPORT).value, os) then Done else Panicked
  {
    LoadIsEffect(m, base, f, os);
    var code := CodeOf(f).value.value;
    StubsFit(EntriesOf(f, IMPORT).value, base, f, |m|);
    LinkSucceedsIff(Write(m, code.loadAddress, code.bytes), EntriesOf(f, IMPORT).value, os);
  }

  lemma {:induction false} StubsFit(imports: seq<Import>, base: nat, f: seq<byte>, memory: nat)
    requires StubsOutside(imports, base, f, memory)
    ensures forall i :: 0 <= i < |imports| ==> imports[i].address + 8 <= memory
  {
  }

  function CodeCell(code: Code, x: nat, was: byte): byte {
    if code.loadAddress <= x < code.loadAddress + |code.bytes| then code.bytes[x - code.loadAddress] else was
  }

  /** Memory after a successful load, cell by cell: the last stub covering the cell, else the
      code byte, else the old memory. */
  lemma {:induction false} LoadCells(m: seq<byte>, base: nat, f: seq<byte>, os: seq<Binding>, x: nat)
    requires Loadable(m, base, f) && NamesTerminated(os) && x < |m|
    requires Load(m, base, os).status == Done
    ensures AllKnown(EntriesOf(f, IMPORT).value, os)
    ensures Load(m, base, os).mem[x] ==
            CellAfterStubs(CodeCell(CodeOf(f).value.value, x, m[x]), x, EntriesOf(f, IMPORT).value, os)
  {
    LoadSucceedsIff(m, base, f, os);
    LoadIsEffect(m, base, f, os);
    var code := CodeOf(f).value.value;
    var imports := EntriesOf(f, IMPORT).value;
    StubsFit(imports, base, f, |m|);
    WriteHolds(m, code.loadAddress, code.bytes);
    LinkCells(Write(m, code.loadAddress, code.bytes), imports, os, x);
  }

  /** The stub of an import no later stub overlaps is in place after loading. */
  lemma {:induction false} StubInPlace(m: seq<byte>, imports: seq<Import>, os: seq<Binding>, k: nat)
    requires forall i :: 0 <= i < |imports| ==> imports[i].address + 8 <= |m|
    requires AllKnown(imports, os) && k < |imports|
    requires forall j :: k < j < |imports| ==>
               imports[j].address + 8 <= imports[k].address || imports[k].address + 8 <= imports[j].address
    ensures Holds(LinkAll(m, imports, os).mem, imports[k].address, Stub(Lookup(os, imports[k].name).value))
    decreases |imports|
  {
    var n := |imports| - 1;
    var last := imports[n];
    var stub := Stub(Lookup(os, last.name).value);
    assert imports == imports[..n] + [last];
    LinkConcat(m, imports[..n], last, os);
    var before := LinkAll(m, imports[..n], os).mem;
    WriteHolds(before, last.address, stub);
    if k < n {
      StubInPlace(m, imports[..n], os, k);
      WriteElsewhere(before, last.address, stub, imports[k].address, Stub(Lookup(os, imports[k].name).value));
    }
  }

  /** Memory no stub touches is unchanged by linking. */
  lemma {:induction false} LinkElsewhere(m: seq<byte>, imports: seq<Import>, os: seq<Binding>, a: nat, s: seq<byte>)
    requires forall i :: 0 <= i < |imports| ==>
               imports[i].address + 8 <= |m| && (imports[i].address + 8 <= a || a + |s| <= imports[i].address)
    requires Holds(m, a, s)
    ensures Holds(LinkAll(m, imports, os).mem, a, s)
    decreases |imports|
  {
    if imports != [] {
      var found := Lookup(os, imports[0].name);
      if found.Some? {
        WriteElsewhere(m, imports[0].address, Stub(found.value), a, s);
        LinkElsewhere(Write(m, imports[0].address, Stub(found.value)), imports[1..], os, a, s);
      }
    }
  }

  // ---------------------------------------------------------------- lookup after loading

  lemma {:induction false} FindExportInPlace(m: seq<byte>, base: nat, f: seq<byte>, p: nat, strings: nat,
                                             q: nat, t: nat, i: nat, num: nat, es: seq<Import>, name: seq<byte>)
    requires Holds(m, base, f) && NoNul(name) && q == base + p && t == base + strings
    requires Entries(f, p, strings, i, num) == Ok(es)
    ensures FindExport(m, q, t, i, num, name) == Ok(Lookup(Exported(es), name))
    decreases num - i
  {
    if i < num {
      var ent := ReadProc(f, p);
      ProcInPlace(m, base, f, p);
      StringInPlace(m, base, f, strings + ent.nameOffset);
      HeldStringEq(m, t + ent.nameOffset, es[0].name, name);
      FindExportInPlace(m, base, f, p + 16, strings, q + 16, t, i + 1, num, es[1..], name);
    }
  }

  lemma {:induction false} ExportSectionInPlace(m: seq<byte>, base: nat, f: seq<byte>, p: nat, q: nat, name: seq<byte>)
    requires Holds(m, base, f) && NoNul(name) && EntriesAt(f, p).Ok? && q == base + p
    ensures q + 16 <= |m|
    ensures var n := ReadWord(m, q);
            FindExport(m, q + 16, StringTable(q + 16, n), 0, n, name) == Ok(Lookup(Exported(EntriesAt(f, p).value), name))
  {
    WordInPlace(m, base, f, p);
    var n := ReadWord(f, p);
    var start, from := p + 16, q + 16;
    StringTableInPlace(base, start, n);
    FindExportInPlace(m, base, f, start, StringTable(start, n), from, StringTable(from, n), 0, n, EntriesAt(f, p).value, name);
  }

  /** `dl_get_proc` is lookup in the file's exports followed by the OS table; a name in neither
      panics. */
  lemma {:induction false} GetProcIsLookup(m: seq<byte>, base: nat, f: seq<byte>, os: seq<Binding>, name: seq<byte>)
    requires Holds(m, base, f) && NoNul(name) && NamesTerminated(os) && EntriesOf(f, EXPORT).Ok?
    ensures 32 <= |f|
    ensures var all := Exported(EntriesOf(f, EXPORT).value) + os;
            GetProc(m, base, ReadHeader(f, 0).numSections, os, name) ==
            if Lookup(all, name).Some? then Ok(Lookup(all, name).value) else Panic
  {
    var num := ReadHeader(f, 0).numSections;
    var exports := Exported(EntriesOf(f, EXPORT).value);
    LookupConcat(exports, os, name);
    BuiltinIsLookup(m, os, Lit(name), name);
    FindSectionInPlace(m, base, f, num, EXPORT, 0);
    var sec := FindSection(f, 0, num, EXPORT, 0).value;
    if sec.Some? {
      ExportSectionInPlace(m, base, f, sec.value.offset, base + sec.value.offset, name);
    }
  }
}
