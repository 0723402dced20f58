/** When a file is laid out as given contents: the words the format fixes have their values, and
    every body, name and file lies where some offset says. Everything the format leaves open is
    arbitrary: the tags and unused words, the order and overlap of bodies, where names are kept. Any
    such file is read back by the loader's loops. */
module Layout {
  import opened Wrappers
  import opened Bytes
  import opened OsTable
  import opened Ccdl
  import opened Image
  import opened ImageResources

  datatype File = File(name: seq<byte>, data: seq<byte>)

  datatype Content =
    | CodeSection(entryPoint: word, loadAddress: word, bytes: seq<byte>)
    | ImportSection(entries: seq<Import>)
    | ExportSection(entries: seq<Import>)
    | ResourceSection(files: seq<File>)
    | OtherSection(kind: word, bytes: seq<byte>)

  function Kind(c: Content): word {
    match c
    case CodeSection(_, _, _) => 1
    case ImportSection(_) => 8
    case ExportSection(_) => 9
    case ResourceSection(_) => 7
    case OtherSection(kind, _) => kind
  }

  /** The entry at q of a section whose names start at `strings`. */
  predicate LaysEntry(f: seq<byte>, q: nat, strings: nat, e: Import) {
    q + 16 <= |f| && ReadWord(f, q + 12) == e.address && HoldsString(f, strings + ReadWord(f, q), e.name)
  }

  /** An import or export section at p: a count, the entries, and from there on the names. */
  predicate LaysEntries(f: seq<byte>, p: nat, es: seq<Import>) {
    p + 16 + 16 * |es| <= |f| && ReadWord(f, p) == |es| &&
    forall k :: 0 <= k < |es| ==> LaysEntry(f, p + 16 + 16 * k, p + 16 + 16 * |es|, es[k])
  }

  /** The resource entry at q of a section at p: a terminated name in a field of 500 bytes, the
      size, and the data's place counted from p. */
  predicate LaysFile(f: seq<byte>, q: nat, p: nat, file: File) {
    q + 508 <= |f| && |file.name| < 500 && HoldsString(f, q, file.name) &&
    ReadWord(f, q + 500) == |file.data| && Holds(f, p + ReadWord(f, q + 504), file.data)
  }

  predicate LaysFiles(f: seq<byte>, p: nat, fs: seq<File>) {
    p + 4 <= |f| && ReadWord(f, p) == |fs| &&
    forall k :: 0 <= k < |fs| ==> LaysFile(f, p + 4 + 508 * k, p, fs[k])
  }

  /** A section header for c at a, and c's body where it says. */
  predicate LaysSection(f: seq<byte>, a: nat, c: Content) {
    a + 32 <= |f| && ReadWord(f, a + 4) == Kind(c) &&
    var offset := ReadWord(f, a + 8);
    match c
    case CodeSection(entryPoint, loadAddress, bytes) =>
      ReadWord(f, a + 12) == |bytes| && ReadWord(f, a + 20) == entryPoint && ReadWord(f, a + 24) == loadAddress &&
      (bytes == [] || Holds(f, offset, bytes))
    case ImportSection(es) => LaysEntries(f, offset, es)
    case ExportSection(es) => LaysEntries(f, offset, es)
    case ResourceSection(fs) => LaysFiles(f, offset, fs)
    case OtherSection(kind, _) => kind !in {1, 7, 8, 9}
  }

  /** f is a file with the contents cs. */
  predicate Lays(f: seq<byte>, cs: seq<Content>) {
    32 + 32 * |cs| <= |f| < 0x1_0000_0000 &&
    f[..4] == [0x43, 0x43, 0x44, 0x4c] && ReadWord(f, 4) == 0x0001_0000 && ReadWord(f, 8) == 0x0002_0001 &&
    ReadWord(f, 12) == |cs| &&
    forall i :: 0 <= i < |cs| ==> LaysSection(f, 32 + 32 * i, cs[i])
  }

  // ---------------------------------------------------------------- reading back

  /** The first section of a kind. */
  function First(cs: seq<Content>, kind: word): Option<Content> {
    if cs == [] then None else if Kind(cs[0]) == kind then Some(cs[0]) else First(cs[1..], kind)
  }

  /** The section scan finds the first section of a kind. */
  lemma {:induction false} ScanLaid(f: seq<byte>, cs: seq<Content>, kind: word, i: nat) returns (a: nat)
    requires Lays(f, cs) && i <= |cs|
    ensures match First(cs[i..], kind)
            case None => FindSection(f, 0, |cs|, kind, i) == Ok(None)
            case Some(c) =>
              LaysSection(f, a, c) && Kind(c) == kind && FindSection(f, 0, |cs|, kind, i) == Ok(Some(ReadSection(f, a)))
    decreases |cs| - i
  {
    a := 32 + 32 * i;
    if i < |cs| {
      assert cs[i..][1..] == cs[i + 1..];
      assert LaysSection(f, a, cs[i]);
      if Kind(cs[i]) != kind { a := ScanLaid(f, cs, kind, i + 1); }
    }
  }

  /** The header is accepted, and the scan from the start finds the first section of a kind: its
      header, at a, is the section's. */
  lemma {:induction false} FirstLaid(f: seq<byte>, cs: seq<Content>, kind: word) returns (a: nat)
    requires Lays(f, cs)
    ensures Supported(ReadHeader(f, 0)) && ReadHeader(f, 0).numSections == |cs|
    ensures First(cs, kind) == None ==> FindSection(f, 0, |cs|, kind, 0) == Ok(None)
    ensures First(cs, kind).Some? ==>
              LaysSection(f, a, First(cs, kind).value) && Kind(First(cs, kind).value) == kind &&
              FindSection(f, 0, |cs|, kind, 0) == Ok(Some(ReadSection(f, a)))
  {
    a := ScanLaid(f, cs, kind, 0);
    assert cs[0..] == cs && f[0..4] == f[..4];
  }

  /** The code is read back: the first code section, with its load address and entry point. */
  lemma {:induction false} CodeRoundTrip(f: seq<byte>, cs: seq<Content>)
    requires Lays(f, cs)
    ensures First(cs, CODE) == None ==> CodeOf(f) == Ok(None)
    ensures First(cs, CODE).Some? ==>
              var c := First(cs, CODE).value;
              c.CodeSection? && CodeOf(f) == Ok(Some(Code(c.loadAddress, c.bytes))) &&
              FindSection(f, 0, |cs|, CODE, 0).Ok? && FindSection(f, 0, |cs|, CODE, 0).value.Some? &&
              FindSection(f, 0, |cs|, CODE, 0).value.value.entryPoint == c.entryPoint
  {
    var a := FirstLaid(f, cs, CODE);
    if First(cs, CODE).Some? {
      HoldsIsSlice(f, ReadWord(f, a + 8), First(cs, CODE).value.bytes);
    }
  }

  /** A file without a code section is rejected, and memory is as it was. */
  lemma {:induction false} NoCodeRejected(m: seq<byte>, base: nat, f: seq<byte>, cs: seq<Content>, os: seq<Binding>)
    requires Lays(f, cs) && Holds(m, base, f) && forall i :: 0 <= i < |cs| ==> !cs[i].CodeSection?
    ensures Load(m, base, os) == Loaded(m, Rejected)
  {
    forall i | 0 <= i < |cs| ensures Kind(cs[i]) != CODE { assert LaysSection(f, 32 + 32 * i, cs[i]); }
    NoKind(cs, CODE);
    var a := FirstLaid(f, cs, CODE);
    HeaderInPlace(m, base, f);
    FindSectionInPlace(m, base, f, |cs|, CODE, 0);
  }

  lemma {:induction false} NoKind(cs: seq<Content>, kind: word)
    requires forall i :: 0 <= i < |cs| ==> Kind(cs[i]) != kind
    ensures First(cs, kind) == None
    decreases |cs|
  {
    if cs != [] { NoKind(cs[1..], kind); }
  }

  lemma {:induction false} EntriesCons(f: seq<byte>, q: nat, strings: nat, off: nat, i: nat, num: nat, e: Import, rest: seq<Import>)
    requires i < num && q + 16 <= |f| && off < 0x1_0000_0000 && ReadProc(f, q) == Proc(off, e.address)
    requires ReadString(f, strings + off) == Ok(e.name) && Entries(f, q + 16, strings, i + 1, num) == Ok(rest)
    ensures Entries(f, q, strings, i, num) == Ok([e] + rest)
  {
  }

  lemma {:induction false} EntriesLaid(f: seq<byte>, start: nat, q: nat, strings: nat, i: nat, es: seq<Import>)
    requires forall k :: 0 <= k < |es| ==> LaysEntry(f, start + 16 * k, strings, es[k])
    requires q == start + 16 * i && i <= |es|
    ensures Entries(f, q, strings, i, |es|) == Ok(es[i..])
    decreases |es| - i
  {
    if i < |es| {
      assert LaysEntry(f, start + 16 * i, strings, es[i]);
      ReadStringIsHeld(f, strings + ReadWord(f, q), es[i].name);
      EntriesLaid(f, start, q + 16, strings, i + 1, es);
      EntriesCons(f, q, strings, ReadWord(f, q), i, |es|, es[i], es[i + 1..]);
      assert es[i..] == [es[i]] + es[i + 1..];
    }
  }

  lemma {:induction false} SectionEntriesLaid(f: seq<byte>, p: nat, es: seq<Import>)
    requires LaysEntries(f, p, es) && |f| < 0x1_0000_0000
    ensures EntriesAt(f, p) == Ok(es)
  {
    EntriesLaid(f, p + 16, p + 16, p + 16 + 16 * |es|, 0, es);
    assert es[0..] == es && StringTable(p + 16, |es|) == p + 16 + 16 * |es|;
  }

  /** Imports and exports are read back: names and addresses, in order, of the first section. */
  lemma {:induction false} EntriesRoundTrip(f: seq<byte>, cs: seq<Content>, kind: word)
    requires Lays(f, cs) && kind in {IMPORT, EXPORT}
    ensures First(cs, kind) == None ==> EntriesOf(f, kind) == Ok([])
    ensures First(cs, kind).Some? ==>
              var c := First(cs, kind).value;
              (c.ImportSection? || c.ExportSection?) && EntriesOf(f, kind) == Ok(c.entries)
  {
    var a := FirstLaid(f, cs, kind);
    if First(cs, kind).Some? {
      SectionEntriesLaid(f, ReadWord(f, a + 8), First(cs, kind).value.entries);
    }
  }

  lemma {:induction false} FilesCons(f: seq<byte>, q: nat, i: nat, num: nat, sectionOffset: word, r: Named, rest: seq<Named>)
    requires i < num && q + 508 <= |f| && ReadString(f[q..q + 508], 0) == Ok(r.name)
    requires ReadResource(f, q, sectionOffset) == r.entry && Files(f, q + 508, i + 1, num, sectionOffset) == Ok(rest)
    ensures Files(f, q, i, num, sectionOffset) == Ok([r] + rest)
  {
  }

  /** The list has, for every file, its name, its size and a place that holds its data; the names
      are C strings. */
  predicate Recovers(f: seq<byte>, rs: seq<Named>, fs: seq<File>) {
    |rs| == |fs| &&
    forall k :: 0 <= k < |fs| ==>
      rs[k].name == fs[k].name && NoNul(fs[k].name) && rs[k].entry.size == |fs[k].data| &&
      Holds(f, rs[k].entry.fileOffset, fs[k].data)
  }

  /** The name as the entry's local copy has it, and the entry's place as a file offset. */
  lemma {:induction false} FileLaid(f: seq<byte>, q: nat, p: word, file: File)
    requires LaysFile(f, q, p, file) && |f| < 0x8000_0000
    ensures ReadString(f[q..q + 508], 0) == Ok(file.name)
    ensures var ent := ReadResource(f, q, p);
            ent.size == |file.data| && Holds(f, ent.fileOffset, file.data)
  {
    var ent := f[q..q + 508];
    assert HoldsString(ent, 0, file.name) by {
      forall k | 0 <= k < |file.name| + 1 ensures ent[0 + k] == (file.name + [0])[k] {
        assert ent[k] == f[q + k];
      }
    }
    ReadStringIsHeld(ent, 0, file.name);
    assert ToInt32(p + ReadWord(f, q + 504)) == p + ReadWord(f, q + 504);
  }

  lemma {:induction false} RecoversCons(f: seq<byte>, r: Named, rs: seq<Named>, file: File, fs: seq<File>)
    requires Recovers(f, rs, fs) && r.name == file.name && NoNul(file.name)
    requires r.entry.size == |file.data| && Holds(f, r.entry.fileOffset, file.data)
    ensures Recovers(f, [r] + rs, [file] + fs)
  {
    forall k | 0 <= k < |fs| + 1
      ensures ([r] + rs)[k].name == ([file] + fs)[k].name && NoNul(([file] + fs)[k].name) &&
              ([r] + rs)[k].entry.size == |([file] + fs)[k].data| &&
              Holds(f, ([r] + rs)[k].entry.fileOffset, ([file] + fs)[k].data)
    {
      if k > 0 { assert rs[k - 1].name == fs[k - 1].name; }
    }
  }

  lemma {:induction false} FilesLaid(f: seq<byte>, start: nat, q: nat, p: word, i: nat, fs: seq<File>)
    requires forall k :: 0 <= k < |fs| ==> LaysFile(f, start + 508 * k, p, fs[k])
    requires q == start + 508 * i && i <= |fs| && |f| < 0x8000_0000
    ensures Files(f, q, i, |fs|, p).Ok? && Recovers(f, Files(f, q, i, |fs|, p).value, fs[i..])
    decreases |fs| - i
  {
    if i < |fs| {
      assert LaysFile(f, start + 508 * i, p, fs[i]);
      FileLaid(f, q, p, fs[i]);
      FilesLaid(f, start, q + 508, p, i + 1, fs);
      var r := Named(fs[i].name, ReadResource(f, q, p));
      var rest := Files(f, q + 508, i + 1, |fs|, p).value;
      FilesCons(f, q, i, |fs|, p, r, rest);
      RecoversCons(f, r, rest, fs[i], fs[i + 1..]);
      assert fs[i..] == [fs[i]] + fs[i + 1..];
    }
  }

  /** Resources are read back: for each file of the first resource section, its name, its size,
      and a place in the file that holds its data. */
  lemma {:induction false} ResourcesRoundTrip(f: seq<byte>, cs: seq<Content>)
    requires Lays(f, cs) && |f| < 0x8000_0000
    ensures First(cs, RESOURCES) == None ==> ResourcesOf(f) == Ok([])
    ensures First(cs, RESOURCES).Some? ==>
              First(cs, RESOURCES).value.ResourceSection? && ResourcesOf(f).Ok? &&
              Recovers(f, ResourcesOf(f).value, First(cs, RESOURCES).value.files)
  {
    var a := FirstLaid(f, cs, RESOURCES);
    if First(cs, RESOURCES).Some? {
      var fs := First(cs, RESOURCES).value.files;
      var offset := ReadWord(f, a + 8);
      FilesLaid(f, offset + 4, offset + 4, offset, 0, fs);
      assert fs[0..] == fs;
    }
  }
}
