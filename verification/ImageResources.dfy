/** The resource table of a CCDL file, and opening and reading a resource of a file that lies in
    memory. */
module ImageResources {
  import opened Wrappers
  import opened Bytes
  import opened Ccdl
  import opened Image
  import opened Resources

  datatype Named = Named(name: seq<byte>, entry: ResourceEntry)

  /** The resource entries i..num, of which the i-th is at p. */
  function Files(f: seq<byte>, p: nat, i: nat, num: nat, sectionOffset: word): Outcome<seq<Named>>
    decreases num - i
  {
    if i >= num then Ok([])
    else if p + 508 > |f| then Fault
    else
      var name :- ReadString(f[p..p + 508], 0);
      var rest :- Files(f, p + 508, i + 1, num, sectionOffset);
      Ok([Named(name, ReadResource(f, p, sectionOffset))] + rest)
  }

  function FilesAt(f: seq<byte>, offset: word): Outcome<seq<Named>> {
    if offset + 4 > |f| then Fault else Files(f, offset + 4, 0, ReadWord(f, offset), offset)
  }

  /** The resources of the first resource section. */
  function ResourcesOf(f: seq<byte>): Outcome<seq<Named>> {
    if 32 > |f| then Fault
    else
      var sec :- FindSection(f, 0, ReadHeader(f, 0).numSections, RESOURCES, 0);
      if sec == None then Ok([]) else FilesAt(f, sec.value.offset)
  }

  /** First-wins lookup of a resource. */
  function FirstNamed(rs: seq<Named>, name: seq<byte>): Option<ResourceEntry> {
    if rs == [] then None
    else if rs[0].name == name then Some(rs[0].entry)
    else FirstNamed(rs[1..], name)
  }

  lemma {:induction false} EntryInPlace(m: seq<byte>, base: nat, f: seq<byte>, p: nat, q: nat, sectionOffset: word)
    requires Holds(m, base, f) && p + 508 <= |f| && q == base + p
    ensures q + 508 <= |m| && m[q..q + 508] == f[p..p + 508]
    ensures ReadResource(m, q, sectionOffset) == ReadResource(f, p, sectionOffset)
  {
    HoldsSlice(m, base, f, p, p + 508);
    WordInPlace(m, base, f, p + 500);
    WordInPlace(m, base, f, p + 504);
  }

  lemma {:induction false} NameEq(ent: seq<byte>, name: seq<byte>)
    requires NoNul(name) && ReadString(ent, 0).Ok?
    ensures MemStrEq(ent, 0, name) == Ok(ReadString(ent, 0).value == name)
  {
    assert Holds(ent, 0, ent);
    StringInPlace(ent, 0, ent, 0);
    HeldStringEq(ent, 0, ReadString(ent, 0).value, name);
  }

  lemma {:induction false} FindResourceInPlace(m: seq<byte>, base: nat, f: seq<byte>, p: nat, q: nat, i: nat, num: nat,
                                               sectionOffset: word, rs: seq<Named>, name: seq<byte>)
    requires Holds(m, base, f) && NoNul(name) && q == base + p
    requires Files(f, p, i, num, sectionOffset) == Ok(rs)
    ensures FindResource(m, q, i, num, sectionOffset, name) == Ok(FirstNamed(rs, name))
    decreases num - i
  {
    if i < num {
      EntryInPlace(m, base, f, p, q, sectionOffset);
      NameEq(f[p..p + 508], name);
      FindResourceInPlace(m, base, f, p + 508, q + 508, i + 1, num, sectionOffset, rs[1..], name);
    }
  }

  /** `dl_res_open` is first-wins lookup in the file's resource table. */
  lemma {:induction false} OpenIsLookup(m: seq<byte>, base: nat, f: seq<byte>, name: seq<byte>)
    requires Holds(m, base, f) && NoNul(name) && ResourcesOf(f).Ok?
    ensures |f| >= 32
    ensures OpenResource(m, base, ReadHeader(f, 0).numSections, name) == Ok(FirstNamed(ResourcesOf(f).value, name))
  {
    var num := ReadHeader(f, 0).numSections;
    FindSectionInPlace(m, base, f, num, RESOURCES, 0);
    var sec := FindSection(f, 0, num, RESOURCES, 0).value;
    if sec.Some? {
      var offset := sec.value.offset;
      var p: nat := offset;
      WordInPlace(m, base, f, p);
      FindResourceInPlace(m, base, f, p + 4, base + p + 4, 0, ReadWord(f, p), offset,
                          FilesAt(f, offset).value, name);
    }
  }

  predicate Inside(ent: ResourceEntry, f: seq<byte>) { 0 <= ent.fileOffset && ent.fileOffset + ent.size <= |f| }

  /** The file's bytes of a resource, as stored. */
  function DataOf(ent: ResourceEntry, f: seq<byte>): seq<byte>
    requires Inside(ent, f)
  {
    f[ent.fileOffset..ent.fileOffset + ent.size]
  }

  /** Opening a resource by name and reading it in any pieces delivers its bytes of the file,
      descrambled, exactly when every piece is read with single-byte elements. */
  lemma {:induction false} OpenAndRead(m: seq<byte>, base: nat, f: seq<byte>, name: seq<byte>, calls: seq<Call>)
    requires Holds(m, base, f) && NoNul(name) && ResourcesOf(f).Ok? && FirstNamed(ResourcesOf(f).value, name).Some?
    requires Inside(FirstNamed(ResourcesOf(f).value, name).value, f)
    requires TotalBytes(PiecesOf(calls)) == FirstNamed(ResourcesOf(f).value, name).value.size
    requires Clear(PiecesOf(calls), |m|, base, base + |f|)
    requires |f| < 0x8000_0000 && base + |f| < 0x1_0000_0000
    ensures |f| >= 32
    ensures var ent := FirstNamed(ResourcesOf(f).value, name).value;
            var r := Reads(m, base, ent.fileOffset, calls);
            OpenResource(m, base, ReadHeader(f, 0).numSections, name) == Ok(Some(ent)) &&
            r.Ok? && r.value.1 == ent.fileOffset + ent.size &&
            (r.value.0 == ToggleAll(DataOf(ent, f)) <==> forall i :: 0 <= i < |calls| ==> Whole(calls[i]))
  {
    OpenIsLookup(m, base, f, name);
    var ent := FirstNamed(ResourcesOf(f).value, name).value;
    ReadInPlace(m, base, f, ent.fileOffset, ent.size, calls);
  }

  lemma {:induction false} ReadInPlace(m: seq<byte>, base: nat, f: seq<byte>, offset: nat, size: nat, calls: seq<Call>)
    requires Holds(m, base, f) && offset + size <= |f| && TotalBytes(PiecesOf(calls)) == size && Clear(PiecesOf(calls), |m|, base, base + |f|)
    requires |f| < 0x8000_0000 && base + |f| < 0x1_0000_0000
    ensures var r := Reads(m, base, offset, calls);
            r.Ok? && r.value.1 == offset + size &&
            (r.value.0 == ToggleAll(f[offset..offset + size]) <==> forall i :: 0 <= i < |calls| ==> Whole(calls[i]))
  {
    var raw := f[offset..offset + size];
    HoldsSlice(m, base, f, offset, offset + size);
    var ps := PiecesOf(calls);
    forall i | 0 <= i < |ps|
      ensures ps[i].Avoids(|m|, base + offset, base + offset + |raw|)
    {
      assert ps[i].Avoids(|m|, base, base + |f|);
    }
    ChunkingIndependent(m, base, offset, calls, raw);
  }
}
