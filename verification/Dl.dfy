/** The entry points of `dl.c` on target memory, each proved against its function in Ccdl. */
module Dl {
  import opened Wrappers
  import opened Bytes
  import opened OsTable
  import opened Ccdl

  /** `DL_t` */
  class Library {
    var fileBytes: nat
    var fileSize: nat
    var hdr: Header

    constructor () {
      fileBytes, fileSize, hdr := 0, 0, Header([], 0, 0, 0);
    }
  }

  method Store(mem: array<byte>, a: nat, s: seq<byte>)
    requires a + |s| <= mem.Length
    modifies mem
    ensures mem[..] == Write(old(mem[..]), a, s)
  {
    for i := 0 to |s|
      invariant forall k :: 0 <= k < mem.Length ==> mem[k] == if a <= k < a + i then s[k - a] else old(mem[k])
    {
      mem[a + i] := s[i];
    }
    ghost var want := Write(old(mem[..]), a, s);
    forall k | 0 <= k < mem.Length ensures mem[..][k] == want[k] {}
  }

  /** `memcpy` within memory; false for a fault. */
  method Copy(mem: array<byte>, dst: nat, src: nat, n: nat) returns (ok: bool)
    modifies mem
    ensures ok == CopyBlock(old(mem[..]), dst, src, n).Some?
    ensures mem[..] == if ok then CopyBlock(old(mem[..]), dst, src, n).value else old(mem[..])
  {
    if n > 0 {
      if dst + n > mem.Length || src + n > mem.Length { return false; }
      assert mem[..][src..src + n] == mem[src..src + n];
      Store(mem, dst, mem[src..src + n]);
    }
    return true;
  }

  /** The section-header loop every entry point starts with. */
  method FirstSection(mem: array<byte>, base: nat, num: nat, kind: word) returns (r: Outcome<Option<Section>>)
    ensures r == FindSection(mem[..], base, num, kind, 0)
  {
    for i := 0 to num
      invariant FindSection(mem[..], base, num, kind, 0) == FindSection(mem[..], base, num, kind, i)
    {
      if base + 32 + i * 32 + 32 > mem.Length { return Fault; }
      var shdr := ReadSection(mem[..], base + 32 + i * 32);
      if shdr.kind == kind { return Ok(Some(shdr)); }
    }
    return Ok(None);
  }

  method PatchNext(mem: array<byte>, os: seq<Binding>, p: nat, strings: nat) returns (status: Status)
    modifies mem
    ensures Loaded(mem[..], status) == PatchEntry(old(mem[..]), os, p, strings)
  {
    if p + 16 > mem.Length { return Faulted; }
    var ent := ReadProc(mem[..], p);
    var proc := CcosGetBuiltinProc(mem, os, In(strings + ent.nameOffset));
    match proc {
      case Fault => return Faulted;
      case Panic => return Panicked;
      case Ok(addr) =>
        if ent.address + 8 > mem.Length { return Faulted; }
        Store(mem, ent.address, Stub(addr));
        return Done;
    }
  }

  method PatchLoop(mem: array<byte>, os: seq<Binding>, start: nat, strings: nat, num: nat) returns (status: Status)
    modifies mem
    ensures Loaded(mem[..], status) == PatchImports(old(mem[..]), os, start, strings, 0, num)
  {
    var p: nat := start;
    for i := 0 to num
      invariant PatchImports(old(mem[..]), os, start, strings, 0, num) == PatchImports(mem[..], os, p, strings, i, num)
    {
      status := PatchNext(mem, os, p, strings);
      if status != Done { return; }
      p := p + 16;
    }
    return Done;
  }

  method CopyCode(mem: array<byte>, file: nat, num: nat) returns (status: Status)
    modifies mem
    ensures Loaded(mem[..], status) == LoadCode(old(mem[..]), file, num)
  {
    var found := FirstSection(mem, file, num, CODE);
    if !found.Ok? { return Faulted; }
    if found.value == None { return Rejected; }
    var code := found.value.value;
    var ok := Copy(mem, code.loadAddress, file + code.offset, code.size);
    return if ok then Done else Faulted;
  }

  /** `ccdl_from_memory`. The call of the entry point, which runs arbitrary guest code, is not
      modelled: `mem` is the memory at that call. */
  method CcdlFromMemory(mem: array<byte>, os: seq<Binding>, dl: Library, file: nat, size: nat) returns (status: Status)
    modifies mem, dl
    ensures Loaded(mem[..], status) == Load(old(mem[..]), file, os)
    ensures status == Done ==>
              file + 32 <= mem.Length && dl.fileBytes == file && dl.fileSize == size &&
              dl.hdr == ReadHeader(old(mem[..]), file)
    ensures status != Done ==> unchanged(dl)
    ensures status == Rejected ==> mem[..] == old(mem[..])
  {
    if file + 32 > mem.Length { return Faulted; }
    var hdr := ReadHeader(mem[..], file);
    if hdr.sign != SIGN { return Rejected; }
    if hdr.version != VERSION || hdr.unk8 != UNK_8 { return Rejected; }

    status := CopyCode(mem, file, hdr.numSections);
    if status != Done { return; }
    status := ResolveLoop(mem, os, file, hdr.numSections);
    if status == Done {
      dl.fileBytes := file;
      dl.fileSize := size;
      dl.hdr := hdr;
    }
  }

  method ResolveLoop(mem: array<byte>, os: seq<Binding>, file: nat, num: nat) returns (status: Status)
    modifies mem
    ensures Loaded(mem[..], status) == ResolveImports(old(mem[..]), file, num, os)
  {
    var found := FirstSection(mem, file, num, IMPORT);
    if !found.Ok? { return Faulted; }
    if found.value == None { return Done; }
    var p := file + found.value.value.offset;
    if p + 16 > mem.Length { return Faulted; }
    var n := ReadWord(mem[..], p);
    status := PatchLoop(mem, os, p + 16, StringTable(p + 16, n), n);
  }

  method ExportLoop(mem: array<byte>, start: nat, strings: nat, num: nat, name: seq<byte>) returns (r: Outcome<Option<word>>)
    ensures r == FindExport(mem[..], start, strings, 0, num, name)
  {
    var p: nat := start;
    for i := 0 to num
      invariant FindExport(mem[..], start, strings, 0, num, name) == FindExport(mem[..], p, strings, i, num, name)
    {
      if p + 16 > mem.Length { return Fault; }
      var ent := ReadProc(mem[..], p);
      p := p + 16;
      var eq := Strcmp(mem, In(strings + ent.nameOffset), name);
      if !eq.Ok? { return eq.PropagateFailure<Option<word>>(); }
      if eq.value { return Ok(Some(ent.address)); }
    }
    return Ok(None);
  }

  method DlGetProc(mem: array<byte>, os: seq<Binding>, dl: Library, name: seq<byte>) returns (r: Outcome<word>)
    ensures r == GetProc(mem[..], dl.fileBytes, dl.hdr.numSections, os, name)
  {
    var found := FirstSection(mem, dl.fileBytes, dl.hdr.numSections, EXPORT);
    if !found.Ok? { return found.PropagateFailure<word>(); }
    if found.value.Some? {
      var p := dl.fileBytes + found.value.value.offset;
      if p + 16 > mem.Length { return Fault; }
      var n := ReadWord(mem[..], p);
      p := p + 16;
      var proc := ExportLoop(mem, p, StringTable(p, n), n, name);
      if !proc.Ok? { return proc.PropagateFailure<word>(); }
      if proc.value.Some? { return Ok(proc.value.value); }
    }
    r := CcosGetBuiltinProc(mem, os, Lit(name));
  }

  /** `DL_res_t`: a cursor into the file of its library. */
  class Resource {
    const dl: Library
    const startFileOffset: int
    const size: word
    var currentFileOffset: int

    constructor (dl: Library, ent: ResourceEntry)
      ensures this.dl == dl && startFileOffset == ent.fileOffset == currentFileOffset && size == ent.size
    {
      this.dl := dl;
      startFileOffset := ent.fileOffset;
      currentFileOffset := ent.fileOffset;
      size := ent.size;
    }
  }

  method ResourceLoop(mem: array<byte>, start: nat, count: nat, offset: word, name: seq<byte>)
      returns (r: Outcome<Option<ResourceEntry>>)
    ensures r == FindResource(mem[..], start, 0, count, offset, name)
  {
    var p: nat := start;
    for i := 0 to count
      invariant FindResource(mem[..], start, 0, count, offset, name) == FindResource(mem[..], p, i, count, offset, name)
    {
      if p + 508 > mem.Length { return Fault; }
      assert mem[..][p..p + 508] == mem[p..p + 508];
      var eq := StrcmpLocal(mem[p..p + 508], name);
      if !eq.Ok? { return eq.PropagateFailure<Option<ResourceEntry>>(); }
      if eq.value {
        return Ok(Some(ReadResource(mem[..], p, offset)));
      }
      p := p + 508;
    }
    return Ok(None);
  }

  /** `dl_res_open`: a fresh cursor at the entry, or null. */
  method DlResOpen(mem: array<byte>, dl: Library, name: seq<byte>) returns (found: Outcome<Option<ResourceEntry>>, res: Resource?)
    ensures found == OpenResource(mem[..], dl.fileBytes, dl.hdr.numSections, name)
    ensures res != null <==> found.Ok? && found.value.Some?
    ensures res != null ==>
              fresh(res) && res.dl == dl && res.size == found.value.value.size &&
              res.startFileOffset == res.currentFileOffset == found.value.value.fileOffset
  {
    res := null;
    var sec := FirstSection(mem, dl.fileBytes, dl.hdr.numSections, RESOURCES);
    if !sec.Ok? { return sec.PropagateFailure<Option<ResourceEntry>>(), null; }
    if sec.value == None { return Ok(None), null; }
    var offset := sec.value.value.offset;
    var p := dl.fileBytes + offset;
    if p + 4 > mem.Length { return Fault, null; }
    found := ResourceLoop(mem, p + 4, ReadWord(mem[..], p), offset, name);
    if found.Ok? && found.value.Some? {
      res := new Resource(dl, found.value.value);
    }
  }

  /** Comparison against the entry's local copy. */
  method StrcmpLocal(ent: seq<byte>, t: seq<byte>) returns (r: Outcome<bool>)
    ensures r == MemStrEq(ent, 0, t)
  {
    var i := 0;
    while i < |t|
      invariant 0 <= i <= |t|
      invariant MemStrEq(ent, 0, t) == MemStrEq(ent, i, t[i..])
    {
      if i >= |ent| { return Fault; }
      if ent[i] != t[i] { return Ok(false); }
      assert t[i..][1..] == t[i + 1..];
      i := i + 1;
    }
    if i >= |ent| { return Fault; }
    return Ok(ent[i] == 0);
  }
}
