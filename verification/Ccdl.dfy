/** The CCDL file format as the pointer-walking loops of `dl.c` read it: functions from memory
    and addresses to what the code obtains. Pointer sums are not wrapped: an address outside
    memory is a Fault. Sizes of the structures: file header 32 bytes, section header 32, import
    or export header 16, import or export entry 16, resource entry 508 (500 of them the name). */
module Ccdl {
  import opened Wrappers
  import opened Bytes
  import opened OsTable

  const CODE: word := 1
  const RESOURCES: word := 7
  const IMPORT: word := 8
  const EXPORT: word := 9

  const VERSION: word := 0x0001_0000
  const UNK_8: word := 0x0002_0001
  const SIGN: seq<byte> := [0x43, 0x43, 0x44, 0x4c]  // "CCDL"

  /** `ldr pc, [pc, #-4]` */
  const LDR_PC: word := 0xe51f_f004

  datatype Header = Header(sign: seq<byte>, version: word, unk8: word, numSections: word)

  function ReadHeader(m: seq<byte>, a: int): Header
    requires 0 <= a && a + 32 <= |m|
  {
    Header(m[a..a + 4], ReadWord(m, a + 4), ReadWord(m, a + 8), ReadWord(m, a + 12))
  }

  datatype Section = Section(kind: word, offset: word, size: word, entryPoint: word, loadAddress: word)

  function ReadSection(m: seq<byte>, a: int): Section
    requires 0 <= a && a + 32 <= |m|
  {
    Section(ReadWord(m, a + 4), ReadWord(m, a + 8), ReadWord(m, a + 12), ReadWord(m, a + 20), ReadWord(m, a + 24))
  }

  /** The first of `num` section headers from the i-th on that has the given type. */
  function FindSection(m: seq<byte>, base: nat, num: nat, kind: word, i: nat): Outcome<Option<Section>>
    decreases num - i
  {
    if i >= num then Ok(None)
    else if base + 32 + i * 32 + 32 > |m| then Fault
    else
      var s := ReadSection(m, base + 32 + i * 32);
      if s.kind == kind then Ok(Some(s)) else FindSection(m, base, num, kind, i + 1)
  }

  datatype Proc = Proc(nameOffset: word, address: word)

  function ReadProc(m: seq<byte>, a: int): Proc
    requires 0 <= a && a + 16 <= |m|
  {
    Proc(ReadWord(m, a), ReadWord(m, a + 12))
  }

  /** The string table follows the entries; the size of the entries is a 32-bit product. */
  function StringTable(p: nat, n: word): nat {
    p + n * 16 % 0x1_0000_0000
  }

  /** Counts that differ by a multiple of 2^28 give the same place. */
  lemma {:induction false} StringTableWraps(p: nat, n: word)
    ensures StringTable(p, n) == p + 16 * (n % 0x1000_0000)
  {
  }

  function Stub(addr: word): (s: seq<byte>)
    ensures |s| == 8
  {
    WordBytes(LDR_PC) + WordBytes(addr)
  }

  // ---------------------------------------------------------------- loading

  /** Rejected is the return value -1; Done is 0. */
  datatype Status = Done | Rejected | Panicked | Faulted

  datatype Loaded = Loaded(mem: seq<byte>, status: Status)

  /** Patch the import entry at p: look its name up and write the stub at its address. */
  function PatchEntry(m: seq<byte>, os: seq<Binding>, p: nat, strings: nat): (r: Loaded)
    ensures |r.mem| == |m| && r.status != Rejected
  {
    if p + 16 > |m| then Loaded(m, Faulted)
    else
      var ent := ReadProc(m, p);
      match BuiltinProc(m, os, In(strings + ent.nameOffset))
      case Fault => Loaded(m, Faulted)
      case Panic => Loaded(m, Panicked)
      case Ok(addr) =>
        if ent.address + 8 > |m| then Loaded(m, Faulted)
        else Loaded(Write(m, ent.address, Stub(addr)), Done)
  }

  /** Patch the import entries i..num, of which the i-th is at p, in order. */
  function PatchImports(m: seq<byte>, os: seq<Binding>, p: nat, strings: nat, i: nat, num: nat): (r: Loaded)
    ensures |r.mem| == |m| && r.status != Rejected
    decreases num - i
  {
    if i >= num then Loaded(m, Done)
    else
      var r := PatchEntry(m, os, p, strings);
      if r.status == Done then PatchImports(r.mem, os, p + 16, strings, i + 1, num) else r
  }

  /** Copy a block within memory; an empty copy touches nothing. */
  function CopyBlock(m: seq<byte>, dst: nat, src: nat, n: nat): (r: Option<seq<byte>>)
    ensures r.Some? ==> |r.value| == |m|
  {
    if n == 0 then Some(m)
    else if dst + n > |m| || src + n > |m| then None
    else Some(Write(m, dst, m[src..src + n]))
  }

  function ResolveImports(m: seq<byte>, base: nat, num: nat, os: seq<Binding>): (r: Loaded)
    ensures |r.mem| == |m| && r.status != Rejected
  {
    match FindSection(m, base, num, IMPORT, 0)
    case Ok(None) => Loaded(m, Done)
    case Ok(Some(s)) =>
      var p := base + s.offset;
      if p + 16 > |m| then Loaded(m, Faulted)
      else
        var n := ReadWord(m, p);
        PatchImports(m, os, p + 16, StringTable(p + 16, n), 0, n)
    case _ => Loaded(m, Faulted)
  }

  /** Copy the first code section to its load address. */
  function LoadCode(m: seq<byte>, base: nat, num: nat): (r: Loaded)
    ensures |r.mem| == |m| && (r.status != Done ==> r.mem == m)
  {
    match FindSection(m, base, num, CODE, 0)
    case Ok(None) => Loaded(m, Rejected)
    case Ok(Some(code)) =>
      (match CopyBlock(m, code.loadAddress, base + code.offset, code.size)
       case None => Loaded(m, Faulted)
       case Some(m1) => Loaded(m1, Done))
    case _ => Loaded(m, Faulted)
  }

  predicate Supported(hdr: Header) {
    hdr.sign == SIGN && hdr.version == VERSION && hdr.unk8 == UNK_8
  }

  /** `ccdl_from_memory` up to the call of the entry point. Rejection comes before the first
      write. */
  function Load(m: seq<byte>, base: nat, os: seq<Binding>): (r: Loaded)
    ensures |r.mem| == |m|
    ensures r.status == Rejected ==> r.mem == m
  {
    if base + 32 > |m| then Loaded(m, Faulted)
    else
      var hdr := ReadHeader(m, base);
      if !Supported(hdr) then Loaded(m, Rejected)
      else
        var r := LoadCode(m, base, hdr.numSections);
        if r.status == Done then ResolveImports(r.mem, base, hdr.numSections, os) else r
  }

  /** A file with another signature, version or second version word is rejected, whatever follows. */
  lemma {:induction false} BadHeaderRejected(m: seq<byte>, base: nat, os: seq<Binding>)
    requires base + 32 <= |m|
    requires m[base..base + 4] != [0x43, 0x43, 0x44, 0x4c] ||
             ReadWord(m, base + 4) != 0x0001_0000 || ReadWord(m, base + 8) != 0x0002_0001
    ensures Load(m, base, os) == Loaded(m, Rejected)
  {
  }

  // ---------------------------------------------------------------- exports

  /** The address of the first of the entries i..num with the given name. */
  function FindExport(m: seq<byte>, p: nat, strings: nat, i: nat, num: nat, name: seq<byte>): Outcome<Option<word>>
    decreases num - i
  {
    if i >= num then Ok(None)
    else if p + 16 > |m| then Fault
    else
      var ent := ReadProc(m, p);
      var eq :- MemStrEq(m, strings + ent.nameOffset, name);
      if eq then Ok(Some(ent.address)) else FindExport(m, p + 16, strings, i + 1, num, name)
  }

  /** `dl_get_proc`: the first export section, then the OS table. */
  function GetProc(m: seq<byte>, base: nat, num: nat, os: seq<Binding>, name: seq<byte>): Outcome<word> {
    var sec :- FindSection(m, base, num, EXPORT, 0);
    if sec == None then BuiltinProc(m, os, Lit(name))
    else
      var p := base + sec.value.offset;
      if p + 16 > |m| then Fault
      else
        var n := ReadWord(m, p);
        var found :- FindExport(m, p + 16, StringTable(p + 16, n), 0, n, name);
        if found.Some? then Ok(found.value) else BuiltinProc(m, os, Lit(name))
  }

  // ---------------------------------------------------------------- resources

  /** An opened resource: position within the file as a C `int`, and the entry's size. */
  datatype ResourceEntry = ResourceEntry(fileOffset: int, size: word)

  /** Conversion of an unsigned sum to `int` on a 32-bit target. */
  function ToInt32(x: int): int {
    var w := x % 0x1_0000_0000;
    if w < 0x8000_0000 then w else w - 0x1_0000_0000
  }

  /** It is the value of `int` that agrees in the low 32 bits. */
  lemma {:induction false} ToInt32Is(x: int)
    ensures -0x8000_0000 <= ToInt32(x) < 0x8000_0000 && (ToInt32(x) - x) % 0x1_0000_0000 == 0
  {
    assert x == x / 0x1_0000_0000 * 0x1_0000_0000 + x % 0x1_0000_0000;
  }

  function FindResource(m: seq<byte>, p: nat, i: nat, num: nat, sectionOffset: word, name: seq<byte>): Outcome<Option<ResourceEntry>>
    decreases num - i
  {
    if i >= num then Ok(None)
    else if p + 508 > |m| then Fault
    else
      var eq :- MemStrEq(m[p..p + 508], 0, name);
      if eq then Ok(Some(ReadResource(m, p, sectionOffset)))
      else FindResource(m, p + 508, i + 1, num, sectionOffset, name)
  }

  /** The resource entry at p, its offset counted from the section's. */
  function ReadResource(m: seq<byte>, p: nat, sectionOffset: word): ResourceEntry
    requires p + 508 <= |m|
  {
    ResourceEntry(ToInt32(sectionOffset + ReadWord(m, p + 504)), ReadWord(m, p + 500))
  }

  function OpenResource(m: seq<byte>, base: nat, num: nat, name: seq<byte>): Outcome<Option<ResourceEntry>> {
    var sec :- FindSection(m, base, num, RESOURCES, 0);
    if sec == None then Ok(None)
    else
      var p := base + sec.value.offset;
      if p + 4 > |m| then Fault
      else FindResource(m, p + 4, 0, ReadWord(m, p), sec.value.offset, name)
  }
}
