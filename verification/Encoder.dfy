/** A writer of CCDL files: for any list of sections, in any order and with any repetitions, one
    file with those contents. */
module Encoder {
  import opened Bytes
  import opened Ccdl
  import opened Image
  import opened Layout

  predicate WellFormed(c: Content) {
    match c
    case CodeSection(_, _, _) => true
    case ImportSection(es) => forall i :: 0 <= i < |es| ==> NoNul(es[i].name)
    case ExportSection(es) => forall i :: 0 <= i < |es| ==> NoNul(es[i].name)
    case ResourceSection(fs) => forall i :: 0 <= i < |fs| ==> NoNul(fs[i].name) && |fs[i].name| < 500
    case OtherSection(kind, _) => kind !in {1, 7, 8, 9}
  }

  /** A number as a 32-bit word. */
  function W(x: nat): (s: seq<byte>)
    ensures |s| == 4
  {
    WordBytes(x % 0x1_0000_0000)
  }

  function ZeroBytes(n: nat): (s: seq<byte>)
    ensures |s| == n
  {
    seq(n, _ => 0)
  }

  // ---------------------------------------------------------------- writing

  /** Entries of an import or export section; `off` is the next name's place in the pool. */
  function EntryTable(es: seq<Import>, off: nat): (s: seq<byte>)
    ensures |s| == 16 * |es|
  {
    if es == [] then [] else
      (W(off) + ZeroBytes(8) + W(es[0].address)) + EntryTable(es[1..], off + |es[0].name| + 1)
  }

  function StringPool(es: seq<Import>): seq<byte> {
    if es == [] then [] else (es[0].name + [0]) + StringPool(es[1..])
  }

  function ProcsBody(es: seq<Import>): seq<byte> {
    (W(|es|) + ZeroBytes(12)) + (EntryTable(es, 0) + StringPool(es))
  }

  /** A resource entry: the name in a field of 500 bytes, the size, and the place. */
  function FileEntry(file: File, off: nat): seq<byte> {
    file.name + ZeroBytes(if |file.name| < 500 then 500 - |file.name| else 0) + W(|file.data|) + W(off)
  }

  /** Resource entries; `off` is the next file's place in the section. */
  function FileTable(fs: seq<File>, off: nat): seq<byte> {
    if fs == [] then [] else FileEntry(fs[0], off) + FileTable(fs[1..], off + |fs[0].data|)
  }

  function FileData(fs: seq<File>): seq<byte> {
    if fs == [] then [] else fs[0].data + FileData(fs[1..])
  }

  function FilesBody(fs: seq<File>): seq<byte> {
    W(|fs|) + (FileTable(fs, 4 + 508 * |fs|) + FileData(fs))
  }

  function Body(c: Content): seq<byte> {
    match c
    case CodeSection(_, _, bytes) => bytes
    case ImportSection(es) => ProcsBody(es)
    case ExportSection(es) => ProcsBody(es)
    case ResourceSection(fs) => FilesBody(fs)
    case OtherSection(_, bytes) => bytes
  }

  /** A section ready to be laid out. */
  datatype Raw = Raw(kind: word, entryPoint: word, loadAddress: word, body: seq<byte>)

  function RawOf(c: Content): Raw {
    Raw(Kind(c), if c.CodeSection? then c.entryPoint else 0, if c.CodeSection? then c.loadAddress else 0, Body(c))
  }

  function RawsOf(cs: seq<Content>): (rs: seq<Raw>)
    ensures |rs| == |cs|
  {
    if cs == [] then [] else [RawOf(cs[0])] + RawsOf(cs[1..])
  }

  function SectionBytes(r: Raw, off: nat): (s: seq<byte>)
    ensures |s| == 32
  {
    (ZeroBytes(4) + W(r.kind) + W(off) + W(|r.body|))
    + (ZeroBytes(4) + W(r.entryPoint) + W(r.loadAddress) + ZeroBytes(4))
  }

  function SectionTable(rs: seq<Raw>, off: nat): (s: seq<byte>)
    ensures |s| == 32 * |rs|
  {
    if rs == [] then [] else SectionBytes(rs[0], off) + SectionTable(rs[1..], off + |rs[0].body|)
  }

  function Bodies(rs: seq<Raw>): seq<byte> {
    if rs == [] then [] else rs[0].body + Bodies(rs[1..])
  }

  function HeaderBytes(n: nat): (s: seq<byte>)
    ensures |s| == 32
  {
    SIGN + W(VERSION) + W(UNK_8) + W(n) + ZeroBytes(16)
  }

  function Encode(cs: seq<Content>): seq<byte> {
    EncodeRaw(RawsOf(cs))
  }

  function EncodeRaw(rs: seq<Raw>): seq<byte> {
    HeaderBytes(|rs|) + (SectionTable(rs, 32 + 32 * |rs|) + Bodies(rs))
  }

  /** A list of sections a 32-bit file can hold. */
  predicate Encodable(cs: seq<Content>) {
    |Encode(cs)| < 0x1_0000_0000 && forall i :: 0 <= i < |cs| ==> WellFormed(cs[i])
  }

  // ---------------------------------------------------------------- the written file has the contents

  /** A word found where it was written. */
  lemma {:induction false} HeldW(f: seq<byte>, a: nat, x: nat)
    requires Holds(f, a, W(x)) && x < 0x1_0000_0000
    ensures a + 4 <= |f| && ReadWord(f, a) == x
  {
    HeldWord(f, a, x);
  }

  lemma {:induction false} EntryHeld(f: seq<byte>, q: nat, off: nat, address: word)
    requires Holds(f, q, W(off) + ZeroBytes(8) + W(address)) && off < 0x1_0000_0000
    ensures q + 16 <= |f| && ReadWord(f, q) == off && ReadWord(f, q + 12) == address
  {
    HoldsConcat(f, q, W(off) + ZeroBytes(8), W(address));
    HoldsConcat(f, q, W(off), ZeroBytes(8));
    HeldW(f, q, off);
    HeldW(f, q + 12, address);
  }

  lemma {:induction false} EntryWritten(f: seq<byte>, q: nat, strings: nat, off: nat, es: seq<Import>, k: nat)
    requires Holds(f, q, EntryTable(es, off)) && Holds(f, strings + off, StringPool(es))
    requires |f| < 0x1_0000_0000 && k < |es| && NoNul(es[k].name)
    ensures LaysEntry(f, q + 16 * k, strings, es[k])
    decreases k
  {
    var e, rest := es[0], es[1..];
    HoldsConcat(f, q, W(off) + ZeroBytes(8) + W(e.address), EntryTable(rest, off + |e.name| + 1));
    HoldsConcat(f, strings + off, e.name + [0], StringPool(rest));
    if k == 0 {
      EntryHeld(f, q, off, e.address);
    } else {
      EntryWritten(f, q + 16, strings, off + |e.name| + 1, rest, k - 1);
    }
  }

  lemma {:induction false} ProcsWritten(f: seq<byte>, p: nat, es: seq<Import>)
    requires Holds(f, p, ProcsBody(es)) && |f| < 0x1_0000_0000
    requires forall k :: 0 <= k < |es| ==> NoNul(es[k].name)
    ensures LaysEntries(f, p, es)
  {
    HoldsConcat(f, p, W(|es|) + ZeroBytes(12), EntryTable(es, 0) + StringPool(es));
    HoldsConcat(f, p, W(|es|), ZeroBytes(12));
    HoldsConcat(f, p + 16, EntryTable(es, 0), StringPool(es));
    HeldW(f, p, |es|);
    forall k | 0 <= k < |es| ensures LaysEntry(f, p + 16 + 16 * k, p + 16 + 16 * |es|, es[k]) {
      EntryWritten(f, p + 16, p + 16 + 16 * |es|, 0, es, k);
    }
  }

  lemma {:induction false} FileEntryHeld(f: seq<byte>, q: nat, file: File, off: nat)
    requires NoNul(file.name) && |file.name| < 500 && off < 0x1_0000_0000 && |file.data| < 0x1_0000_0000
    requires Holds(f, q, FileEntry(file, off))
    ensures q + 508 <= |f| && HoldsString(f, q, file.name)
    ensures ReadWord(f, q + 500) == |file.data| && ReadWord(f, q + 504) == off
  {
    var name := file.name;
    var pad := ZeroBytes(500 - |name|);
    HoldsConcat(f, q, name + pad + W(|file.data|), W(off));
    HoldsConcat(f, q, name + pad, W(|file.data|));
    HeldW(f, q + 500, |file.data|);
    HeldW(f, q + 504, off);
    forall k | 0 <= k < |name| + 1 ensures f[q + k] == (name + [0])[k] {
      assert f[q + k] == (name + pad)[k];
    }
  }

  lemma {:induction false} FileWritten(f: seq<byte>, q: nat, p: nat, off: nat, fs: seq<File>, k: nat)
    requires Holds(f, q, FileTable(fs, off)) && Holds(f, p + off, FileData(fs))
    requires |f| < 0x1_0000_0000 && k < |fs|
    requires forall j :: 0 <= j < |fs| ==> NoNul(fs[j].name) && |fs[j].name| < 500
    ensures LaysFile(f, q + 508 * k, p, fs[k])
    decreases k
  {
    var e, next := fs[0], off + |fs[0].data|;
    HoldsConcat(f, q, FileEntry(e, off), FileTable(fs[1..], next));
    HoldsConcat(f, p + off, e.data, FileData(fs[1..]));
    if k == 0 {
      FileEntryHeld(f, q, e, off);
    } else {
      FileWritten(f, q + 508, p, next, fs[1..], k - 1);
    }
  }

  lemma {:induction false} FileTableLength(fs: seq<File>, off: nat)
    requires forall k :: 0 <= k < |fs| ==> |fs[k].name| < 500
    ensures |FileTable(fs, off)| == 508 * |fs|
    decreases |fs|
  {
    if fs != [] { FileTableLength(fs[1..], off + |fs[0].data|); }
  }

  lemma {:induction false} FilesWritten(f: seq<byte>, p: nat, fs: seq<File>)
    requires Holds(f, p, FilesBody(fs)) && |f| < 0x1_0000_0000
    requires forall k :: 0 <= k < |fs| ==> NoNul(fs[k].name) && |fs[k].name| < 500
    ensures LaysFiles(f, p, fs)
  {
    var start := 4 + 508 * |fs|;
    FileTableLength(fs, start);
    HoldsConcat(f, p, W(|fs|), FileTable(fs, start) + FileData(fs));
    HoldsConcat(f, p + 4, FileTable(fs, start), FileData(fs));
    HeldW(f, p, |fs|);
    forall k | 0 <= k < |fs| ensures LaysFile(f, p + 4 + 508 * k, p, fs[k]) {
      FileWritten(f, p + 4, p, start, fs, k);
    }
  }

  lemma {:induction false} FourHeld(f: seq<byte>, a: nat, s1: seq<byte>, s2: seq<byte>, s3: seq<byte>, s4: seq<byte>)
    requires |s1| == |s2| == |s3| == 4 && Holds(f, a, s1 + s2 + s3 + s4)
    ensures Holds(f, a, s1) && Holds(f, a + 4, s2) && Holds(f, a + 8, s3) && Holds(f, a + 12, s4)
  {
    HoldsConcat(f, a, s1 + s2 + s3, s4);
    HoldsConcat(f, a, s1 + s2, s3);
    HoldsConcat(f, a, s1, s2);
  }

  lemma {:induction false} SectionHeld(f: seq<byte>, a: nat, r: Raw, off: nat)
    requires Holds(f, a, SectionBytes(r, off)) && off < 0x1_0000_0000 && |r.body| < 0x1_0000_0000
    ensures a + 32 <= |f| && ReadWord(f, a + 4) == r.kind && ReadWord(f, a + 8) == off && ReadWord(f, a + 12) == |r.body|
    ensures ReadWord(f, a + 20) == r.entryPoint && ReadWord(f, a + 24) == r.loadAddress
  {
    HoldsConcat(f, a, ZeroBytes(4) + W(r.kind) + W(off) + W(|r.body|),
                ZeroBytes(4) + W(r.entryPoint) + W(r.loadAddress) + ZeroBytes(4));
    FourHeld(f, a, ZeroBytes(4), W(r.kind), W(off), W(|r.body|));
    FourHeld(f, a + 16, ZeroBytes(4), W(r.entryPoint), W(r.loadAddress), ZeroBytes(4));
    HeldW(f, a + 4, r.kind);
    HeldW(f, a + 8, off);
    HeldW(f, a + 12, |r.body|);
    HeldW(f, a + 20, r.entryPoint);
    HeldW(f, a + 24, r.loadAddress);
  }

  /** The section header at a describes r, with r's body at its place. */
  predicate Describes(f: seq<byte>, a: nat, r: Raw) {
    a + 32 <= |f| && ReadWord(f, a + 4) == r.kind && ReadWord(f, a + 12) == |r.body| &&
    ReadWord(f, a + 20) == r.entryPoint && ReadWord(f, a + 24) == r.loadAddress && Holds(f, ReadWord(f, a + 8), r.body)
  }

  lemma {:induction false} SectionWritten(f: seq<byte>, rs: seq<Raw>, a: nat, off: nat, i: nat)
    requires Holds(f, a, SectionTable(rs, off)) && Holds(f, off, Bodies(rs))
    requires |f| < 0x1_0000_0000 && i < |rs|
    ensures Describes(f, a + 32 * i, rs[i])
    decreases i
  {
    var r, rest := rs[0], off + |rs[0].body|;
    HoldsConcat(f, a, SectionBytes(r, off), SectionTable(rs[1..], rest));
    HoldsConcat(f, off, r.body, Bodies(rs[1..]));
    if i == 0 {
      SectionHeld(f, a, r, off);
    } else {
      SectionWritten(f, rs[1..], a + 32, rest, i - 1);
    }
  }

  lemma {:induction false} HeaderHeld(f: seq<byte>, n: nat)
    requires Holds(f, 0, HeaderBytes(n)) && n < 0x1_0000_0000
    ensures |f| >= 32 && f[..4] == SIGN && ReadWord(f, 4) == VERSION && ReadWord(f, 8) == UNK_8 && ReadWord(f, 12) == n
  {
    var s1 := SIGN + W(VERSION);
    var s2 := s1 + W(UNK_8);
    var s3 := s2 + W(n);
    HoldsConcat(f, 0, s3, ZeroBytes(16));
    HoldsConcat(f, 0, s2, W(n));
    HoldsConcat(f, 0, s1, W(UNK_8));
    HoldsConcat(f, 0, SIGN, W(VERSION));
    HeldW(f, 4, VERSION);
    HeldW(f, 8, UNK_8);
    HeldW(f, 12, n);
    HoldsIsSlice(f, 0, SIGN);
  }

  lemma {:induction false} RawAt(cs: seq<Content>, i: nat)
    requires i < |cs|
    ensures RawsOf(cs)[i] == RawOf(cs[i])
  {
    if i > 0 { RawAt(cs[1..], i - 1); }
  }

  /** A described section with the body written for c is c's. */
  lemma {:induction false} BodyWritten(f: seq<byte>, a: nat, c: Content)
    requires Describes(f, a, RawOf(c)) && WellFormed(c) && |f| < 0x1_0000_0000
    ensures LaysSection(f, a, c)
  {
    var offset := ReadWord(f, a + 8);
    match c {
      case CodeSection(_, _, _) =>
      case ImportSection(es) => ProcsWritten(f, offset, es);
      case ExportSection(es) => ProcsWritten(f, offset, es);
      case ResourceSection(fs) => FilesWritten(f, offset, fs);
      case OtherSection(_, _) =>
    }
  }

  lemma {:induction false} RawHeld(rs: seq<Raw>)
    ensures Holds(EncodeRaw(rs), 0, HeaderBytes(|rs|))
    ensures Holds(EncodeRaw(rs), 32, SectionTable(rs, 32 + 32 * |rs|))
    ensures Holds(EncodeRaw(rs), 32 + 32 * |rs|, Bodies(rs))
  {
    var f := EncodeRaw(rs);
    var table, bodies := SectionTable(rs, 32 + 32 * |rs|), Bodies(rs);
    assert Holds(f, 0, f);
    HoldsConcat(f, 0, HeaderBytes(|rs|), table + bodies);
    HoldsConcat(f, 32, table, bodies);
  }

  lemma {:induction false} RawWritten(f: seq<byte>, rs: seq<Raw>, off: nat)
    requires |f| < 0x1_0000_0000 && Holds(f, 32, SectionTable(rs, off)) && Holds(f, off, Bodies(rs))
    ensures 32 + 32 * |rs| <= |f|
    ensures forall i :: 0 <= i < |rs| ==> Describes(f, 32 + 32 * i, rs[i])
  {
    forall i | 0 <= i < |rs| ensures Describes(f, 32 + 32 * i, rs[i]) {
      SectionWritten(f, rs, 32, off, i);
    }
  }

  /** The file written for cs has the contents cs. */
  lemma {:induction false} EncodeLays(cs: seq<Content>)
    requires Encodable(cs)
    ensures Lays(Encode(cs), cs)
  {
    var f := Encode(cs);
    var rs := RawsOf(cs);
    RawHeld(rs);
    HeaderHeld(f, |rs|);
    RawWritten(f, rs, 32 + 32 * |rs|);
    WrittenLays(f, cs, rs);
  }

  lemma {:induction false} WrittenLays(f: seq<byte>, cs: seq<Content>, rs: seq<Raw>)
    requires rs == RawsOf(cs) && forall i :: 0 <= i < |cs| ==> WellFormed(cs[i])
    requires 32 + 32 * |rs| <= |f| < 0x1_0000_0000
    requires f[..4] == SIGN && ReadWord(f, 4) == VERSION && ReadWord(f, 8) == UNK_8 && ReadWord(f, 12) == |rs|
    requires forall i :: 0 <= i < |rs| ==> Describes(f, 32 + 32 * i, rs[i])
    ensures Lays(f, cs)
  {
    forall i | 0 <= i < |cs| ensures LaysSection(f, 32 + 32 * i, cs[i]) {
      RawAt(cs, i);
      BodyWritten(f, 32 + 32 * i, cs[i]);
    }
  }
}
