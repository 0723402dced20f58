/** The whole path: a file is loaded, and a call of an imported name goes through the stub, the OS
    function, the software interrupt and the hook to the handler generated for that name, and back
    to the caller. First for every file the loader can load, then for files given by their contents. */
module EndToEnd {
  import opened Wrappers
  import opened Bytes
  import opened OsTable
  import opened Ccdl
  import opened Image
  import opened ImageResources
  import opened Resources
  import opened Layout
  import Encoder
  import Arm
  import Thunks

  // ---------------------------------------------------------------- after loading

  /** The bytes at a are outside everything loading the file writes. */
  predicate Untouched(a: nat, n: nat, f: seq<byte>)
    requires CodeOf(f).Ok? && CodeOf(f).value.Some? && EntriesOf(f, IMPORT).Ok?
  {
    var code, imports := CodeOf(f).value.value, EntriesOf(f, IMPORT).value;
    (a + n <= code.loadAddress || code.loadAddress + |code.bytes| <= a) &&
    forall i :: 0 <= i < |imports| ==> imports[i].address + 8 <= a || a + n <= imports[i].address
  }

  /** What loading does not write survives it. */
  lemma {:induction false} UntouchedHolds(m: seq<byte>, base: nat, f: seq<byte>, os: seq<Binding>, a: nat, s: seq<byte>)
    requires Loadable(m, base, f) && NamesTerminated(os)
    requires Holds(m, a, s) && Untouched(a, |s|, f)
    ensures Holds(Load(m, base, os).mem, a, s)
  {
    var code, imports := CodeOf(f).value.value, EntriesOf(f, IMPORT).value;
    LoadIsEffect(m, base, f, os);
    StubsFit(imports, base, f, |m|);
    WriteElsewhere(m, code.loadAddress, code.bytes, a, s);
    LinkElsewhere(Write(m, code.loadAddress, code.bytes), imports, os, a, s);
  }

  /** The file is still there after loading. */
  lemma {:induction false} FileSurvives(m: seq<byte>, base: nat, f: seq<byte>, os: seq<Binding>)
    requires Loadable(m, base, f) && NamesTerminated(os)
    ensures Holds(Load(m, base, os).mem, base, f)
  {
    var imports := EntriesOf(f, IMPORT).value;
    forall i | 0 <= i < |imports|
      ensures imports[i].address + 8 <= base || base + |f| <= imports[i].address
    {
      assert Outside(imports[i].address, 8, base, f, |m|);
    }
    UntouchedHolds(m, base, f, os, base, f);
  }

  /** After loading, `dl_get_proc` is lookup in the file's exports followed by the OS table. */
  lemma {:induction false} GetProcAfterLoad(m: seq<byte>, base: nat, f: seq<byte>, os: seq<Binding>, name: seq<byte>)
    requires Loadable(m, base, f) && NamesTerminated(os) && NoNul(name) && EntriesOf(f, EXPORT).Ok?
    ensures var found := Lookup(Exported(EntriesOf(f, EXPORT).value) + os, name);
            GetProc(Load(m, base, os).mem, base, ReadHeader(f, 0).numSections, os, name) ==
            if found.Some? then Ok(found.value) else Panic
  {
    FileSurvives(m, base, f, os);
    GetProcIsLookup(Load(m, base, os).mem, base, f, os, name);
  }

  /** After loading, opening a resource by name and reading it in any pieces delivers its bytes of
      the file, descrambled, exactly when every piece has single-byte elements. */
  lemma {:induction false} ReadAfterLoad(m: seq<byte>, base: nat, f: seq<byte>, os: seq<Binding>, name: seq<byte>, ent: ResourceEntry, calls: seq<Call>)
    requires Loadable(m, base, f) && NamesTerminated(os) && NoNul(name) && ResourcesOf(f).Ok?
    requires FirstNamed(ResourcesOf(f).value, name) == Some(ent) && ImageResources.Inside(ent, f)
    requires TotalBytes(PiecesOf(calls)) == ent.size && Clear(PiecesOf(calls), |m|, base, base + |f|)
    requires |f| < 0x8000_0000 && base + |f| < 0x1_0000_0000
    ensures var m1 := Load(m, base, os).mem;
            var r := Reads(m1, base, ent.fileOffset, calls);
            OpenResource(m1, base, ReadHeader(f, 0).numSections, name) == Ok(Some(ent)) &&
            r.Ok? && r.value.1 == ent.fileOffset + ent.size &&
            (r.value.0 == ToggleAll(DataOf(ent, f)) <==> forall i :: 0 <= i < |calls| ==> Whole(calls[i]))
  {
    FileSurvives(m, base, f, os);
    OpenAndRead(Load(m, base, os).mem, base, f, name, calls);
  }

  // ---------------------------------------------------------------- calling through a stub

  /** The machine words of a trapping thunk. */
  function Assemble(num: nat): (s: seq<byte>)
    requires num < 0x100_0000
    ensures |s| == 8
  {
    WordBytes(Arm.SvcWord(num)) + WordBytes(Arm.BX_LR)
  }

  /** Where the linker put each C name. */
  type Symbols = map<seq<byte>, word>

  predicate Resolved(rows: seq<Thunks.Row>, symbols: Symbols) {
    forall i :: 0 <= i < |rows| ==> Thunks.CName(rows[i]) in symbols
  }

  /** The generated OS table as the loader sees it: names and addresses. */
  function OsTableOf(rows: seq<Thunks.Row>, symbols: Symbols): (os: seq<Binding>)
    requires Resolved(rows, symbols)
    ensures |os| == |rows|
  {
    var table := Thunks.TableOf(rows);
    seq(|table|, i requires 0 <= i < |table| =>
      assert Thunks.CName(rows[i]) in symbols;
      Binding(table[i].name, symbols[table[i].cName]))
  }

  lemma {:induction false} LookupAt(os: seq<Binding>, i: nat)
    requires i < |os| && forall j :: 0 <= j < i ==> os[j].name != os[i].name
    ensures Lookup(os, os[i].name) == Some(os[i].addr)
    decreases i
  {
    if i > 0 {
      assert os[1..][i - 1] == os[i] && forall j :: 0 <= j < i - 1 ==> os[1..][j] == os[j + 1];
      assert os[0].name != os[i].name;
      LookupAt(os[1..], i - 1);
    }
  }

  /** Row i is the first of its name. */
  predicate FirstOfName(rows: seq<Thunks.Row>, i: nat) {
    i < |rows| && forall j :: 0 <= j < i ==> rows[j].name != rows[i].name
  }

  /** Looking a name up gives the address of the C name of the first row with it. */
  lemma {:induction false} LookupRow(rows: seq<Thunks.Row>, symbols: Symbols, i: nat)
    requires Resolved(rows, symbols) && FirstOfName(rows, i)
    ensures Thunks.CName(rows[i]) in symbols
    ensures Lookup(OsTableOf(rows, symbols), rows[i].name) == Some(symbols[Thunks.CName(rows[i])])
  {
    var os := OsTableOf(rows, symbols);
    assert forall j :: 0 <= j < |rows| ==> os[j].name == rows[j].name;
    LookupAt(os, i);
  }

  /** A stub branches to its address and leaves the registers. */
  lemma {:induction false} StubBranches(m: seq<byte>, a: word, addr: word, cpu: Arm.Cpu)
    requires Holds(m, a, Stub(addr)) && |m| <= 0x1_0000_0000
    requires Arm.WellFormed(cpu) && cpu.pc == a && a % 4 == 0 && !cpu.thumb
    ensures Arm.Step(m, cpu) == Arm.Branch(cpu, addr)
  {
    HoldsConcat(m, a, WordBytes(LDR_PC), WordBytes(addr));
    HeldWord(m, a, LDR_PC);
    HeldWord(m, a + 4, addr);
    assert Arm.Decode(LDR_PC) == Arm.Ldr(15, 15, false, 4);
    assert (a + 8) % 0x1_0000_0000 - 4 == a + 4 || (a + 8 == 0x1_0000_0000 && ((a + 8) % 0x1_0000_0000 - 4) % 0x1_0000_0000 == a + 4);
  }

  /** A thunk traps with the address of its second word, leaving the registers. */
  lemma {:induction false} ThunkTraps(m: seq<byte>, a: word, num: nat, cpu: Arm.Cpu)
    requires num < 0x100_0000 && Holds(m, a, Assemble(num)) && |m| <= 0x1_0000_0000
    requires Arm.WellFormed(cpu) && cpu.pc == a && a % 4 == 0 && !cpu.thumb
    ensures Arm.Step(m, cpu) == Arm.Trap(cpu.(pc := a + 4))
    ensures ReadWord(m, a) == Arm.SvcWord(num) && ReadWord(m, a + 4) == Arm.BX_LR
  {
    HoldsConcat(m, a, WordBytes(Arm.SvcWord(num)), WordBytes(Arm.BX_LR));
    HeldWord(m, a, Arm.SvcWord(num));
    HeldWord(m, a + 4, Arm.BX_LR);
    Arm.DecodeSvc(num);
  }

  /** The second word of a thunk returns to the caller. */
  lemma {:induction false} ThunkReturns(m: seq<byte>, a: word, cpu: Arm.Cpu)
    requires Holds(m, a, WordBytes(Arm.BX_LR))
    requires Arm.WellFormed(cpu) && cpu.pc == a && a % 4 == 0 && !cpu.thumb
    ensures Arm.Step(m, cpu) == Arm.Branch(cpu, cpu.regs[14])
  {
    HeldWord(m, a, Arm.BX_LR);
    assert Arm.Decode(Arm.BX_LR) == Arm.Bx(14);
  }

  /** The stub of import k is aligned and no later stub overlaps it. */
  predicate StubKept(imports: seq<Import>, k: nat)
    requires k < |imports|
  {
    imports[k].address % 4 == 0 &&
    forall j :: k < j < |imports| ==>
      imports[j].address + 8 <= imports[k].address || imports[k].address + 8 <= imports[j].address
  }

  /** The first row of a name, if the table has the name. */
  lemma {:induction false} KnownRow(rows: seq<Thunks.Row>, symbols: Symbols, name: seq<byte>) returns (i: nat)
    requires Resolved(rows, symbols) && Lookup(OsTableOf(rows, symbols), name).Some?
    ensures FirstOfName(rows, i) && rows[i].name == name
  {
    var os := OsTableOf(rows, symbols);
    LookupIsFirst(os, name);
    i :| 0 <= i < |os| && os[i] == Binding(name, Lookup(os, name).value) && forall j :: 0 <= j < i ==> os[j].name != name;
    assert forall j :: 0 <= j < |rows| ==> os[j].name == rows[j].name;
  }

  /** The system an imported call runs in: a list of functions, linked; a file
      loaded successfully against it; and a cpu about to execute the stub of import k, which is
      aligned and not overwritten by a later stub. */
  predicate AtStub(m: seq<byte>, base: nat, f: seq<byte>, rows: seq<Thunks.Row>, symbols: Symbols, k: nat, cpu: Arm.Cpu) {
    Resolved(rows, symbols) && NamesTerminated(OsTableOf(rows, symbols)) &&
    Loadable(m, base, f) && |m| <= 0x1_0000_0000 && Load(m, base, OsTableOf(rows, symbols)).status == Done &&
    k < |EntriesOf(f, IMPORT).value| && StubKept(EntriesOf(f, IMPORT).value, k) &&
    Arm.WellFormed(cpu) && cpu.pc == EntriesOf(f, IMPORT).value[k].address && !cpu.thumb
  }

  /** After a successful load, the stub of import k holds the address of the OS function of that
      name. */
  lemma {:induction false} StubHolds(m: seq<byte>, base: nat, f: seq<byte>, rows: seq<Thunks.Row>, symbols: Symbols,
                                     imports: seq<Import>, k: nat) returns (i: nat)
    requires Resolved(rows, symbols) && NamesTerminated(OsTableOf(rows, symbols))
    requires Loadable(m, base, f) && Load(m, base, OsTableOf(rows, symbols)).status == Done
    requires EntriesOf(f, IMPORT) == Ok(imports) && k < |imports| && StubKept(imports, k)
    ensures FirstOfName(rows, i) && rows[i].name == imports[k].name && Thunks.CName(rows[i]) in symbols
    ensures Holds(Load(m, base, OsTableOf(rows, symbols)).mem, imports[k].address, Stub(symbols[Thunks.CName(rows[i])]))
  {
    var os := OsTableOf(rows, symbols);
    var code := CodeOf(f).value.value;
    LoadIsEffect(m, base, f, os);
    LoadSucceedsIff(m, base, f, os);
    StubsFit(imports, base, f, |m|);
    i := KnownRow(rows, symbols, imports[k].name);
    LookupRow(rows, symbols, i);
    StubInPlace(Write(m, code.loadAddress, code.bytes), imports, os, k);
  }

  /** After a successful load of any file, executing the stub of an import branches to the
      OS function of that name, the first if there are several. */
  lemma {:induction false} ImportedCall(m: seq<byte>, base: nat, f: seq<byte>, rows: seq<Thunks.Row>, symbols: Symbols,
                                        k: nat, cpu: Arm.Cpu) returns (i: nat)
    requires AtStub(m, base, f, rows, symbols, k, cpu)
    ensures FirstOfName(rows, i) && rows[i].name == EntriesOf(f, IMPORT).value[k].name && Thunks.CName(rows[i]) in symbols
    ensures Arm.Step(Load(m, base, OsTableOf(rows, symbols)).mem, cpu) == Arm.Branch(cpu, symbols[Thunks.CName(rows[i])])
  {
    i := StubHolds(m, base, f, rows, symbols, EntriesOf(f, IMPORT).value, k);
    StubBranches(Load(m, base, OsTableOf(rows, symbols)).mem, cpu.pc, symbols[Thunks.CName(rows[i])], cpu);
  }

  /** The thunk generated for an emulated row lies at its C name's address, aligned, and loading
      does not write there. */
  predicate ThunkInstalled(m: seq<byte>, f: seq<byte>, rows: seq<Thunks.Row>, symbols: Symbols, i: nat)
    requires CodeOf(f).Ok? && CodeOf(f).value.Some? && EntriesOf(f, IMPORT).Ok?
    requires i < |rows| && rows[i].kind == Thunks.EMU && Resolved(rows, symbols)
  {
    var num := Thunks.SvcNumber(rows, i);
    assert Thunks.CName(rows[i]) in symbols;
    var a := symbols[Thunks.CName(rows[i])];
    num < 0x100_0000 && a % 4 == 0 && Holds(m, a, Assemble(num)) && Untouched(a, 8, f)
  }

  /** The cpu at a trap in the second step. */
  function TrapAfter(m: seq<byte>, cpu: Arm.Cpu): Option<Arm.Cpu>
    requires Arm.WellFormed(cpu)
  {
    match Arm.Step(m, cpu)
    case Next(c1) =>
      if !Arm.WellFormed(c1) then None
      else (match Arm.Step(m, c1)
            case Trap(c2) => Some(c2)
            case _ => None)
    case _ => None
  }

  /** The handler the hook calls for that trap. */
  function HandlerReached(m: seq<byte>, cpu: Arm.Cpu, handlers: seq<seq<byte>>): Option<seq<byte>>
    requires Arm.WellFormed(cpu)
  {
    var trapped :- TrapAfter(m, cpu);
    Arm.Dispatch(m, trapped.pc, handlers)
  }

  lemma {:induction false} TwoSteps(m: seq<byte>, cpu: Arm.Cpu, c1: Arm.Cpu, c2: Arm.Cpu)
    requires Arm.WellFormed(cpu) && Arm.WellFormed(c1)
    requires Arm.Step(m, cpu) == Arm.Next(c1) && Arm.Step(m, c1) == Arm.Trap(c2)
    ensures TrapAfter(m, cpu) == Some(c2)
  {
  }

  lemma {:induction false} StaysInArmState(cpu: Arm.Cpu, addr: word)
    requires !cpu.thumb && addr % 4 == 0
    ensures Arm.Branch(cpu, addr) == Arm.Next(cpu.(pc := addr))
  {
  }

  /** A branch to a thunk traps in its first word, with the registers of the call. */
  lemma {:induction false} TrapsInThunk(m: seq<byte>, addr: word, num: nat, cpu: Arm.Cpu)
    requires Arm.WellFormed(cpu) && !cpu.thumb && |m| <= 0x1_0000_0000
    requires Arm.Step(m, cpu) == Arm.Branch(cpu, addr) && addr % 4 == 0
    requires num < 0x100_0000 && Holds(m, addr, Assemble(num))
    ensures addr + 8 <= |m| && ReadWord(m, addr) == Arm.SvcWord(num) && ReadWord(m, addr + 4) == Arm.BX_LR
    ensures TrapAfter(m, cpu) == Some(cpu.(pc := addr + 4))
  {
    var c1 := cpu.(pc := addr);
    StaysInArmState(cpu, addr);
    ThunkTraps(m, addr, num, c1);
    TwoSteps(m, cpu, c1, c1.(pc := addr + 4));
  }

  /** The hook, called for the thunk's trap, selects its row's handler. */
  lemma {:induction false} DispatchSelects(m: seq<byte>, rows: seq<Thunks.Row>, i: nat, addr: word)
    requires i < |rows| && rows[i].kind == Thunks.EMU && Thunks.SvcNumber(rows, i) < 0x100_0000
    requires addr + 8 <= |m| <= 0x1_0000_0000 && ReadWord(m, addr) == Arm.SvcWord(Thunks.SvcNumber(rows, i))
    ensures Arm.Dispatch(m, addr + 4, Thunks.EmuNames(rows)) == Some(Thunks.Selected(rows, i))
  {
    Thunks.SelectedIs(rows, i);
    Arm.DispatchOfSvc(m, addr, Thunks.SvcNumber(rows, i), Thunks.EmuNames(rows));
  }

  /** An installed thunk, once branched to, makes the hook select its row's handler. */
  lemma {:induction false} ReachesHandler(m: seq<byte>, rows: seq<Thunks.Row>, i: nat, addr: word, cpu: Arm.Cpu)
    requires i < |rows| && rows[i].kind == Thunks.EMU && Thunks.SvcNumber(rows, i) < 0x100_0000
    requires Holds(m, addr, Assemble(Thunks.SvcNumber(rows, i))) && addr % 4 == 0 && |m| <= 0x1_0000_0000
    requires Arm.WellFormed(cpu) && !cpu.thumb && Arm.Step(m, cpu) == Arm.Branch(cpu, addr)
    ensures HandlerReached(m, cpu, Thunks.EmuNames(rows)) == Some(Thunks.Selected(rows, i))
  {
    TrapsInThunk(m, addr, Thunks.SvcNumber(rows, i), cpu);
    DispatchSelects(m, rows, i, addr);
    HandlerOfTrap(m, cpu, cpu.(pc := addr + 4), Thunks.EmuNames(rows));
  }

  lemma {:induction false} HandlerOfTrap(m: seq<byte>, cpu: Arm.Cpu, trapped: Arm.Cpu, handlers: seq<seq<byte>>)
    requires Arm.WellFormed(cpu) && TrapAfter(m, cpu) == Some(trapped)
    ensures HandlerReached(m, cpu, handlers) == Arm.Dispatch(m, trapped.pc, handlers)
  {
  }

  /** The loaded system at a call of import k, which row i provides by an installed thunk. */
  predicate AtEmulated(m: seq<byte>, base: nat, f: seq<byte>, rows: seq<Thunks.Row>, symbols: Symbols, k: nat, cpu: Arm.Cpu, i: nat) {
    AtStub(m, base, f, rows, symbols, k, cpu) &&
    FirstOfName(rows, i) && rows[i].name == EntriesOf(f, IMPORT).value[k].name && rows[i].kind == Thunks.EMU &&
    ThunkInstalled(m, f, rows, symbols, i)
  }

  /** The call branches to the row's thunk, which is there. */
  lemma {:induction false} BranchesToThunk(m: seq<byte>, base: nat, f: seq<byte>, rows: seq<Thunks.Row>, symbols: Symbols,
                                           k: nat, cpu: Arm.Cpu, i: nat) returns (addr: word)
    requires AtEmulated(m, base, f, rows, symbols, k, cpu, i)
    ensures addr % 4 == 0 && Thunks.SvcNumber(rows, i) < 0x100_0000
    ensures Arm.Step(Load(m, base, OsTableOf(rows, symbols)).mem, cpu) == Arm.Branch(cpu, addr)
    ensures Holds(Load(m, base, OsTableOf(rows, symbols)).mem, addr, Assemble(Thunks.SvcNumber(rows, i)))
  {
    var j := ImportedCall(m, base, f, rows, symbols, k, cpu);
    SameRow(rows, i, j);
    addr := symbols[Thunks.CName(rows[i])];
    UntouchedHolds(m, base, f, OsTableOf(rows, symbols), addr, Assemble(Thunks.SvcNumber(rows, i)));
  }

  /** An imported emulated function, in any file: the call traps with its interrupt number, and the
      hook calls the handler at that number's low 16 bits. With at most 65536 emulated functions
      that is the handler of the imported name. */
  lemma {:induction false} EmulatedCall(m: seq<byte>, base: nat, f: seq<byte>, rows: seq<Thunks.Row>, symbols: Symbols,
                                        k: nat, cpu: Arm.Cpu, i: nat)
    requires AtEmulated(m, base, f, rows, symbols, k, cpu, i)
    ensures HandlerReached(Load(m, base, OsTableOf(rows, symbols)).mem, cpu, Thunks.EmuNames(rows)) ==
            Some(Thunks.Selected(rows, i))
    ensures |Thunks.EmuNames(rows)| <= 0x1_0000 ==> Thunks.Selected(rows, i) == EntriesOf(f, IMPORT).value[k].name
  {
    var addr := BranchesToThunk(m, base, f, rows, symbols, k, cpu, i);
    Thunks.SelectedIs(rows, i);
    ReachesHandler(Load(m, base, OsTableOf(rows, symbols)).mem, rows, i, addr, cpu);
  }

  /** The trap has the registers of the call, and the return instruction at its return address. */
  lemma {:induction false} EmulatedTraps(m: seq<byte>, base: nat, f: seq<byte>, rows: seq<Thunks.Row>, symbols: Symbols,
                                         k: nat, cpu: Arm.Cpu, i: nat) returns (trapped: Arm.Cpu)
    requires AtEmulated(m, base, f, rows, symbols, k, cpu, i)
    ensures TrapAfter(Load(m, base, OsTableOf(rows, symbols)).mem, cpu) == Some(trapped) && trapped == cpu.(pc := trapped.pc)
    ensures trapped.pc % 4 == 0 && trapped.pc + 4 <= |m|
    ensures ReadWord(Load(m, base, OsTableOf(rows, symbols)).mem, trapped.pc) == Arm.BX_LR
  {
    var addr := BranchesToThunk(m, base, f, rows, symbols, k, cpu, i);
    TrapsInThunk(Load(m, base, OsTableOf(rows, symbols)).mem, addr, Thunks.SvcNumber(rows, i), cpu);
    trapped := cpu.(pc := addr + 4);
  }

  /** And back: if the handler leaves the link register and the word at the return address, whatever
      else it does to memory and registers, the next step returns to the caller of the stub. */
  lemma {:induction false} EmulatedCallReturns(m: seq<byte>, base: nat, f: seq<byte>, rows: seq<Thunks.Row>, symbols: Symbols,
                                               k: nat, cpu: Arm.Cpu, i: nat, trapped: Arm.Cpu, m2: seq<byte>, after: Arm.Cpu)
    requires AtEmulated(m, base, f, rows, symbols, k, cpu, i)
    requires TrapAfter(Load(m, base, OsTableOf(rows, symbols)).mem, cpu) == Some(trapped)
    requires Arm.WellFormed(after) && |trapped.regs| == 15 && trapped.pc + 4 <= |m| && trapped.pc + 4 <= |m2|
    requires after.pc == trapped.pc && !after.thumb && after.regs[14] == trapped.regs[14]
    requires ReadWord(m2, trapped.pc) == ReadWord(Load(m, base, OsTableOf(rows, symbols)).mem, trapped.pc)
    ensures Arm.Step(m2, after) == Arm.Branch(after, cpu.regs[14])
  {
    var t := EmulatedTraps(m, base, f, rows, symbols, k, cpu, i);
    ReturnsByWord(m2, trapped.pc, after);
  }

  lemma {:induction false} ReturnsByWord(m: seq<byte>, a: word, cpu: Arm.Cpu)
    requires a + 4 <= |m| && ReadWord(m, a) == Arm.BX_LR
    requires Arm.WellFormed(cpu) && cpu.pc == a && a % 4 == 0 && !cpu.thumb
    ensures Arm.Step(m, cpu) == Arm.Branch(cpu, cpu.regs[14])
  {
    HeldWord(m, a, Arm.BX_LR);
    ThunkReturns(m, a, cpu);
  }

  lemma {:induction false} SameRow(rows: seq<Thunks.Row>, i: nat, j: nat)
    requires FirstOfName(rows, i) && FirstOfName(rows, j) && rows[i].name == rows[j].name
    ensures i == j
  {
  }

  // ---------------------------------------------------------------- files given by their contents

  function ImportsOf(cs: seq<Content>): seq<Import> {
    match First(cs, IMPORT)
    case Some(ImportSection(es)) => es
    case _ => []
  }

  function ExportsOf(cs: seq<Content>): seq<Import> {
    match First(cs, EXPORT)
    case Some(ExportSection(es)) => es
    case _ => []
  }

  function FilesOf(cs: seq<Content>): seq<File> {
    match First(cs, RESOURCES)
    case Some(ResourceSection(fs)) => fs
    case _ => []
  }

  /** A file with the contents cs lies at base, it has code, and what loading writes is outside it. */
  predicate Placed(m: seq<byte>, base: nat, f: seq<byte>, cs: seq<Content>) {
    Lays(f, cs) && Holds(m, base, f) &&
    First(cs, CODE).Some? && First(cs, CODE).value.CodeSection? &&
    Outside(First(cs, CODE).value.loadAddress, |First(cs, CODE).value.bytes|, base, f, |m|) &&
    StubsOutside(ImportsOf(cs), base, f, |m|)
  }

  lemma {:induction false} PlacedIsLoadable(m: seq<byte>, base: nat, f: seq<byte>, cs: seq<Content>)
    requires Placed(m, base, f, cs)
    ensures Loadable(m, base, f)
    ensures CodeOf(f).value.value == Code(First(cs, CODE).value.loadAddress, First(cs, CODE).value.bytes)
    ensures EntriesOf(f, IMPORT).value == ImportsOf(cs)
  {
    var a := FirstLaid(f, cs, IMPORT);
    CodeRoundTrip(f, cs);
    EntriesRoundTrip(f, cs, IMPORT);
  }

  /** Memory after the code is copied. */
  function WithCode(m: seq<byte>, cs: seq<Content>): (r: seq<byte>)
    requires First(cs, CODE).Some? && First(cs, CODE).value.CodeSection?
    requires First(cs, CODE).value.loadAddress + |First(cs, CODE).value.bytes| <= |m|
    ensures |r| == |m|
  {
    Write(m, First(cs, CODE).value.loadAddress, First(cs, CODE).value.bytes)
  }

  /** Loading a file writes its first code section and then the stubs of its first import section,
      and nothing else; it returns exactly when the OS table has every imported name. */
  lemma {:induction false} LoadOfContents(m: seq<byte>, base: nat, f: seq<byte>, cs: seq<Content>, os: seq<Binding>)
    requires Placed(m, base, f, cs) && NamesTerminated(os)
    ensures forall i :: 0 <= i < |ImportsOf(cs)| ==> ImportsOf(cs)[i].address + 8 <= |m|
    ensures Load(m, base, os) == LinkAll(WithCode(m, cs), ImportsOf(cs), os)
    ensures Load(m, base, os).status == if AllKnown(ImportsOf(cs), os) then Done else Panicked
  {
    PlacedIsLoadable(m, base, f, cs);
    LoadIsEffect(m, base, f, os);
    LoadSucceedsIff(m, base, f, os);
    StubsFit(ImportsOf(cs), base, f, |m|);
  }

  /** After loading, `dl_get_proc` is lookup in the contents' exports followed by the OS table. */
  lemma {:induction false} GetProcOfContents(m: seq<byte>, base: nat, f: seq<byte>, cs: seq<Content>, os: seq<Binding>, name: seq<byte>)
    requires Placed(m, base, f, cs) && NamesTerminated(os) && NoNul(name)
    ensures var found := Lookup(Exported(ExportsOf(cs)) + os, name);
            GetProc(Load(m, base, os).mem, base, |cs|, os, name) == if found.Some? then Ok(found.value) else Panic
  {
    PlacedIsLoadable(m, base, f, cs);
    var a := FirstLaid(f, cs, EXPORT);
    EntriesRoundTrip(f, cs, EXPORT);
    GetProcAfterLoad(m, base, f, os, name);
  }

  /** The first file of a name. */
  lemma {:induction false} FirstNamedAt(rs: seq<Named>, k: nat)
    requires k < |rs| && forall j :: 0 <= j < k ==> rs[j].name != rs[k].name
    ensures FirstNamed(rs, rs[k].name) == Some(rs[k].entry)
    decreases k
  {
    if k > 0 {
      assert rs[1..][k - 1] == rs[k] && forall j :: 0 <= j < k - 1 ==> rs[1..][j] == rs[j + 1];
      assert rs[0].name != rs[k].name;
      FirstNamedAt(rs[1..], k - 1);
    }
  }

  lemma {:induction false} FilesOfContents(f: seq<byte>, cs: seq<Content>)
    requires Lays(f, cs) && |f| < 0x8000_0000
    ensures |f| >= 32 && ReadHeader(f, 0).numSections == |cs|
    ensures ResourcesOf(f).Ok? && Recovers(f, ResourcesOf(f).value, FilesOf(cs))
  {
    var a := FirstLaid(f, cs, RESOURCES);
    ResourcesRoundTrip(f, cs);
  }

  lemma {:induction false} ReadRecovered(m: seq<byte>, base: nat, f: seq<byte>, os: seq<Binding>, fs: seq<File>, k: nat, calls: seq<Call>)
    requires Loadable(m, base, f) && NamesTerminated(os)
    requires |f| < 0x8000_0000 && base + |f| < 0x1_0000_0000
    requires ResourcesOf(f).Ok? && Recovers(f, ResourcesOf(f).value, fs)
    requires k < |fs| && forall j :: 0 <= j < k ==> fs[j].name != fs[k].name
    requires TotalBytes(PiecesOf(calls)) == |fs[k].data| && Clear(PiecesOf(calls), |m|, base, base + |f|)
    ensures var m1 := Load(m, base, os).mem;
            var found := OpenResource(m1, base, ReadHeader(f, 0).numSections, fs[k].name);
            found.Ok? && found.value.Some? && found.value.value.size == |fs[k].data| &&
            found.value.value.fileOffset >= 0 &&
            var r := Reads(m1, base, found.value.value.fileOffset, calls);
            r.Ok? && r.value.1 == found.value.value.fileOffset + found.value.value.size &&
            (r.value.0 == ToggleAll(fs[k].data) <==> forall i :: 0 <= i < |calls| ==> Whole(calls[i]))
  {
    var rs := ResourcesOf(f).value;
    FirstNamedAt(rs, k);
    HoldsIsSlice(f, rs[k].entry.fileOffset, fs[k].data);
    ReadAfterLoad(m, base, f, os, fs[k].name, rs[k].entry, calls);
  }

  /** After loading, opening the k-th file by its name and reading it in any pieces delivers the
      file's data, every byte toggled, exactly when every piece has single-byte elements. */
  lemma {:induction false} ReadFileOfContents(m: seq<byte>, base: nat, f: seq<byte>, cs: seq<Content>, os: seq<Binding>,
                                              k: nat, calls: seq<Call>)
    requires Placed(m, base, f, cs) && NamesTerminated(os)
    requires |f| < 0x8000_0000 && base + |f| < 0x1_0000_0000
    requires k < |FilesOf(cs)| && forall j :: 0 <= j < k ==> FilesOf(cs)[j].name != FilesOf(cs)[k].name
    requires TotalBytes(PiecesOf(calls)) == |FilesOf(cs)[k].data|
    requires Clear(PiecesOf(calls), |m|, base, base + |f|)
    ensures var m1 := Load(m, base, os).mem;
            var found := OpenResource(m1, base, |cs|, FilesOf(cs)[k].name);
            found.Ok? && found.value.Some? && found.value.value.size == |FilesOf(cs)[k].data| &&
            found.value.value.fileOffset >= 0 &&
            var r := Reads(m1, base, found.value.value.fileOffset, calls);
            r.Ok? && r.value.1 == found.value.value.fileOffset + found.value.value.size &&
            (r.value.0 == ToggleAll(FilesOf(cs)[k].data) <==> forall i :: 0 <= i < |calls| ==> Whole(calls[i]))
  {
    PlacedIsLoadable(m, base, f, cs);
    FilesOfContents(f, cs);
    ReadRecovered(m, base, f, os, FilesOf(cs), k, calls);
  }

  // ---------------------------------------------------------------- a small system

  /** A file with no code that imports one name. */
  function OneImport(name: seq<byte>): seq<Content> {
    [CodeSection(0, 0x100, []), ImportSection([Import(name, 0x200)])]
  }

  lemma {:induction false} OneImportParts(name: seq<byte>)
    ensures First(OneImport(name), CODE) == Some(CodeSection(0, 0x100, []))
    ensures ImportsOf(OneImport(name)) == [Import(name, 0x200)]
  {
    var rest := OneImport(name)[1..];
    assert rest == [ImportSection([Import(name, 0x200)])];
    assert First(rest, IMPORT) == Some(rest[0]) == First(OneImport(name), IMPORT);
  }

  lemma {:induction false} OneImportLength(name: seq<byte>)
    ensures |Encoder.Encode(OneImport(name))| == 129 + |name|
  {
    var cs := OneImport(name);
    var es := [Import(name, 0x200)];
    var rs := Encoder.RawsOf(cs);
    assert cs[1..] == [ImportSection(es)] && Encoder.RawsOf(cs[1..])[1..] == [];
    assert rs == [Encoder.RawOf(cs[0])] + [Encoder.RawOf(ImportSection(es))] && rs[1..] == [Encoder.RawOf(ImportSection(es))] && rs[1..][1..] == [];
    assert |Encoder.Bodies(rs)| == |rs[0].body| + (|rs[1].body| + |Encoder.Bodies([])|);
    assert es[1..] == [] && |Encoder.StringPool(es)| == |name| + 1;
    assert |Encoder.ProcsBody(es)| == 33 + |name|;
  }

  /** Memory with a thunk and, above it, a file. */
  lemma {:induction false} ThunkAndFile(f: seq<byte>, thunk: seq<byte>) returns (m: seq<byte>)
    requires |f| <= 0x1000 && |thunk| == 8
    ensures |m| == 0x2000 && Holds(m, 0x1000, f) && Holds(m, 0x300, thunk)
  {
    var blank := Encoder.ZeroBytes(0x2000);
    var low := Write(blank, 0x300, thunk);
    m := Write(low, 0x1000, f);
    WriteHolds(blank, 0x300, thunk);
    WriteHolds(low, 0x1000, f);
    WriteElsewhere(low, 0x1000, f, 0x300, thunk);
  }

  lemma {:induction false} OneImportLaid(name: seq<byte>) returns (f: seq<byte>)
    requires NoNul(name) && |name| < 0x400
    ensures |f| == 129 + |name| && Lays(f, OneImport(name))
  {
    var cs := OneImport(name);
    f := Encoder.Encode(cs);
    OneImportLength(name);
    assert forall i :: 0 <= i < |cs| ==> Encoder.WellFormed(cs[i]);
    Encoder.EncodeLays(cs);
  }

  lemma {:induction false} OneImportPlaced(m: seq<byte>, f: seq<byte>, name: seq<byte>)
    requires |f| < 0x1000 && Lays(f, OneImport(name)) && |m| == 0x2000 && Holds(m, 0x1000, f)
    ensures Placed(m, 0x1000, f, OneImport(name)) && Loadable(m, 0x1000, f)
    ensures EntriesOf(f, IMPORT) == Ok([Import(name, 0x200)]) && Untouched(0x300, 8, f)
  {
    OneImportParts(name);
    PlacedIsLoadable(m, 0x1000, f, OneImport(name));
  }

  /** The memory of a small system: the thunk, and the file of one import. */
  lemma {:induction false} SmallMemory(name: seq<byte>, rows: seq<Thunks.Row>, symbols: Symbols)
      returns (m: seq<byte>, f: seq<byte>)
    requires NoNul(name) && |name| < 0x400
    requires |rows| == 1 && rows[0].name == name && rows[0].kind == Thunks.EMU && symbols == map[name := 0x300]
    ensures |m| == 0x2000 && Placed(m, 0x1000, f, OneImport(name)) && Loadable(m, 0x1000, f)
    ensures EntriesOf(f, IMPORT) == Ok([Import(name, 0x200)])
    ensures Resolved(rows, symbols) && ThunkInstalled(m, f, rows, symbols, 0)
  {
    f := OneImportLaid(name);
    m := ThunkAndFile(f, Assemble(0));
    OneImportPlaced(m, f, name);
    assert rows[..0] == [] && Thunks.SvcNumber(rows, 0) == 0;
  }

  /** A whole system in which an imported emulated function can be called, for any name: the
      demands of EmulatedCall can be met, and its conclusion is that the name's handler is reached. */
  lemma {:induction false} SmallSystem(name: seq<byte>, prototype: seq<byte>, cpu: Arm.Cpu)
      returns (m: seq<byte>, f: seq<byte>, rows: seq<Thunks.Row>, symbols: Symbols)
    requires NoNul(name) && |name| < 0x400
    requires Arm.WellFormed(cpu) && cpu.pc == 0x200 && !cpu.thumb
    ensures rows == [Thunks.Row(name, Thunks.EMU, prototype)]
    ensures Placed(m, 0x1000, f, OneImport(name)) && AtEmulated(m, 0x1000, f, rows, symbols, 0, cpu, 0)
    ensures HandlerReached(Load(m, 0x1000, OsTableOf(rows, symbols)).mem, cpu, Thunks.EmuNames(rows)) == Some(name)
  {
    rows := [Thunks.Row(name, Thunks.EMU, prototype)];
    symbols := map[name := 0x300];
    m, f := SmallMemory(name, rows, symbols);
    OneImportParts(name);
    LookupRow(rows, symbols, 0);
    LoadOfContents(m, 0x1000, f, OneImport(name), OsTableOf(rows, symbols));
    assert Thunks.EmuNames(rows[..0]) == [] && |Thunks.EmuNames(rows)| == 1;
    EmulatedCall(m, 0x1000, f, rows, symbols, 0, cpu, 0);
  }
}
