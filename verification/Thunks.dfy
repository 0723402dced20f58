/** `make-thunks.py`: one pass over the function list numbers the software interrupts and emits
    the thunks; two more emit the host's handler table and the OS function table. */
module Thunks {
  import opened Wrappers
  import opened Bytes

  datatype Kind = ABORT | EMU | NOOP | MINISYS | STUB | STUB_DUMMY_ALLOC

  datatype Row = Row(name: seq<byte>, kind: Kind, prototype: seq<byte>)

  /** "stub_" */
  const STUB_PREFIX: seq<byte> := [0x73, 0x74, 0x75, 0x62, 0x5f]

  predicate IsStub(kind: Kind) { kind in {ABORT, NOOP, STUB, STUB_DUMMY_ALLOC} }

  function CName(row: Row): seq<byte> {
    if IsStub(row.kind) then STUB_PREFIX + row.name else row.name
  }

  datatype Entry = Entry(index: nat, name: seq<byte>, cName: seq<byte>, kind: Kind)

  /** A function definition in the generated C file, and the C name it defines. */
  datatype Thunk =
    | PanicThunk(cName: seq<byte>)
    | SvcThunk(cName: seq<byte>, prototype: seq<byte>, num: nat)
    | TraceThunk(cName: seq<byte>)
    | AllocThunk(cName: seq<byte>)
    | ReturnThunk(cName: seq<byte>)

  datatype OsRow = OsRow(name: seq<byte>, cName: seq<byte>)

  /** The generated files: thunk definitions, thunk declarations, native prototypes, the handler
      table by name, and the OS table (without its terminating zero row). */
  datatype Output = Output(thunks: seq<Thunk>, declared: seq<seq<byte>>, natives: seq<seq<byte>>,
                           handlers: seq<seq<byte>>, table: seq<OsRow>)

  // ---------------------------------------------------------------- what is generated

  /** Names of the emulated functions, in order. */
  function EmuNames(rows: seq<Row>): seq<seq<byte>> {
    if rows == [] then []
    else
      var n := |rows| - 1;
      EmuNames(rows[..n]) + if rows[n].kind == EMU then [rows[n].name] else []
  }

  /** Interrupt number of a row: how many emulated functions come before it. */
  function SvcNumber(rows: seq<Row>, i: nat): nat
    requires i <= |rows|
  {
    |EmuNames(rows[..i])|
  }

  function ThunkOf(row: Row, num: nat): seq<Thunk> {
    match row.kind
    case ABORT => [PanicThunk(CName(row))]
    case EMU => [SvcThunk(CName(row), row.prototype, num)]
    case STUB => [TraceThunk(CName(row))]
    case STUB_DUMMY_ALLOC => [AllocThunk(CName(row))]
    case NOOP => [ReturnThunk(CName(row))]
    case MINISYS => []
  }

  function ThunksOf(rows: seq<Row>): seq<Thunk> {
    if rows == [] then []
    else
      var n := |rows| - 1;
      ThunksOf(rows[..n]) + ThunkOf(rows[n], SvcNumber(rows, n))
  }

  function StubNames(rows: seq<Row>): seq<seq<byte>> {
    if rows == [] then []
    else
      var n := |rows| - 1;
      StubNames(rows[..n]) + if IsStub(rows[n].kind) then [CName(rows[n])] else []
  }

  function TableOf(rows: seq<Row>): (t: seq<OsRow>)
    ensures |t| == |rows| && forall i :: 0 <= i < |rows| ==> t[i] == OsRow(rows[i].name, CName(rows[i]))
  {
    seq(|rows|, i requires 0 <= i < |rows| => OsRow(rows[i].name, CName(rows[i])))
  }

  /** Every emulated function has a prototype. */
  predicate Prototyped(rows: seq<Row>) {
    forall i :: 0 <= i < |rows| && rows[i].kind == EMU ==> rows[i].prototype != []
  }

  lemma {:induction false} PrefixStep(rows: seq<Row>, i: nat)
    requires i < |rows|
    ensures ThunksOf(rows[..i + 1]) == ThunksOf(rows[..i]) + ThunkOf(rows[i], SvcNumber(rows, i))
    ensures StubNames(rows[..i + 1]) == StubNames(rows[..i]) + if IsStub(rows[i].kind) then [CName(rows[i])] else []
    ensures EmuNames(rows[..i + 1]) == EmuNames(rows[..i]) + if rows[i].kind == EMU then [rows[i].name] else []
    ensures Prototyped(rows[..i + 1]) <==> Prototyped(rows[..i]) && (rows[i].kind == EMU ==> rows[i].prototype != [])
  {
    var next := rows[..i + 1];
    assert next[..i] == rows[..i] && next[i] == rows[i];
    assert forall j :: 0 <= j < i ==> next[j] == rows[..i][j];
  }

  /** What the script has written, and the number it will give out next, after i rows. */
  predicate Emitted(rows: seq<Row>, i: nat, thunks: seq<Thunk>, declared: seq<seq<byte>>, natives: seq<seq<byte>>, nextSvc: nat)
    requires i <= |rows|
  {
    Prototyped(rows[..i]) && thunks == ThunksOf(rows[..i]) && declared == StubNames(rows[..i]) &&
    natives == EmuNames(rows[..i]) && nextSvc == SvcNumber(rows, i)
  }

  lemma {:induction false} EmittedStep(rows: seq<Row>, i: nat, thunks: seq<Thunk>, declared: seq<seq<byte>>,
                                       natives: seq<seq<byte>>, nextSvc: nat)
    requires i < |rows| && Emitted(rows, i, thunks, declared, natives, nextSvc)
    requires rows[i].kind == EMU ==> rows[i].prototype != []
    ensures var row := rows[i];
            Emitted(rows, i + 1, thunks + ThunkOf(row, nextSvc),
                    if IsStub(row.kind) then declared + [CName(row)] else declared,
                    if row.kind == EMU then natives + [row.name] else natives,
                    if row.kind == EMU then nextSvc + 1 else nextSvc)
  {
    PrefixStep(rows, i);
  }

  lemma {:induction false} EmittedAll(rows: seq<Row>, thunks: seq<Thunk>, declared: seq<seq<byte>>, natives: seq<seq<byte>>, nextSvc: nat)
    ensures Emitted(rows, |rows|, thunks, declared, natives, nextSvc) <==>
            Prototyped(rows) && thunks == ThunksOf(rows) && declared == StubNames(rows) &&
            natives == EmuNames(rows) && nextSvc == |EmuNames(rows)|
  {
    assert rows[..|rows|] == rows;
  }

  /** The list of entries the later loops run over, after i rows. */
  predicate Listed(rows: seq<Row>, i: nat, all: seq<Entry>)
    requires i <= |rows|
  {
    |all| == i && forall j :: 0 <= j < i ==> all[j] == Entry(SvcNumber(rows, j), rows[j].name, CName(rows[j]), rows[j].kind)
  }

  /** The script; None when its `assert prototype` fails. */
  method Generate(rows: seq<Row>) returns (r: Option<Output>)
    ensures r == None <==> exists i :: 0 <= i < |rows| && rows[i].kind == EMU && rows[i].prototype == []
    ensures r.Some? ==>
              r.value == Output(ThunksOf(rows), StubNames(rows), EmuNames(rows), EmuNames(rows), TableOf(rows))
  {
    var thunks, declared, natives := [], [], [];
    var all: seq<Entry> := [];
    var nextSvc := 0;
    for i := 0 to |rows|
      invariant Emitted(rows, i, thunks, declared, natives, nextSvc)
      invariant Listed(rows, i, all)
    {
      var row := rows[i];
      all := all + [Entry(nextSvc, row.name, CName(row), row.kind)];
      var thunk := EmitThunk(row, nextSvc);
      if thunk == None {
        NotPrototyped(rows, i);
        return None;
      }
      EmittedStep(rows, i, thunks, declared, natives, nextSvc);
      if IsStub(row.kind) { declared := declared + [CName(row)]; }
      thunks := thunks + thunk.value;
      if row.kind == EMU {
        natives := natives + [row.name];
        nextSvc := nextSvc + 1;
      }
    }
    EmittedAll(rows, thunks, declared, natives, nextSvc);
    var handlers := HandlerTable(rows, all);
    var table := FunctionTable(rows, all);
    return Some(Output(thunks, declared, natives, handlers, table));
  }

  lemma {:induction false} NotPrototyped(rows: seq<Row>, i: nat)
    requires i < |rows| && rows[i].kind == EMU && rows[i].prototype == []
    ensures !Prototyped(rows)
  {
  }

  /** The branches of the row loop that write the thunk's definition. */
  method EmitThunk(row: Row, nextSvc: nat) returns (r: Option<seq<Thunk>>)
    ensures r == None <==> row.kind == EMU && row.prototype == []
    ensures r.Some? ==> r.value == ThunkOf(row, nextSvc)
  {
    var cName := CName(row);
    var out: seq<Thunk> := [];
    if row.kind == ABORT { out := out + [PanicThunk(cName)]; }
    if row.kind == EMU {
      if row.prototype == [] { return None; }
      out := out + [SvcThunk(cName, row.prototype, nextSvc)];
    } else if row.kind == STUB {
      out := out + [TraceThunk(cName)];
    } else if row.kind == STUB_DUMMY_ALLOC {
      out := out + [AllocThunk(cName)];
    } else if row.kind == NOOP {
      out := out + [ReturnThunk(cName)];
    }
    return Some(out);
  }

  /** The loop that emits the native handler table. */
  method HandlerTable(ghost rows: seq<Row>, all: seq<Entry>) returns (handlers: seq<seq<byte>>)
    requires |all| == |rows| && forall j :: 0 <= j < |all| ==> all[j].name == rows[j].name && all[j].kind == rows[j].kind
    ensures handlers == EmuNames(rows)
  {
    handlers := [];
    for i := 0 to |all|
      invariant handlers == EmuNames(rows[..i])
    {
      assert rows[..i + 1][..i] == rows[..i];
      if all[i].kind == EMU { handlers := handlers + [all[i].name]; }
    }
    assert rows[..|rows|] == rows;
  }

  /** The loop that emits the OS function table. */
  method FunctionTable(ghost rows: seq<Row>, all: seq<Entry>) returns (table: seq<OsRow>)
    requires |all| == |rows| && forall j :: 0 <= j < |all| ==> all[j].name == rows[j].name && all[j].cName == CName(rows[j])
    ensures table == TableOf(rows)
  {
    table := [];
    for i := 0 to |all|
      invariant |table| == i && forall j :: 0 <= j < i ==> table[j] == OsRow(rows[j].name, CName(rows[j]))
    {
      table := table + [OsRow(all[i].name, all[i].cName)];
    }
  }

  // ---------------------------------------------------------------- how the tables agree

  lemma {:induction false} EmuNamesMono(rows: seq<Row>, i: nat, j: nat)
    requires i <= j <= |rows|
    ensures |EmuNames(rows[..i])| <= |EmuNames(rows[..j])|
    ensures EmuNames(rows[..i]) == EmuNames(rows[..j])[..|EmuNames(rows[..i])|]
    decreases j - i
  {
    if i < j {
      EmuNamesMono(rows, i, j - 1);
      assert rows[..j][..j - 1] == rows[..j - 1];
    }
  }

  /** An emulated row's number indexes its own name in the handler table. */
  lemma {:induction false} NumberIndexesHandler(rows: seq<Row>, i: nat)
    requires i < |rows| && rows[i].kind == EMU
    ensures SvcNumber(rows, i) < |EmuNames(rows)| && EmuNames(rows)[SvcNumber(rows, i)] == rows[i].name
  {
    assert rows[..i + 1][..i] == rows[..i] && rows[..|rows|] == rows;
    EmuNamesMono(rows, i + 1, |rows|);
    var k := SvcNumber(rows, i);
    assert EmuNames(rows[..i + 1]) == EmuNames(rows[..i]) + [rows[i].name];
    assert EmuNames(rows[..i + 1])[k] == rows[i].name;
  }

  /** Every handler belongs to an emulated row with that number. */
  lemma {:induction false} HandlerHasRow(rows: seq<Row>, k: nat) returns (i: nat)
    requires k < |EmuNames(rows)|
    ensures i < |rows| && rows[i].kind == EMU && SvcNumber(rows, i) == k
    decreases |rows|
  {
    var n := |rows| - 1;
    if k < |EmuNames(rows[..n])| {
      i := HandlerHasRow(rows[..n], k);
      assert rows[..n][..i] == rows[..i];
    } else {
      i := n;
    }
  }

  /** Different emulated rows have different numbers. */
  lemma {:induction false} NumbersDiffer(rows: seq<Row>, i: nat, j: nat)
    requires i < j < |rows| && rows[i].kind == EMU
    ensures SvcNumber(rows, i) < SvcNumber(rows, j)
  {
    assert rows[..i + 1][..i] == rows[..i];
    EmuNamesMono(rows, i + 1, j);
  }

  predicate DistinctNames(rows: seq<Row>) {
    forall i, j :: 0 <= i < j < |rows| ==> rows[i].name != rows[j].name
  }

  /** What the hook does with a row's number: it keeps the low 16 bits. */
  function Selected(rows: seq<Row>, i: nat): seq<byte>
    requires i < |rows| && rows[i].kind == EMU
  {
    NumberIndexesHandler(rows, i);
    EmuNames(rows)[SvcNumber(rows, i) % 0x1_0000]
  }

  lemma {:induction false} SelectedIs(rows: seq<Row>, i: nat)
    requires i < |rows| && rows[i].kind == EMU
    ensures SvcNumber(rows, i) < |EmuNames(rows)|
    ensures Selected(rows, i) == EmuNames(rows)[SvcNumber(rows, i) % 0x1_0000]
    ensures |EmuNames(rows)| <= 0x1_0000 ==> Selected(rows, i) == rows[i].name
  {
    NumberIndexesHandler(rows, i);
  }

  /** The hook selects every emulated row's own handler exactly when there are at most 65536. */
  lemma {:induction false} DispatchCorrectIff(rows: seq<Row>)
    requires DistinctNames(rows)
    ensures |EmuNames(rows)| <= 0x1_0000 <==>
            forall i :: 0 <= i < |rows| && rows[i].kind == EMU ==> Selected(rows, i) == rows[i].name
  {
    forall i | 0 <= i < |rows| && rows[i].kind == EMU
      ensures SvcNumber(rows, i) < |EmuNames(rows)|
      ensures SvcNumber(rows, i) < 0x1_0000 ==> Selected(rows, i) == rows[i].name
    {
      NumberIndexesHandler(rows, i);
    }
    if |EmuNames(rows)| > 0x1_0000 {
      var i := HandlerHasRow(rows, 0x1_0000);
      var j := HandlerHasRow(rows, 0);
      NumberIndexesHandler(rows, j);
      assert Selected(rows, i) == EmuNames(rows)[0] == rows[j].name;
      assert rows[i].name != rows[j].name;
    }
  }

  /** What each row puts where in the output: its one definition, at the place after those of the
      earlier rows, with the C name written out; a MINISYS row defines nothing and its OS row points
      to its bare name. */
  lemma {:induction false} DefinitionOfRow(rows: seq<Row>, i: nat)
    requires i < |rows|
    ensures var row, k, defs := rows[i], |ThunksOf(rows[..i])|, ThunksOf(rows);
            var stub := [0x73, 0x74, 0x75, 0x62, 0x5f] + row.name;
            |ThunksOf(rows[..i + 1])| == k + (if row.kind == MINISYS then 0 else 1) <= |defs| &&
            (row.kind == ABORT ==> defs[k] == PanicThunk(stub)) &&
            (row.kind == EMU ==> defs[k] == SvcThunk(row.name, row.prototype, SvcNumber(rows, i))) &&
            (row.kind == STUB ==> defs[k] == TraceThunk(stub)) &&
            (row.kind == STUB_DUMMY_ALLOC ==> defs[k] == AllocThunk(stub)) &&
            (row.kind == NOOP ==> defs[k] == ReturnThunk(stub)) &&
            TableOf(rows)[i] ==
              OsRow(row.name, if row.kind == EMU || row.kind == MINISYS then row.name else stub)
  {
    PrefixStep(rows, i);
    DefinitionsMono(rows, i + 1, |rows|);
    assert rows[..|rows|] == rows;
    OneDefinition(rows[i], SvcNumber(rows, i));
    assert STUB_PREFIX + rows[i].name == [0x73, 0x74, 0x75, 0x62, 0x5f] + rows[i].name;
  }

  lemma {:induction false} DefinitionsMono(rows: seq<Row>, i: nat, j: nat)
    requires i <= j <= |rows|
    ensures ThunksOf(rows[..i]) <= ThunksOf(rows[..j])
    decreases j - i
  {
    if i < j {
      DefinitionsMono(rows, i, j - 1);
      PrefixStep(rows, j - 1);
    }
  }

  lemma {:induction false} OneDefinition(row: Row, num: nat)
    ensures |ThunkOf(row, num)| == if row.kind == MINISYS then 0 else 1
  {
  }

  /** The declarations written with the generic prototype: one for each row that is neither EMU nor
      MINISYS, in order. */
  lemma {:induction false} DeclarationOfRow(rows: seq<Row>, i: nat)
    requires i < |rows|
    ensures var row, k := rows[i], |StubNames(rows[..i])|;
            var generic := row.kind != EMU && row.kind != MINISYS;
            |StubNames(rows[..i + 1])| == k + (if generic then 1 else 0) <= |StubNames(rows)| &&
            (generic ==> StubNames(rows)[k] == [0x73, 0x74, 0x75, 0x62, 0x5f] + row.name)
    decreases |rows|
  {
    var n := |rows| - 1;
    if i < n {
      DeclarationOfRow(rows[..n], i);
      assert rows[..n][..i] == rows[..i] && rows[..n][..i + 1] == rows[..i + 1];
    } else {
      assert rows[..i + 1] == rows;
    }
  }

  predicate DistinctCNames(rows: seq<Row>) {
    forall i, j :: 0 <= i < j < |rows| ==> CName(rows[i]) != CName(rows[j])
  }

  /** A function that is no stub, named like a stub's C name. */
  predicate Collides(rows: seq<Row>, i: nat, j: nat)
    requires i < |rows| && j < |rows|
  {
    !IsStub(rows[i].kind) && IsStub(rows[j].kind) && rows[i].name == STUB_PREFIX + rows[j].name
  }

  /** With distinct names, the C names are distinct exactly when no function that is no stub has the
      name of a stub with "stub_" in front. */
  lemma {:induction false} CNamesDistinctIff(rows: seq<Row>)
    requires DistinctNames(rows)
    ensures DistinctCNames(rows) <==> forall i, j :: 0 <= i < |rows| && 0 <= j < |rows| ==> !Collides(rows, i, j)
  {
    forall i, j | 0 <= i < |rows| && 0 <= j < |rows| && i != j
      ensures CName(rows[i]) == CName(rows[j]) <==> Collides(rows, i, j) || Collides(rows, j, i)
    {
      if IsStub(rows[i].kind) == IsStub(rows[j].kind) { SameCName(rows[i], rows[j]); }
      assert rows[i].name != rows[j].name;
    }
  }

  lemma {:induction false} SameCName(a: Row, b: Row)
    requires IsStub(a.kind) == IsStub(b.kind)
    ensures CName(a) == CName(b) ==> a.name == b.name
  {
    if CName(a) == CName(b) && IsStub(a.kind) {
      assert CName(a)[|STUB_PREFIX|..] == a.name && CName(b)[|STUB_PREFIX|..] == b.name;
    }
  }

  lemma {:induction false} ThunkOfRow(rows: seq<Row>, k: nat) returns (i: nat)
    requires k < |ThunksOf(rows)|
    ensures i < |rows| && ThunksOf(rows)[k].cName == CName(rows[i])
    decreases |rows|
  {
    var n := |rows| - 1;
    if k < |ThunksOf(rows[..n])| {
      i := ThunkOfRow(rows[..n], k);
    } else {
      i := n;
    }
  }

  /** With distinct C names no C name is defined twice. */
  lemma {:induction false} DefinitionsDiffer(rows: seq<Row>, a: nat, b: nat)
    requires DistinctCNames(rows) && a < b < |ThunksOf(rows)|
    ensures ThunksOf(rows)[a].cName != ThunksOf(rows)[b].cName
    decreases |rows|
  {
    var n := |rows| - 1;
    assert |ThunkOf(rows[n], SvcNumber(rows, n))| <= 1;
    if b < |ThunksOf(rows[..n])| {
      DefinitionsDiffer(rows[..n], a, b);
    } else {
      var i := ThunkOfRow(rows[..n], a);
      assert CName(rows[..n][i]) == CName(rows[i]);
    }
  }

  /** Every function the OS table points to is defined: by a generated thunk of that C name, or by
      hand for MINISYS rows. */
  lemma {:induction false} TableIsDefined(rows: seq<Row>, i: nat)
    requires i < |rows| && rows[i].kind != MINISYS
    ensures exists t :: t in ThunksOf(rows) && t.cName == TableOf(rows)[i].cName
    ensures rows[i].kind == EMU ==> SvcThunk(CName(rows[i]), rows[i].prototype, SvcNumber(rows, i)) in ThunksOf(rows)
    decreases |rows|
  {
    var n := |rows| - 1;
    if i < n {
      assert rows[..n][..i] == rows[..i];
      TableIsDefined(rows[..n], i);
      var t :| t in ThunksOf(rows[..n]) && t.cName == TableOf(rows[..n])[i].cName;
      assert t in ThunksOf(rows);
    } else {
      var t := ThunkOf(rows[n], SvcNumber(rows, n))[0];
      assert t in ThunksOf(rows);
    }
  }
}
