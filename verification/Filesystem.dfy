/** The file handle table of `filesystem.cpp`. Whether the host opens a file is a parameter; file
    contents and positions are not modelled. */
module Filesystem {

  /** An `fstream` in the table: which file it has open, or none (default-constructed). */
  datatype Stream = Unopened | Opened(path: string, writing: bool)

  // ---------------------------------------------------------------- paths

  function SafeChar(c: char): char {
    if c == '\\' || c == '/' then '$' else if c == ':' then '_' else c
  }

  function Sanitized(path: string): (r: string)
    ensures |r| == |path|
  {
    seq(|path|, i requires 0 <= i < |path| => SafeChar(path[i]))
  }

  /** `std::replace` over the whole string. */
  method Replace(s: array<char>, was: char, now: char)
    modifies s
    ensures forall i :: 0 <= i < s.Length ==> s[i] == if old(s[i]) == was then now else old(s[i])
  {
    for k := 0 to s.Length
      invariant forall i :: 0 <= i < s.Length ==>
                  s[i] == if i < k && old(s[i]) == was then now else old(s[i])
    {
      if s[k] == was { s[k] := now; }
    }
  }

  /** The three passes. */
  method Sanitize(path: string) returns (r: string)
    ensures r == Sanitized(path)
    ensures |r| == |path| && forall i :: 0 <= i < |path| ==>
              r[i] == if path[i] == '\\' then '$' else if path[i] == '/' then '$' else if path[i] == ':' then '_' else path[i]
  {
    var s := new char[|path|](i requires 0 <= i < |path| => path[i]);
    Replace(s, '\\', '$');
    Replace(s, '/', '$');
    Replace(s, ':', '_');
    r := s[..];
  }

  /** A sanitized path has the same length and no separator or drive mark; sanitizing it again
      changes nothing; and a path without them is untouched. */
  lemma {:induction false} SanitizedIsSafe(path: string)
    ensures |Sanitized(path)| == |path|
    ensures forall i :: 0 <= i < |path| ==> Sanitized(path)[i] !in {'\\', '/', ':'}
    ensures Sanitized(path) == path <==> forall i :: 0 <= i < |path| ==> path[i] !in {'\\', '/', ':'}
    ensures Sanitized(Sanitized(path)) == Sanitized(path)
  {
    if Sanitized(path) == path {
      forall i | 0 <= i < |path| ensures path[i] !in {'\\', '/', ':'} { assert Sanitized(path)[i] == path[i]; }
    }
  }

  // ---------------------------------------------------------------- the table

  datatype Table = Table(nextHandle: int, files: map<int, Stream>)

  const NEW_TABLE := Table(1, map[])

  /** Opens: the mode asks for reading or writing and the host opens the file. */
  datatype Op = Open(path: string, mode: string, opens: bool) | Close(handle: int) | Use(handle: int)

  function Two(mode: string): string { if |mode| >= 2 then mode[..2] else mode }

  predicate Succeeds(op: Op) { op.Open? && (Two(op.mode) == "rb" || Two(op.mode) == "wb") && op.opens }

  function StreamOf(op: Op): Stream
    requires op.Open?
  {
    Opened(Sanitized(op.path), Two(op.mode) == "wb")
  }

  /** `open_files[handle]`: the table with an entry for the handle. */
  function Touched(files: map<int, Stream>, handle: int): map<int, Stream> {
    if handle in files then files else files[handle := Unopened]
  }

  /** The table after an operation. `emplace` does not overwrite. */
  function After(t: Table, op: Op): Table {
    match op
    case Open(_, _, _) =>
      if !Succeeds(op) then t
      else Table(t.nextHandle + 1,
                 if t.nextHandle in t.files then t.files else t.files[t.nextHandle := StreamOf(op)])
    case Close(h) => t.(files := t.files - {h})
    case Use(h) => t.(files := Touched(t.files, h))
  }

  function Run(ops: seq<Op>): Table {
    if ops == [] then NEW_TABLE else After(Run(ops[..|ops| - 1]), ops[|ops| - 1])
  }

  /** What an open does, in terms of the mode's first two characters and of the path's characters:
      when the host opens the file and the mode starts with "rb" or "wb", the next handle is used up
      and, unless an entry is in its place, stands for the file of the sanitized path; otherwise
      nothing changes. */
  lemma {:induction false} OpenIs(t: Table, path: string, mode: string, opens: bool)
    ensures var ok := opens && ("rb" <= mode || "wb" <= mode);
            var r, p := After(t, Open(path, mode, opens)), Sanitized(path);
            (Succeeds(Open(path, mode, opens)) <==> ok) &&
            (!ok ==> r == t) &&
            (ok ==> r.nextHandle == t.nextHandle + 1) &&
            (ok && t.nextHandle in t.files ==> r.files == t.files) &&
            (ok && t.nextHandle !in t.files ==> r.files == t.files[t.nextHandle := Opened(p, "wb" <= mode)]) &&
            |p| == |path| &&
            forall i :: 0 <= i < |path| ==>
              (path[i] == '\\' || path[i] == '/' ==> p[i] == '$') && (path[i] == ':' ==> p[i] == '_') &&
              (path[i] != '\\' && path[i] != '/' && path[i] != ':' ==> p[i] == path[i])
  {
    assert "rb" <= mode <==> Two(mode) == "rb" by { TwoIsPrefix(mode, "rb"); }
    assert "wb" <= mode <==> Two(mode) == "wb" by { TwoIsPrefix(mode, "wb"); }
  }

  lemma {:induction false} TwoIsPrefix(mode: string, two: string)
    requires |two| == 2
    ensures two <= mode <==> Two(mode) == two
  {
    if two <= mode { assert mode[..2] == two; }
  }

  class Files {
    var nextHandle: int
    var openFiles: map<int, Stream>

    function State(): Table
      reads this
    {
      Table(nextHandle, openFiles)
    }

    constructor ()
      ensures State() == NEW_TABLE
    {
      nextHandle := 1;
      openFiles := map[];
    }

    /** `open_file`; `opens` is whether the host opens the file. */
    method OpenFile(path: string, mode: string, opens: bool) returns (handle: int)
      modifies this
      ensures State() == After(old(State()), Open(path, mode, opens))
      ensures handle == if opens && ("rb" <= mode || "wb" <= mode) then old(nextHandle) else -1
    {
      OpenIs(State(), path, mode, opens);
      var pathStr := Sanitize(path);
      if Two(mode) == "rb" {
        if opens {
          handle := Emplace(Opened(pathStr, false));
          return;
        }
      } else if Two(mode) == "wb" {
        if opens {
          handle := Emplace(Opened(pathStr, true));
          return;
        }
      }
      return -1;
    }

    method Emplace(f: Stream) returns (h: int)
      modifies this
      ensures h == old(nextHandle) && nextHandle == old(nextHandle) + 1
      ensures openFiles == if h in old(openFiles) then old(openFiles) else old(openFiles)[h := f]
    {
      h := nextHandle;
      if h !in openFiles { openFiles := openFiles[h := f]; }
      nextHandle := nextHandle + 1;
    }

    /** `close_file` */
    method CloseFile(handle: int)
      modifies this
      ensures State() == After(old(State()), Close(handle))
    {
      openFiles := Touched(openFiles, handle);
      openFiles := openFiles[handle := Unopened];
      openFiles := openFiles - {handle};
    }

    /** What `read_file`, `seek_file`, `tell_file` and `write_file` do to the table first. */
    method UseFile(handle: int) returns (f: Stream)
      modifies this
      ensures State() == After(old(State()), Use(handle))
      ensures f == if handle in old(openFiles) then old(openFiles)[handle] else Unopened
    {
      if handle !in openFiles { openFiles := openFiles[handle := Unopened]; }
      f := openFiles[handle];
    }
  }

  // ---------------------------------------------------------------- whole runs

  /** How many opens of a run succeeded. */
  function Opens(ops: seq<Op>): nat {
    if ops == [] then 0 else Opens(ops[..|ops| - 1]) + if Succeeds(ops[|ops| - 1]) then 1 else 0
  }

  /** The handle an open of a run returns. */
  function Returned(ops: seq<Op>, i: nat): int
    requires i < |ops| && Succeeds(ops[i])
  {
    Run(ops[..i]).nextHandle
  }

  /** The files a caller expects to be open: those opened and not closed since. */
  function Live(ops: seq<Op>): map<int, Stream> {
    if ops == [] then map[]
    else
      var before := Live(ops[..|ops| - 1]);
      match ops[|ops| - 1]
      case Open(_, _, _) =>
        if Succeeds(ops[|ops| - 1])
        then before[Run(ops[..|ops| - 1]).nextHandle := StreamOf(ops[|ops| - 1])]
        else before
      case Close(h) => before - {h}
      case Use(_) => before
  }

  lemma {:induction false} HandlesCount(ops: seq<Op>)
    ensures Run(ops).nextHandle == 1 + Opens(ops)
    decreases |ops|
  {
    if ops != [] { HandlesCount(ops[..|ops| - 1]); }
  }

  lemma {:induction false} OpensMono(ops: seq<Op>, i: nat, j: nat)
    requires i <= j <= |ops|
    ensures Opens(ops[..i]) <= Opens(ops[..j])
    decreases j - i
  {
    if i < j {
      OpensMono(ops, i, j - 1);
      assert ops[..j][..j - 1] == ops[..j - 1];
    }
  }

  /** In every run, whatever handles are passed, the handles returned count up from 1: no two
      successful opens return the same one. */
  lemma {:induction false} HandlesAreFresh(ops: seq<Op>, i: nat, j: nat)
    requires i < j < |ops| && Succeeds(ops[i]) && Succeeds(ops[j])
    ensures Returned(ops, i) == 1 + Opens(ops[..i])
    ensures 1 <= Returned(ops, i) < Returned(ops, j)
  {
    HandlesCount(ops[..i]);
    HandlesCount(ops[..j]);
    assert ops[..i + 1][..i] == ops[..i];
    OpensMono(ops, i + 1, j);
  }

  lemma {:induction false} LiveBelow(ops: seq<Op>)
    ensures forall h :: h in Live(ops) ==> 1 <= h < Run(ops).nextHandle
    decreases |ops|
  {
    HandlesCount(ops);
    if ops != [] {
      LiveBelow(ops[..|ops| - 1]);
      HandlesCount(ops[..|ops| - 1]);
    }
  }

  /** Every handle used in the first n operations is live when it is used. */
  predicate Disciplined(ops: seq<Op>, n: nat)
    requires n <= |ops|
  {
    forall i :: 0 <= i < n && ops[i].Use? ==> ops[i].handle in Live(ops[..i])
  }

  lemma {:induction false} OneStep(ops: seq<Op>, i: nat)
    requires i < |ops| && Run(ops[..i]).files == Live(ops[..i])
    ensures Run(ops[..i + 1]).files == Live(ops[..i + 1]) <==>
            (ops[i].Use? ==> ops[i].handle in Live(ops[..i]))
  {
    assert ops[..i + 1][..i] == ops[..i];
    LiveBelow(ops[..i]);
    if ops[i].Use? && ops[i].handle !in Live(ops[..i]) {
      assert ops[i].handle in Run(ops[..i + 1]).files;
      assert ops[i].handle !in Live(ops[..i + 1]);
    }
  }

  lemma {:induction false} DisciplinedRun(ops: seq<Op>, n: nat)
    requires n <= |ops| && Disciplined(ops, n)
    ensures Run(ops[..n]).files == Live(ops[..n])
    decreases n
  {
    if n > 0 {
      DisciplinedRun(ops, n - 1);
      OneStep(ops, n - 1);
    }
  }

  /** In every state of a run the table holds exactly the files opened and not closed, each under
      the handle its open returned, exactly when every handle that is used is live at the time.
      (Closing an unknown handle does no harm.) */
  lemma {:induction false} TableIsLiveIff(ops: seq<Op>)
    ensures (forall n :: 0 <= n <= |ops| ==> Run(ops[..n]).files == Live(ops[..n])) <==> Disciplined(ops, |ops|)
  {
    if Disciplined(ops, |ops|) {
      forall n | 0 <= n <= |ops| ensures Run(ops[..n]).files == Live(ops[..n]) { DisciplinedRun(ops, n); }
    }
    if forall n :: 0 <= n <= |ops| ==> Run(ops[..n]).files == Live(ops[..n]) {
      forall i | 0 <= i < |ops| && ops[i].Use? ensures ops[i].handle in Live(ops[..i]) {
        assert Run(ops[..i]).files == Live(ops[..i]) && Run(ops[..i + 1]).files == Live(ops[..i + 1]);
        OneStep(ops, i);
      }
    }
  }

  /** One use of a handle before it is issued is enough to lose a file: the open that returns the
      handle leaves the empty stream in its place. */
  lemma {:induction false} EarlyUseLosesFile(path: string)
    ensures var ops := [Use(1), Open(path, "rb", true)];
            Succeeds(ops[1]) && Returned(ops, 1) == 1 && Run(ops).files == map[1 := Unopened] &&
            Live(ops) == map[1 := Opened(Sanitized(path), false)]
  {
    var ops := [Use(1), Open(path, "rb", true)];
    assert ops[..1] == [Use(1)] && [Use(1)][..0] == [];
    assert Run([Use(1)]) == After(Run([]), Use(1));
    assert Run(ops) == After(Run(ops[..1]), ops[1]);
    assert Live([Use(1)]) == Live([]);
  }
}
