/** Reading a resource: `dl_res_get_data` copies from the cursor and descrambles in place. */
module Resources {
  import opened Wrappers
  import opened Bytes
  import opened Ccdl
  import opened Dl

  /** `b ^ 0x40`: bit 6 flipped. */
  function Toggle(b: byte): (r: byte)
    ensures r != b
  {
    if b / 0x40 % 2 == 0 then b + 0x40 else b - 0x40
  }

  /** Toggle is the exclusive or of the bits. */
  lemma {:induction false} ToggleIsXor(b: bv8)
    ensures Toggle(b as int) == (b ^ 0x40) as int
    ensures Toggle(Toggle(b as int)) == b as int
  {
    if b & 0x40 == 0 {
      assert b ^ 0x40 == b + 0x40;
    } else {
      assert b ^ 0x40 == b - 0x40;
    }
  }

  datatype ReadResult = ReadResult(mem: seq<byte>, cursor: int)

  /** The loop that descrambles the first n bytes of the buffer, whatever was copied. */
  function Descramble(m: seq<byte>, buffer: nat, n: nat): (r: seq<byte>)
    ensures |r| == |m|
  {
    seq(|m|, i requires 0 <= i < |m| => if buffer <= i < buffer + n then Toggle(m[i]) else m[i])
  }

  /** Copy num bytes from src to the buffer, then descramble `count` bytes of the buffer. */
  function CopyDescramble(m: seq<byte>, src: nat, buffer: nat, num: nat, count: nat): (r: Option<seq<byte>>)
    ensures r.Some? ==> |r.value| == |m|
  {
    var m1 :- CopyBlock(m, buffer, src, num);
    if count == 0 then Some(m1)
    else if buffer + count > |m| then None
    else Some(Descramble(m1, buffer, count))
  }

  /** Read num bytes at the cursor, which moves on. The source address is the 32-bit sum of the
      file's address and the cursor. */
  function ReadAt(m: seq<byte>, base: nat, cursor: int, buffer: nat, num: nat, count: nat): Outcome<ReadResult> {
    match CopyDescramble(m, (base + cursor) % 0x1_0000_0000, buffer, num, count)
    case None => Fault
    case Some(m1) => Ok(ReadResult(m1, ToInt32(cursor + num)))
  }

  /** `dl_res_get_data`: size * count bytes, of which the first `count` are descrambled. */
  function GetDataSpec(m: seq<byte>, base: nat, cursor: int, buffer: nat, size: nat, count: nat): Outcome<ReadResult> {
    ReadAt(m, base, cursor, buffer, size * count, count)
  }

  method DlResGetData(mem: array<byte>, res: Resource, buffer: nat, size: nat, count: nat) returns (r: Outcome<nat>)
    modifies mem, res
    ensures var spec := GetDataSpec(old(mem[..]), res.dl.fileBytes, old(res.currentFileOffset), buffer, size, count);
            match spec
            case Ok(done) => r == Ok(size * count) && mem[..] == done.mem && res.currentFileOffset == done.cursor
            case _ => r == Fault
  {
    var numToRead := size * count;
    var ok := ReadInto(mem, (res.dl.fileBytes + res.currentFileOffset) % 0x1_0000_0000, buffer, numToRead, count);
    if !ok { return Fault; }
    res.currentFileOffset := ToInt32(res.currentFileOffset + numToRead);
    return Ok(numToRead);
  }

  method ReadInto(mem: array<byte>, src: nat, buffer: nat, num: nat, count: nat) returns (ok: bool)
    modifies mem
    ensures var r := CopyDescramble(old(mem[..]), src, buffer, num, count);
            ok == r.Some? && (ok ==> mem[..] == r.value)
  {
    ok := Copy(mem, buffer, src, num);
    if !ok { return; }
    if count > 0 {
      if buffer + count > mem.Length { return false; }
      DescrambleLoop(mem, buffer, count);
    }
    return true;
  }

  method DescrambleLoop(mem: array<byte>, buffer: nat, count: nat)
    requires buffer + count <= mem.Length
    modifies mem
    ensures mem[..] == Descramble(old(mem[..]), buffer, count)
  {
    for i := 0 to count
      invariant forall k :: 0 <= k < mem.Length ==>
                  mem[k] == if buffer <= k < buffer + i then Toggle(old(mem[k])) else old(mem[k])
    {
      mem[buffer + i] := Toggle(mem[buffer + i]);
    }
    ghost var want := Descramble(old(mem[..]), buffer, count);
    forall k | 0 <= k < mem.Length ensures mem[..][k] == want[k] {}
  }

  /** The blocks a read touches lie in memory. */
  predicate Reachable(memory: nat, src: nat, buffer: nat, num: nat, count: nat) {
    (num == 0 || (buffer + num <= memory && src + num <= memory)) && (count == 0 || buffer + count <= memory)
  }

  /** m1 is m with num bytes copied from src to the buffer, and after that the first `count` bytes of
      the buffer (copied or not) toggled. */
  predicate CopiedToggled(m: seq<byte>, m1: seq<byte>, src: nat, buffer: nat, num: nat, count: nat)
    requires Reachable(|m|, src, buffer, num, count)
  {
    |m1| == |m| &&
    forall x :: 0 <= x < |m| ==>
      var copied := if buffer <= x < buffer + num then m[src + x - buffer] else m[x];
      m1[x] == if buffer <= x < buffer + count then Toggle(copied) else copied
  }

  lemma {:induction false} CopyCells(m: seq<byte>, src: nat, buffer: nat, num: nat, count: nat)
    ensures var r := CopyDescramble(m, src, buffer, num, count);
            (r.Some? <==> Reachable(|m|, src, buffer, num, count)) &&
            (r.Some? ==> CopiedToggled(m, r.value, src, buffer, num, count))
  {
  }

  lemma {:induction false} ReadAtCells(m: seq<byte>, base: nat, cursor: int, buffer: nat, num: nat, count: nat)
    ensures var src := (base + cursor) % 0x1_0000_0000;
            var r := ReadAt(m, base, cursor, buffer, num, count);
            (r.Ok? <==> Reachable(|m|, src, buffer, num, count)) && (r.Ok? || r == Fault) &&
            (r.Ok? ==> r.value.cursor == ToInt32(cursor + num) && CopiedToggled(m, r.value.mem, src, buffer, num, count))
  {
    CopyCells(m, (base + cursor) % 0x1_0000_0000, buffer, num, count);
  }

  /** The whole effect of one read: it succeeds exactly when the blocks it touches lie in memory;
      then size * count bytes have been copied from the file's address plus the cursor, the first
      `count` bytes of the buffer toggled, and nothing else changed; and the cursor is the 32-bit
      sum. */
  lemma {:induction false} GetDataCells(m: seq<byte>, base: nat, cursor: int, buffer: nat, size: nat, count: nat)
    ensures var src, num := (base + cursor) % 0x1_0000_0000, size * count;
            var r := GetDataSpec(m, base, cursor, buffer, size, count);
            (r.Ok? <==> Reachable(|m|, src, buffer, num, count)) && (r.Ok? || r == Fault) &&
            (r.Ok? ==>
               -0x8000_0000 <= r.value.cursor < 0x8000_0000 && (r.value.cursor - (cursor + num)) % 0x1_0000_0000 == 0 &&
               CopiedToggled(m, r.value.mem, src, buffer, num, count))
  {
    ReadAtCells(m, base, cursor, buffer, size * count, count);
    ToInt32Is(cursor + size * count);
  }

  /** In terms of the resource: with its next bytes at the cursor and room in the buffer, a read
      delivers the first `count` of them toggled and the rest as they are. */
  lemma {:induction false} GetDataDelivers(m: seq<byte>, base: nat, cursor: nat, buffer: nat, size: nat, count: nat, raw: seq<byte>)
    requires Holds(m, base + cursor, raw) && |raw| == size * count
    requires cursor + |raw| < 0x8000_0000 && base + cursor < 0x1_0000_0000
    requires buffer + |raw| <= |m| && buffer + count <= |m|
    ensures var r := GetDataSpec(m, base, cursor, buffer, size, count);
            r.Ok? && |r.value.mem| == |m| && r.value.cursor == cursor + size * count &&
            forall i :: 0 <= i < |raw| ==> r.value.mem[buffer + i] == if i < count then Toggle(raw[i]) else raw[i]
  {
    ReadAtDelivers(m, base, cursor, buffer, count, raw);
  }

  lemma {:induction false} CopyDelivers(m: seq<byte>, src: nat, buffer: nat, count: nat, raw: seq<byte>)
    requires Holds(m, src, raw) && buffer + |raw| <= |m| && buffer + count <= |m|
    ensures var r := CopyDescramble(m, src, buffer, |raw|, count);
            r.Some? && |r.value| == |m| &&
            forall i :: 0 <= i < |raw| ==> r.value[buffer + i] == if i < count then Toggle(raw[i]) else raw[i]
  {
    CopyCells(m, src, buffer, |raw|, count);
    var after := CopyDescramble(m, src, buffer, |raw|, count).value;
    forall i | 0 <= i < |raw| ensures after[buffer + i] == if i < count then Toggle(raw[i]) else raw[i] {
      Cell(m, src, buffer, |raw|, count, after, i);
    }
  }

  lemma {:induction false} Cell(m: seq<byte>, src: nat, buffer: nat, num: nat, count: nat, after: seq<byte>, i: nat)
    requires i < num && CopyDescramble(m, src, buffer, num, count) == Some(after)
    ensures buffer + num <= |m| && src + num <= |m| && |after| == |m|
    ensures after[buffer + i] == if i < count then Toggle(m[src + i]) else m[src + i]
  {
    CopyCells(m, src, buffer, num, count);
    assert src + (buffer + i) - buffer == src + i;
  }

  lemma {:induction false} ReadAtDelivers(m: seq<byte>, base: nat, cursor: nat, buffer: nat, count: nat, raw: seq<byte>)
    requires Holds(m, base + cursor, raw)
    requires cursor + |raw| < 0x8000_0000 && base + cursor < 0x1_0000_0000
    requires buffer + |raw| <= |m| && buffer + count <= |m|
    ensures var r := ReadAt(m, base, cursor, buffer, |raw|, count);
            r.Ok? && |r.value.mem| == |m| && r.value.cursor == cursor + |raw| &&
            forall i :: 0 <= i < |raw| ==> r.value.mem[buffer + i] == if i < count then Toggle(raw[i]) else raw[i]
  {
    CopyDelivers(m, base + cursor, buffer, count, raw);
  }

  // ---------------------------------------------------------------- runs of reads

  /** One call of `dl_res_get_data`: where the data goes, element size, number of elements. */
  datatype Call = Call(buffer: nat, size: nat, count: nat)

  /** What a call reads: num bytes, of which the first `count` are descrambled. */
  datatype Piece = Piece(buffer: nat, num: nat, count: nat) {
    /** The call writes inside memory and outside [lo, hi). */
    predicate Avoids(memory: nat, lo: nat, hi: nat) {
      buffer + num <= memory && buffer + count <= memory &&
      ((buffer + num <= lo && buffer + count <= lo) || hi <= buffer)
    }
  }

  function PieceOf(c: Call): Piece { Piece(c.buffer, c.size * c.count, c.count) }

  function PiecesOf(calls: seq<Call>): (ps: seq<Piece>)
    ensures |ps| == |calls| && forall i :: 0 <= i < |calls| ==> ps[i] == PieceOf(calls[i])
  {
    seq(|calls|, i requires 0 <= i < |calls| => PieceOf(calls[i]))
  }

  function TotalBytes(ps: seq<Piece>): nat {
    if ps == [] then 0 else ps[0].num + TotalBytes(ps[1..])
  }

  function BufferAt(m: seq<byte>, buffer: nat, n: nat): seq<byte> {
    if n == 0 || buffer + n > |m| then [] else m[buffer..buffer + n]
  }

  /** The bytes a run of calls delivers, each taken from its buffer when the call returns, and
      the cursor after the run. */
  function Delivered(m: seq<byte>, base: nat, cursor: int, ps: seq<Piece>): Outcome<(seq<byte>, int)>
    decreases |ps|
  {
    if ps == [] then Ok(([], cursor))
    else
      var p := ps[0];
      var one :- ReadAt(m, base, cursor, p.buffer, p.num, p.count);
      var chunk := BufferAt(one.mem, p.buffer, p.num);
      var (rest, end) :- Delivered(one.mem, base, one.cursor, ps[1..]);
      Ok((chunk + rest, end))
  }

  /** The same for calls of `dl_res_get_data`. */
  function Reads(m: seq<byte>, base: nat, cursor: int, calls: seq<Call>): Outcome<(seq<byte>, int)>
    decreases |calls|
  {
    if calls == [] then Ok(([], cursor))
    else
      var c := calls[0];
      var one :- GetDataSpec(m, base, cursor, c.buffer, c.size, c.count);
      var chunk := BufferAt(one.mem, c.buffer, c.size * c.count);
      var (rest, end) :- Reads(one.mem, base, one.cursor, calls[1..]);
      Ok((chunk + rest, end))
  }

  lemma {:induction false} ReadsIsDelivered(m: seq<byte>, base: nat, cursor: int, calls: seq<Call>)
    ensures Reads(m, base, cursor, calls) == Delivered(m, base, cursor, PiecesOf(calls))
    decreases |calls|
  {
    if calls != [] {
      var c := calls[0];
      assert PiecesOf(calls)[0] == PieceOf(c) && PiecesOf(calls)[1..] == PiecesOf(calls[1..]);
      var one := GetDataSpec(m, base, cursor, c.buffer, c.size, c.count);
      if one.Ok? { ReadsIsDelivered(one.value.mem, base, one.value.cursor, calls[1..]); }
    }
  }

  function ToggleAll(s: seq<byte>): (r: seq<byte>)
    ensures |r| == |s| && forall i :: 0 <= i < |s| ==> r[i] == Toggle(s[i])
  {
    seq(|s|, i requires 0 <= i < |s| => Toggle(s[i]))
  }

  /** What one call delivers of the raw bytes it reads: the first `count` descrambled. */
  function Chunk(raw: seq<byte>, count: nat): (r: seq<byte>)
    ensures |r| == |raw|
  {
    seq(|raw|, i requires 0 <= i < |raw| => if i < count then Toggle(raw[i]) else raw[i])
  }

  predicate Clear(ps: seq<Piece>, memory: nat, lo: nat, hi: nat) {
    forall i :: 0 <= i < |ps| ==> ps[i].Avoids(memory, lo, hi)
  }

  lemma {:induction false} DescrambleCells(m: seq<byte>, buffer: nat, count: nat, data: seq<byte>)
    requires Holds(m, buffer, data)
    ensures Holds(Descramble(m, buffer, count), buffer, Chunk(data, count))
  {
    var r := Descramble(m, buffer, count);
    forall i | 0 <= i < |data| ensures r[buffer + i] == Chunk(data, count)[i] {
      assert m[buffer + i] == data[i];
    }
  }

  lemma {:induction false} DescrambleElsewhere(m: seq<byte>, buffer: nat, count: nat, src: nat, raw: seq<byte>)
    requires Holds(m, src, raw) && (buffer + count <= src || src + |raw| <= buffer)
    ensures Holds(Descramble(m, buffer, count), src, raw)
  {
  }

  lemma {:induction false} NothingToggled(data: seq<byte>)
    ensures Chunk(data, 0) == data
  {
  }

  /** One copy in the open: the chunk arrives, and the resource is untouched. */
  lemma {:induction false} OneCopy(m: seq<byte>, src: nat, buffer: nat, num: nat, count: nat, raw: seq<byte>)
    requires Holds(m, src, raw) && num <= |raw|
    requires buffer + num <= |m| && buffer + count <= |m|
    requires (buffer + num <= src && buffer + count <= src) || src + |raw| <= buffer
    ensures var r := CopyDescramble(m, src, buffer, num, count);
            r.Some? && Holds(r.value, src, raw) && Holds(r.value, buffer, Chunk(raw[..num], count))
  {
    var data := raw[..num];
    HoldsSlice(m, src, raw, 0, num);
    var m1 := CopyBlock(m, buffer, src, num).value;
    if num > 0 {
      WriteHolds(m, buffer, data);
      WriteElsewhere(m, buffer, data, src, raw);
    }
    assert Holds(m1, buffer, data) && Holds(m1, src, raw);
    if count > 0 {
      DescrambleCells(m1, buffer, count, data);
      DescrambleElsewhere(m1, buffer, count, src, raw);
    } else {
      NothingToggled(data);
    }
  }

  /** One read in the open: the chunk, the cursor, and the resource untouched. */
  lemma {:induction false} OneRead(m: seq<byte>, base: nat, cursor: nat, buffer: nat, num: nat, count: nat, raw: seq<byte>)
      returns (one: ReadResult)
    requires Holds(m, base + cursor, raw) && num <= |raw|
    requires cursor + num < 0x8000_0000 && base + cursor < 0x1_0000_0000
    requires buffer + num <= |m| && buffer + count <= |m|
    requires (buffer + num <= base + cursor && buffer + count <= base + cursor) || base + cursor + |raw| <= buffer
    ensures ReadAt(m, base, cursor, buffer, num, count) == Ok(one)
    ensures |one.mem| == |m| && one.cursor == cursor + num && Holds(one.mem, base + one.cursor, raw[num..])
    ensures BufferAt(one.mem, buffer, num) == Chunk(raw[..num], count)
  {
    var src := base + cursor;
    OneCopy(m, src, buffer, num, count, raw);
    var m1 := CopyDescramble(m, src, buffer, num, count).value;
    one := ReadResult(m1, cursor + num);
    assert src % 0x1_0000_0000 == src && ToInt32(cursor + num) == cursor + num;
    HoldsSlice(m1, src, raw, num, |raw|);
    HoldsIsSlice(m1, buffer, Chunk(raw[..num], count));
  }

  /** Concatenation of the chunks a run of calls cuts the raw bytes into. */
  function Chunks(raw: seq<byte>, ps: seq<Piece>): (r: seq<byte>)
    requires TotalBytes(ps) <= |raw|
    ensures |r| == TotalBytes(ps)
    decreases |ps|
  {
    if ps == [] then [] else
      Chunk(raw[..ps[0].num], ps[0].count) + Chunks(raw[ps[0].num..], ps[1..])
  }

  lemma {:induction false} ChunksCons(raw: seq<byte>, p: Piece, ps: seq<Piece>)
    requires p.num + TotalBytes(ps) <= |raw|
    ensures TotalBytes([p] + ps) == p.num + TotalBytes(ps)
    ensures Chunks(raw, [p] + ps) == Chunk(raw[..p.num], p.count) + Chunks(raw[p.num..], ps)
  {
    var all := [p] + ps;
    assert all[0] == p && all[1..] == ps;
  }

  /** One more call in front of a run. */
  lemma {:induction false} DeliveredCons(m: seq<byte>, base: nat, cursor: int, p: Piece, ps: seq<Piece>,
                                         one: ReadResult, rest: seq<byte>, end: int)
    requires ReadAt(m, base, cursor, p.buffer, p.num, p.count) == Ok(one)
    requires Delivered(one.mem, base, one.cursor, ps) == Ok((rest, end))
    ensures Delivered(m, base, cursor, [p] + ps) == Ok((BufferAt(one.mem, p.buffer, p.num) + rest, end))
  {
    var all := [p] + ps;
    assert all[0] == p && all[1..] == ps;
  }

  lemma {:induction false} ClearTail(p: Piece, ps: seq<Piece>, size: nat, lo: nat, hi: nat, n: nat)
    requires Clear([p] + ps, size, lo, hi) && lo + n <= hi
    ensures p.Avoids(size, lo, hi) && Clear(ps, size, lo + n, hi)
  {
    var all := [p] + ps;
    assert all[0].Avoids(size, lo, hi);
    forall i | 0 <= i < |ps| ensures ps[i].Avoids(size, lo + n, hi) {
      assert all[i + 1] == ps[i];
    }
  }

  /** A run of calls inside the resource delivers the chunks and leaves the cursor at the start
      plus the bytes read. */
  lemma {:induction false} RunDelivers(m: seq<byte>, base: nat, cursor: nat, ps: seq<Piece>, raw: seq<byte>)
    requires Holds(m, base + cursor, raw) && TotalBytes(ps) <= |raw|
    requires cursor + |raw| < 0x8000_0000 && base + cursor + |raw| < 0x1_0000_0000
    requires Clear(ps, |m|, base + cursor, base + cursor + |raw|)
    ensures Delivered(m, base, cursor, ps) == Ok((Chunks(raw, ps), cursor + TotalBytes(ps)))
    decreases |ps|, 1
  {
    if ps != [] {
      assert ps == [ps[0]] + ps[1..];
      RunCons(m, base, cursor, ps[0], ps[1..], raw);
    }
  }

  lemma {:induction false} RunCons(m: seq<byte>, base: nat, cursor: nat, p: Piece, rest: seq<Piece>, raw: seq<byte>)
    requires Holds(m, base + cursor, raw) && p.num + TotalBytes(rest) <= |raw|
    requires cursor + |raw| < 0x8000_0000 && base + cursor + |raw| < 0x1_0000_0000
    requires Clear([p] + rest, |m|, base + cursor, base + cursor + |raw|)
    ensures TotalBytes([p] + rest) <= |raw|
    ensures Delivered(m, base, cursor, [p] + rest) == Ok((Chunks(raw, [p] + rest), cursor + TotalBytes([p] + rest)))
    decreases |rest| + 1, 0
  {
    ClearTail(p, rest, |m|, base + cursor, base + cursor + |raw|, p.num);
    var one := OneRead(m, base, cursor, p.buffer, p.num, p.count, raw);
    RunDelivers(one.mem, base, one.cursor, rest, raw[p.num..]);
    RunJoin(m, base, cursor, p, rest, raw, one);
  }

  lemma {:induction false} RunJoin(m: seq<byte>, base: nat, cursor: nat, p: Piece, rest: seq<Piece>, raw: seq<byte>, one: ReadResult)
    requires p.num + TotalBytes(rest) <= |raw| && one.cursor == cursor + p.num
    requires ReadAt(m, base, cursor, p.buffer, p.num, p.count) == Ok(one)
    requires BufferAt(one.mem, p.buffer, p.num) == Chunk(raw[..p.num], p.count)
    requires Delivered(one.mem, base, one.cursor, rest) == Ok((Chunks(raw[p.num..], rest), one.cursor + TotalBytes(rest)))
    ensures TotalBytes([p] + rest) <= |raw|
    ensures Delivered(m, base, cursor, [p] + rest) == Ok((Chunks(raw, [p] + rest), cursor + TotalBytes([p] + rest)))
  {
    ChunksCons(raw, p, rest);
    DeliveredCons(m, base, cursor, p, rest, one, Chunks(raw[p.num..], rest), one.cursor + TotalBytes(rest));
  }

  // ---------------------------------------------------------------- chunking

  lemma {:induction false} ChunkWholeIff(raw: seq<byte>, count: nat)
    ensures Chunk(raw, count) == ToggleAll(raw) <==> |raw| <= count
  {
    if count < |raw| {
      assert Chunk(raw, count)[count] == raw[count] != ToggleAll(raw)[count];
    }
  }

  lemma {:induction false} ConcatEq(a: seq<byte>, b: seq<byte>, c: seq<byte>, d: seq<byte>)
    requires |a| == |c|
    ensures a + b == c + d <==> a == c && b == d
  {
    if a + b == c + d {
      assert (a + b)[..|a|] == a && (c + d)[..|c|] == c;
      assert (a + b)[|a|..] == b && (c + d)[|c|..] == d;
    }
  }

  /** The chunks together are the descrambled bytes exactly when every call descrambles all it
      reads. */
  lemma {:induction false} ChunksWholeIff(raw: seq<byte>, ps: seq<Piece>)
    requires TotalBytes(ps) == |raw|
    ensures Chunks(raw, ps) == ToggleAll(raw) <==> forall i :: 0 <= i < |ps| ==> ps[i].num <= ps[i].count
    decreases |ps|
  {
    if ps != [] {
      var p, more := ps[0], ps[1..];
      var front, rest := raw[..p.num], raw[p.num..];
      assert ps == [p] + more;
      assert ToggleAll(raw) == ToggleAll(front) + ToggleAll(rest);
      ChunksCons(raw, p, more);
      ConcatEq(Chunk(front, p.count), Chunks(rest, more), ToggleAll(front), ToggleAll(rest));
      ChunkWholeIff(front, p.count);
      ChunksWholeIff(rest, more);
      assert forall i :: 0 <= i < |more| ==> ps[i + 1] == more[i];
    }
  }

  /** A call descrambles all it reads exactly when its elements are single bytes (or empty) or it
      reads nothing. */
  predicate Whole(c: Call) { c.size <= 1 || c.count == 0 }

  lemma {:induction false} WholeIff(size: nat, count: nat)
    ensures size * count <= count <==> size <= 1 || count == 0
  {
    if size >= 2 {
      assert size * count == count + (size - 1) * count;
      if count >= 1 { assert (size - 1) * count >= 1; }
    }
  }

  /** Reading a resource in pieces: what arrives is the resource's bytes descrambled, with the
      cursor where one read of everything leaves it, exactly when every piece was read with
      single-byte elements (or was empty). */
  lemma {:induction false} ChunkingIndependent(m: seq<byte>, base: nat, cursor: nat, calls: seq<Call>, raw: seq<byte>)
    requires Holds(m, base + cursor, raw) && TotalBytes(PiecesOf(calls)) == |raw|
    requires cursor + |raw| < 0x8000_0000 && base + cursor + |raw| < 0x1_0000_0000
    requires Clear(PiecesOf(calls), |m|, base + cursor, base + cursor + |raw|)
    ensures Reads(m, base, cursor, calls).Ok?
    ensures Reads(m, base, cursor, calls).value.1 == cursor + |raw|
    ensures Reads(m, base, cursor, calls).value.0 == ToggleAll(raw) <==>
            forall i :: 0 <= i < |calls| ==> Whole(calls[i])
  {
    var ps := PiecesOf(calls);
    ReadsIsDelivered(m, base, cursor, calls);
    RunDelivers(m, base, cursor, ps, raw);
    ChunksWholeIff(raw, ps);
    forall i | 0 <= i < |calls| ensures ps[i].num <= ps[i].count <==> Whole(calls[i]) {
      WholeIff(calls[i].size, calls[i].count);
    }
  }
}
