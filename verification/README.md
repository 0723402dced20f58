# Verified model of the index geometry and of the CCDL load and call path

This project states, in Dafny, what two parts of the emulator do and proves it for all inputs.

**Index geometry** (`multi_span`). An index space of any rank is a sequence of extents. `Index` is
the independent reference: the number of cells, the row-major position of an index (`Rank`) and the
index at a position (`Unrank`). Against it stand

- the recursive chain of fixed and dynamic extents (`BoundsRanges`) and the extents with explicit
  strides (`StridedBounds`);
- the index iterator, twice: as functions on sequences with everything proved about them
  (`Odometer`, `Traversal`), and as an object that rewrites its index buffer in place, each of whose
  methods computes exactly the function of the same operation (`BoundsIterator`);
- spans: element access, single-index slicing, sections (`Spans`), and reading bytes as wider
  elements (`WideSpans`).

The central result is `Odometer.RunIsCounter`: over every sequence of `++`, `--` and `+= n`, from
every index an iterator can hold, the odometer is a counter that fails exactly when the counter
fails. Jumps equal steps, `--` undoes `++`, and the traversal of the space are consequences.

**The CCDL file and the call path** (`dl.c`, `minisys.c`, `make-thunks.py`, the interrupt hook of
`ccdl.cpp`). Target memory is a sequence of bytes. `Ccdl` says what the pointer-walking loops obtain
from memory and what they write; `Dl` and `Resources` are the entry points over a memory array,
each proved equal to its function. `Image` reads a file as a value on its own and proves that
loading has exactly the effect the file asks for wherever the file lies. `Layout` says when a file is
laid out as given contents, leaving open everything the format leaves open (tags and unused words,
the order and place of bodies, where names are kept), and proves that the loops read the contents
back; `Encoder` writes such a file for any contents. `Arm` gives the meaning of the
four machine words an imported call goes through (ARM Architecture Reference Manual, DDI 0100I,
sections A4.1.23, A4.1.107 and A4.1.10; ARM state, ARMv5TE). `Thunks` is the generator script.
`EndToEnd` joins them, for every file the loader can load: from the file and a list of functions to
the handler the hook calls, and back to the caller; and for files given by their contents.

**Supporting pieces**: checked narrowing and the one-comparison range check (`Narrowing`), and the
file handle table (`Filesystem`).

## How to read the model

- A failed `Expects`, `narrow`'s termination and a null result are `None`. In target code an access
  outside memory is `Fault` and `ccos_panic` is `Panic`; neither returns to the caller.
- Each loop of the source is a loop here, and its method's `ensures` equates the result or the new
  state with a function; the lemmas are about that function.
- Template rank is the length of a sequence, at least 1. The line `stride = 0` at
  the head of `+=` is read as the all-zero index.
- The host's answer whether a file can be opened, the address the linker gives a C name and the
  place the file is read to are parameters.

## Where the code does less than its description

Each of these is proved with the exact condition under which the code does what is expected.

- A dynamic level of `BoundsRanges` compares only the upper end, so `linearize` lets some indices
  with a negative component through: it rejects everything outside the space exactly when every
  extent is fixed (`BoundsRanges.ChecksCompleteIffAllStatic`).
- `static_bounds::contains` answers "no" for every index (`BoundsRanges.ContainsIsNever`).
- With zero extents the walk from `begin()` to `end()` takes as many steps as there are cells
  exactly when no extent is zero or all are (`Traversal.StepsAreCellsIff`).
- A jump to the end leaves another index than single steps do, except at rank 1
  (`Odometer.JumpToEnd`); `++` and `+= 1` agree on exactly the indices listed in
  `Odometer.IncIsJumpForwardIff`.
- A section's checks guard the upper end only. From a negative origin a section can start before its
  parent's memory: an accepted section stays inside it exactly when the offset of its origin is not
  negative (`Spans.SectionInsideIff`, `Spans.NegativeOriginEscapes`).
- From non-negative origins, every accepted section lies inside its parent dimension by dimension
  exactly when in each dimension one step past the extent is past the last cell
  (`Spans.AcceptedFitsIff`); for a contiguous parent, exactly when every extent but the innermost is
  one (`Spans.ContiguousFitsIff`).
- A single-index slice of a strided span is accepted for every negative component; for the others it
  is accepted exactly inside the outermost extent iff the first component past it fails one of the
  two comparisons (`Spans.SliceChecksIff`, `Spans.SlicesEscape`).
- `dl_res_get_data` descrambles only `count` bytes of `size * count`: reading in pieces is reading
  at once exactly when every piece has `size` at most 1 or `count` 0 (`Resources.ChunkingIndependent`).
- Two functions can get one C name: with distinct names, exactly when one that is no stub is called
  "stub_" and the name of a stub (`Thunks.CNamesDistinctIff`).
- The hook keeps 16 bits of the interrupt number, so each function reaches its own handler exactly
  when there are at most 65536 emulated ones (`Thunks.DispatchCorrectIff`).
- The handle table is right in every state of a run exactly when every handle read from, written to
  or positioned is open at the time (`Filesystem.TableIsLiveIff`).
- `CheckRange` is the range check exactly when the size is not negative, or the index type is wider
  than `size_t` (`Narrowing.CheckRangeIff`).

## Model

| member | source | states |
|---|---|---|
| Odometer.RunIsCounter | dependencies/GSL/include/gsl/multi_span:860-949 | every run of `++`, `--` and `+=` from every index an iterator can hold is the run of a counter: the same failures, and the final index is the one of the counter's final position |
| Odometer.ApplyIsCount | dependencies/GSL/include/gsl/multi_span:860-937 | one operation keeps the set of indices an iterator can hold and is one operation of the counter |
| Odometer.JumpExact | dependencies/GSL/include/gsl/multi_span:923-937 | the check of `+= n` passes iff 0 <= linear + n < size + stride 0, from any index whatever and with truncated division; the result then has linear position exactly linear + n |
| Odometer.JumpsAdd | dependencies/GSL/include/gsl/multi_span:923-949 | after an accepted jump, a second jump is one jump by the sum, accepted or refused alike; the distance between the iterators is the jump |
| Odometer.JumpIsSteps | dependencies/GSL/include/gsl/multi_span:861-876 | a jump that lands inside the space gives the index that n single steps give |
| Odometer.JumpToEnd | dependencies/GSL/include/gsl/multi_span:923-937 | a jump onto the end gives (b0, 0, ..., 0) where steps give the boundary; both have position size, and they are one index iff the rank is 1 |
| Odometer.DecUndoesInc | dependencies/GSL/include/gsl/multi_span:886-907 | `--` after `++` restores every in-range index, through the end included |
| Odometer.DecFailsIff | dependencies/GSL/include/gsl/multi_span:886-907 | in range, `--` fails iff the index is the first |
| Odometer.DecFromEnd | dependencies/GSL/include/gsl/multi_span:889-897 | from either form of the end `--` gives the last index |
| Odometer.PastEveryBound | dependencies/GSL/include/gsl/multi_span:889-897 | an index at or past every bound steps back to the last index, and its linear position is one more than that of the index before it |
| Odometer.DecIsJumpBack | dependencies/GSL/include/gsl/multi_span:886-907 | `--` is `+= -1` on every index an iterator can hold, failures included |
| Odometer.IncIsJumpForwardIff | dependencies/GSL/include/gsl/multi_span:861-876 | exactly when `++` and `+= 1` agree |
| Odometer.StepIsSuccessor | dependencies/GSL/include/gsl/multi_span:861-876 | the carry loop gives the index at the next position, and wraps everywhere iff there is none |
| Odometer.StepBackIsPredecessor | dependencies/GSL/include/gsl/multi_span:898-906 | the borrow loop gives the index at the previous position, and fails iff there is none |
| Odometer.LinOfLanding | dependencies/GSL/include/gsl/multi_span:990-1014 | both branches of `linearize` give the row-major position on every landing of a jump |
| Traversal.FullTraversal | dependencies/GSL/include/gsl/multi_span:720-725 | with positive extents the walk from begin() visits every in-range index exactly once, in lexicographic order, and is at end() after product-of-extents steps and not before |
| Traversal.TraversalMeasure | dependencies/GSL/include/gsl/multi_span:990-1014 | size - linearize(curr) falls by one with each step and is 0 at the end |
| Traversal.FirstEnd | dependencies/GSL/include/gsl/multi_span:720-725 | for any extents, zero ones included, the number of steps to the first end() |
| Traversal.StepsAreCellsIff | dependencies/GSL/include/gsl/multi_span:861-876 | that number is the number of cells iff no extent is zero or all are |
| BoundsIterator.Iterator.Begin | dependencies/GSL/include/gsl/multi_span:720 | the zero index |
| BoundsIterator.Iterator.End | dependencies/GSL/include/gsl/multi_span:722-725 | the boundary as index |
| BoundsIterator.Iterator.Increment | dependencies/GSL/include/gsl/multi_span:861-876 | the buffer holds the index after `++` |
| BoundsIterator.Iterator.Decrement | dependencies/GSL/include/gsl/multi_span:886-907 | the buffer holds the index after `--`, or the check failed |
| BoundsIterator.Iterator.Borrow | dependencies/GSL/include/gsl/multi_span:898-906 | the borrow loop on the buffer |
| BoundsIterator.Iterator.Advance | dependencies/GSL/include/gsl/multi_span:923-937 | the buffer holds the index after `+= n`, or the check failed |
| BoundsIterator.Iterator.SetDigits | dependencies/GSL/include/gsl/multi_span:929-933 | the division loop writes the mixed-radix digits of the target |
| BoundsIterator.Iterator.RowMajorStrides | dependencies/GSL/include/gsl/multi_span:926-928 | the stride array is the row-major strides |
| BoundsIterator.Iterator.IsLess | dependencies/GSL/include/gsl/multi_span:980-988 | true iff some component is smaller |
| BoundsIterator.Iterator.Linearize | dependencies/GSL/include/gsl/multi_span:990-1014 | the linear position, both branches |
| BoundsIterator.Iterator.Difference | dependencies/GSL/include/gsl/multi_span:947-950 | difference of the linear positions |
| Index.RankOfUnrank | dependencies/GSL/include/gsl/multi_span:385-390 | every position below the size is the position of one in-range index |
| Index.UnrankOfRank | dependencies/GSL/include/gsl/multi_span:385-390 | an in-range index is the index at its position |
| Index.RankIsLexOrder | dependencies/GSL/include/gsl/multi_span:460-467 | row-major position is the lexicographic order |
| Index.RankIsDot | dependencies/GSL/include/gsl/multi_span:1043-1056 | the recursive (Horner) form is the dot product with the row-major strides |
| BoundsRanges.MakeRepresents | dependencies/GSL/include/gsl/multi_span:361-367 | construction succeeds iff the run-time extents are not negative, and stores the products of the extents described |
| BoundsRanges.ExtentsRoundTrip | dependencies/GSL/include/gsl/multi_span:377-380 | dividing the stored products again gives back the extents |
| BoundsRanges.LinearizeExact | dependencies/GSL/include/gsl/multi_span:385-390 | exactly which indices the checks let through, and that the offset is the row-major position |
| BoundsRanges.LinearizeBijection | dependencies/GSL/include/gsl/multi_span:460-467 | `linearize` maps the index space one-to-one onto [0, totalSize) and keeps the lexicographic order |
| BoundsRanges.ChecksCompleteIffAllStatic | dependencies/GSL/include/gsl/multi_span:385-390 | the checks reject every index outside the space iff no extent is dynamic |
| BoundsRanges.ContainsIsNever | dependencies/GSL/include/gsl/multi_span:332-335 | `contains` is -1 for every index |
| BoundsRanges.EmptyRejects | dependencies/GSL/include/gsl/multi_span:385-390 | with a zero extent every non-negative index is rejected |
| StridedBounds.Bounds.TotalSize | dependencies/GSL/include/gsl/multi_span:764-769 | one more than the offset of the last index |
| StridedBounds.Bounds.CellCount | dependencies/GSL/include/gsl/multi_span:772-777 | product of the extents |
| StridedBounds.Bounds.Contains | dependencies/GSL/include/gsl/multi_span:779-786 | true iff the index is in range |
| StridedBounds.Bounds.Linearize | dependencies/GSL/include/gsl/multi_span:789-798 | the dot product with the strides iff every component is below its extent |
| StridedBounds.ShiftLeft | dependencies/GSL/include/gsl/multi_span:546-555 | the index without its outermost component |
| StridedBounds.MakeStride | dependencies/GSL/include/gsl/multi_span:1043-1056 | strides built from the inside out are the products of the inner extents |
| StridedBounds.CellsFit | dependencies/GSL/include/gsl/multi_span:764-798 | every cell's offset lies in [0, total_size) and the upper end is reached |
| StridedBounds.AcceptedInsideIff | dependencies/GSL/include/gsl/multi_span:789-798 | an index the check lets through has its offset inside iff the offset is not negative |
| StridedBounds.ContiguousTotal | dependencies/GSL/include/gsl/multi_span:764-769 | for row-major strides 1 + sum of (extent - 1) * stride is the product of the extents |
| Spans.MadeIff | dependencies/GSL/include/gsl/multi_span:1820-1828 | a strided span is made iff its last cell is below the size and it has an address unless some extent is zero |
| Spans.MadeMultiIff | dependencies/GSL/include/gsl/multi_span:1295-1299 | a contiguous one iff it has an address unless some extent is zero |
| Spans.SectionExact | dependencies/GSL/include/gsl/multi_span:1873-1878 | when a strided section is accepted |
| Spans.SectionCells | dependencies/GSL/include/gsl/multi_span:1873-1878 | a section inside its parent passes the constructor's check, and its cell idx is the parent's cell origin + idx |
| Spans.SectionsCompose | dependencies/GSL/include/gsl/multi_span:1873-1878 | a section of a section is one section at the summed origin |
| Spans.SectionInsideIff | dependencies/GSL/include/gsl/multi_span:1873-1878 | the cells of an accepted section are the parent's cells at origin + idx, and all lie in the parent's memory iff the offset of the origin is not negative |
| Spans.SectionOffset | dependencies/GSL/include/gsl/multi_span:1820-1828 | no cell of an accepted section is past the parent's last cell or before the section's origin |
| Spans.NegativeOriginAccepted | dependencies/GSL/include/gsl/multi_span:789-798 | a single cell one step before the first along any dimension is accepted, one stride before the parent's memory |
| Spans.NegativeOriginEscapes | dependencies/GSL/include/gsl/multi_span:1873-1878 | the section of extent 2 at origin -1 of three cells is accepted and its first cell is one element before them |
| Spans.AcceptedFitsIff | dependencies/GSL/include/gsl/multi_span:1820-1828 | for non-negative origins acceptance means lying inside, for all sections, iff extent * stride reaches the total size in every dimension of the parent |
| Spans.ContiguousFitsIff | dependencies/GSL/include/gsl/multi_span:1471-1476 | for a contiguous parent, iff every extent but the innermost is one |
| Spans.AcceptedSectionNeedNotFit | dependencies/GSL/include/gsl/multi_span:1820-1828 | the instance of 2 x 3: an accepted section whose cell (0, 2) is the parent's (1, 0) |
| Spans.SectionTraversal | dependencies/GSL/include/gsl/multi_span:2165-2182 | the k-th position of a section's iterator dereferences to the parent's cell at origin + the k-th index |
| Spans.ContiguousIsStrided | dependencies/GSL/include/gsl/multi_span:1471-1476 | a contiguous span and its strided view have the same cells and the same sections for every index and origin its checks let through; the others are refused |
| Spans.ContiguousSection | dependencies/GSL/include/gsl/multi_span:1471-1476 | a section inside a contiguous span is accepted and addresses the parent's cells |
| Spans.SliceExact | dependencies/GSL/include/gsl/multi_span:1887-1896 | when a strided slice is accepted, for any component, and where it starts |
| Spans.SliceChecksIff | dependencies/GSL/include/gsl/multi_span:1890-1894 | for non-negative components the checks accept exactly the outermost extent iff extent * stride reaches the total size or the extent reaches the number of cells |
| Spans.NegativeSliceAccepted | dependencies/GSL/include/gsl/multi_span:1890-1894 | every negative component is accepted and starts before the parent's memory unless the stride is zero |
| Spans.SlicesEscape | dependencies/GSL/include/gsl/multi_span:1887-1896 | two accepted slices with cells outside the parent's memory, below and above |
| Spans.SliceAccepted | dependencies/GSL/include/gsl/multi_span:1887-1896 | every component of the outermost extent passes all the checks |
| Spans.SliceCell | dependencies/GSL/include/gsl/multi_span:1887-1896 | a slice's cell is the span's cell with the sliced component in front |
| Spans.NestedIsCell | dependencies/GSL/include/gsl/multi_span:1881-1896 | slicing a strided span component by component reaches the cell of the whole index; nothing fails on the way |
| Spans.SliceMultiExact | dependencies/GSL/include/gsl/multi_span:1536-1546 | a contiguous slice is accepted iff the component is in the outermost extent |
| Spans.NestedMultiIsCell | dependencies/GSL/include/gsl/multi_span:1530-1546 | the same for contiguous spans, whatever mix of fixed and dynamic extents |
| WideSpans.ResizeStride | dependencies/GSL/include/gsl/multi_span:2000-2030 | accepts iff the innermost stride is 1, the next is at least d and a multiple of it, and each is a positive multiple of the one inside it; divides all but the last |
| WideSpans.SectionAsWideIff | dependencies/GSL/include/gsl/multi_span:1857-1871 | bytes laid out row by row are reinterpreted iff a row holds whole elements; a section of them, iff its rows and, at rank 2 and above, the rows it is cut from do |
| WideSpans.RowMajorResizableIff | dependencies/GSL/include/gsl/multi_span:2012-2030 | row-major strides pass iff the rank is 1 or the innermost extent is a multiple of d |
| WideSpans.StridesDivisible | dependencies/GSL/include/gsl/multi_span:2012-2030 | the chain of multiples makes every stride but the last divisible by the element size |
| WideSpans.AsWideExact | dependencies/GSL/include/gsl/multi_span:1857-1871 | reinterpretation succeeds iff the demands on extents and strides hold, so the constructor's check never fails by itself; the byte size is exactly d times the new size |
| WideSpans.WideCell | dependencies/GSL/include/gsl/multi_span:1857-1871 | byte k of wide element idx is the byte cell at idx with its last component times d plus k |
| WideSpans.EveryByteIsCovered | dependencies/GSL/include/gsl/multi_span:1857-1871 | every byte cell of the span is a byte of one wide element |
| EndToEnd.ImportedCall | libccos/src/dl.c:80-92 | after a successful load of any loadable file, executing the stub of an import (aligned, not overwritten by a later stub) branches to the address of the first OS function of that name and leaves the registers |
| EndToEnd.EmulatedCall | src/ccdl.cpp:34-44 | in any loadable file, if that function is an emulated one, the next instruction traps and the hook selects the handler at the number's low 16 bits: with at most 65536 emulated functions, the handler of the imported name |
| EndToEnd.EmulatedTraps | make-thunks.py:80-87 | the trap has the registers of the call, and the return instruction at its return address |
| EndToEnd.EmulatedCallReturns | make-thunks.py:80-87 | if the handler keeps the link register and the word at the return address, the next step returns to the caller of the stub |
| EndToEnd.SmallSystem | libccos/src/dl.c:80-92 | for every name, a whole system (file, thunk, tables) that meets the demands of EmulatedCall, in which calling the import reaches the name's handler |
| EndToEnd.StubBranches | libccos/src/dl.c:88-91 | the two words are a jump to the second word that changes no register |
| EndToEnd.ThunkTraps | make-thunks.py:80-87 | a thunk's first word traps with the second word's address as return address |
| EndToEnd.ThunkReturns | make-thunks.py:80-87 | its second word returns to the caller |
| EndToEnd.LoadOfContents | libccos/src/dl.c:16-109 | loading any file with given contents writes the first code section and then the stubs of the first import section in order, nothing else; it returns iff the OS table has every imported name |
| EndToEnd.UntouchedHolds | libccos/src/dl.c:34-95 | memory outside the code and the stubs is unchanged by loading |
| EndToEnd.FileSurvives | libccos/src/dl.c:58-95 | any loadable file is itself unchanged by loading |
| EndToEnd.GetProcAfterLoad | libccos/src/dl.c:111-153 | after loading any file, lookup by name is first-wins lookup in its first export section followed by the OS table |
| EndToEnd.ReadAfterLoad | libccos/src/dl.c:155-216 | after loading any file, opening a resource by name and reading it in pieces delivers its bytes descrambled iff every piece has single-byte elements (or is empty) |
| EndToEnd.GetProcOfContents | libccos/src/dl.c:111-153 | the same lookup in terms of the contents' exports |
| EndToEnd.ReadFileOfContents | libccos/src/dl.c:155-216 | the same reading in terms of the contents: the k-th file, by its name, every byte toggled |
| EndToEnd.LookupRow | make-thunks.py:142-146 | a name looks up to the address of the C function of the first row with it |
| Image.LoadIsEffect | libccos/src/dl.c:16-109 | wherever a file lies, loading has exactly the effect read off the file alone: its code and then its stubs |
| Image.LoadSucceedsIff | libccos/src/dl.c:58-95 | the load returns iff every name of the first import section is in the OS table, and otherwise panics |
| Image.LoadCells | libccos/src/dl.c:34-95 | every cell of memory after a load: the last stub over it, else the code byte, else the old byte |
| Image.StubInPlace | libccos/src/dl.c:80-92 | a stub no later stub overlaps is in memory after loading |
| Image.LinkElsewhere | libccos/src/dl.c:80-92 | memory outside the stubs is unchanged |
| Image.GetProcIsLookup | libccos/src/dl.c:111-153 | `dl_get_proc` is lookup in the concatenation of the first export section and the OS table; a name in neither does not return |
| Ccdl.Load | libccos/src/dl.c:16-56 | a rejected file leaves memory as it was |
| Ccdl.BadHeaderRejected | libccos/src/dl.c:23-31 | another signature, version or second version word is rejected, whatever follows, with memory unchanged |
| Layout.NoCodeRejected | libccos/src/dl.c:53-56 | a file without a code section is rejected with memory unchanged |
| Ccdl.StringTableWraps | libccos/src/dl.c:76 | the place of the names depends on the entry count modulo 2^28 only |
| Dl.CcdlFromMemory | libccos/src/dl.c:16-109 | memory and status after the loops; the library record is set on success and untouched otherwise |
| Dl.FirstSection | libccos/src/dl.c:37-51 | the header loop finds the first section of a type |
| Dl.PatchLoop | libccos/src/dl.c:80-92 | the patch loop with its moving pointer |
| Dl.DlGetProc | libccos/src/dl.c:111-153 | the export loop and the fallback |
| Dl.DlResOpen | libccos/src/dl.c:155-196 | a fresh cursor at the first matching entry, or null |
| OsTable.CcosGetBuiltinProc | minisys/minisys.c:41-51 | the search loop, which panics at the end of the table |
| OsTable.BuiltinIsLookup | minisys/minisys.c:41-51 | on a terminated name the search is first-wins lookup |
| OsTable.LookupIsFirst | minisys/minisys.c:41-47 | lookup returns the first row of the name and fails iff there is none |
| Bytes.Strcmp | libccos/src/dl.c:144 | comparison with a name in memory, reading no further than the first difference |
| Bytes.HeldStringEq | libccos/src/dl.c:144 | on a terminated string it is equality of the strings |
| Layout.CodeRoundTrip | libccos/src/dl.c:37-56 | load address, entry point and bytes of the first code section are read back from any file with the contents |
| Layout.EntriesRoundTrip | libccos/src/dl.c:70-92 | names and addresses of the first import or export section are read back in order, wherever names are kept |
| Layout.ResourcesRoundTrip | libccos/src/dl.c:168-190 | name, size and data of every file of the first resource section are read back, wherever the data is |
| Layout.ScanLaid | libccos/include/libccos/dl.h:24-38 | the scan finds the header of the first section of a type, whatever its tag and unused words |
| Encoder.EncodeLays | libccos/include/libccos/dl.h:9-56 | every list of sections that fits a 32-bit file has a file with those contents |
| ImageResources.OpenIsLookup | libccos/src/dl.c:155-196 | `dl_res_open` is first-wins lookup in the resource table |
| ImageResources.OpenAndRead | libccos/src/dl.c:155-216 | opening by name and reading in pieces delivers the resource's bytes descrambled iff every piece has single-byte elements (or is empty) |
| Resources.ChunkingIndependent | libccos/src/dl.c:203-216 | the same for a cursor anywhere; the cursor ends at start plus the bytes read |
| Resources.RunDelivers | libccos/src/dl.c:203-216 | exactly what a run of reads delivers, piece by piece, for any element sizes |
| Resources.DlResGetData | libccos/src/dl.c:203-216 | the method returns size * count, with the memory and the cursor that GetDataCells describes |
| Resources.GetDataCells | libccos/src/dl.c:206-215 | one read succeeds iff the blocks it touches lie in memory; then every cell of memory: size * count bytes copied from the file at the cursor, the first `count` bytes of the buffer toggled, nothing else; the cursor moves by size * count as a 32-bit `int` |
| Resources.GetDataDelivers | libccos/src/dl.c:206-215 | in terms of the resource: byte i of the buffer is the i-th byte toggled if i < count and as stored otherwise |
| Ccdl.ToInt32Is | libccos/src/dl.c:184-185 | the file offset is the `int` that agrees with the sum in 32 bits |
| Resources.ToggleIsXor | libccos/src/dl.c:212 | toggling is exclusive or with 0x40 and undoes itself |
| Thunks.Generate | make-thunks.py:45-146 | the thunks, prototypes, handler table and OS table written; it stops iff an emulated function has no prototype |
| Thunks.NumberIndexesHandler | make-thunks.py:134-138 | an emulated row's number is the index of its own name in the handler table |
| Thunks.HandlerHasRow | make-thunks.py:134-138 | every handler belongs to an emulated row of that number |
| Thunks.NumbersDiffer | make-thunks.py:129-130 | different emulated rows have different numbers |
| Thunks.DispatchCorrectIff | src/ccdl.cpp:38-43 | with distinct names, every emulated row's masked number selects its own handler iff there are at most 65536 of them |
| Thunks.TableIsDefined | make-thunks.py:140-146 | every non-MINISYS function in the OS table has a generated definition of that C name; an emulated one traps with its own number |
| Thunks.DefinitionOfRow | make-thunks.py:48-111 | kind by kind, the one definition a row puts in the output and its place there, with the C name written out; a MINISYS row adds none and its OS row has its bare name |
| Thunks.DeclarationOfRow | make-thunks.py:64-66 | the generic declarations: one for each row that is neither EMU nor MINISYS, in order |
| Thunks.CNamesDistinctIff | make-thunks.py:52-55 | with distinct names, C names are distinct iff no function that is no stub is named "stub_" and a stub's name |
| Thunks.DefinitionsDiffer | make-thunks.py:70-111 | with distinct C names no C name is defined twice |
| Arm.HookIntr | src/ccdl.cpp:34-44 | the selected handler, or none when the number is past the table |
| Arm.DispatchOfSvc | src/ccdl.cpp:38-43 | the hook sees the number encoded in the trapping word, cut to 16 bits |
| Arm.DispatchUnread | src/ccdl.cpp:38-43 | when the word cannot be read the number is 0xcccc |
| Narrowing.NarrowIsExact | dependencies/GSL/include/gsl/gsl_util:115-122 | `narrow` returns iff the value fits the target type and then returns it, for all widths and all four pairs of signedness |
| Narrowing.CastKeepsIff | dependencies/GSL/include/gsl/gsl_util:94-98 | a cast keeps exactly the values of the type |
| Narrowing.Congruent | dependencies/GSL/include/gsl/gsl_util:94-98 | a cast gives the value of the target type that differs by a multiple of 2^bits |
| Narrowing.CheckRangeIff | dependencies/GSL/include/gsl/span:565-589 | the check is 0 <= idx < size for every index iff the size is not negative or the index type is wider than `size_t` |
| Filesystem.Files.OpenFile | src/filesystem.cpp:14-44 | the next handle iff the host opens the file and the mode starts with "rb" or "wb", else -1; the table as OpenIs describes |
| Filesystem.OpenIs | src/filesystem.cpp:17-41 | after such an open the handle is used up and, unless an entry is in its place, stands for the file of the sanitized path, writable iff "wb"; otherwise nothing changes; every character of the sanitized path |
| Filesystem.Files.CloseFile | src/filesystem.cpp:9-12 | the table after a close, known handle or not |
| Filesystem.Files.UseFile | src/filesystem.cpp:46-52 | what reading, writing, seeking and telling do to the table |
| Filesystem.TableIsLiveIff | src/filesystem.cpp:9-86 | in every state of a run the table holds exactly the files opened and not closed, under their handles, iff every handle used is live when it is used |
| Filesystem.HandlesAreFresh | src/filesystem.cpp:22-41 | in every run the handles returned count up from 1, whatever handles are passed |
| Filesystem.LiveBelow | src/filesystem.hpp:23-25 | every live handle is below next_handle |
| Filesystem.EarlyUseLosesFile | src/filesystem.cpp:24-27 | a handle used before it is issued leaves the open that returns it without its file |
| Filesystem.SanitizedIsSafe | src/filesystem.cpp:17-20 | a sanitized path keeps its length and has no backslash, slash or colon; only paths with one are changed |
| Filesystem.Sanitize | src/filesystem.cpp:17-20 | the three replace passes: character by character, backslash and slash become '$', colon becomes '_', the rest stays |

## Left out

- Integer overflow of `ptrdiff_t` (undefined in C++): extents, strides, offsets and positions are mathematical integers.
- Pointer sums in the loader do not wrap around: an address outside memory is a fault. The 32-bit product that places the string table, the `int` file offset of a resource and the source address of a resource read do wrap.
- Ccdl.Load: the call of the entry point (libccos/src/dl.c:100) runs arbitrary guest code and is taken as no change; the model's final memory is the memory at that call.
- A copy whose source and destination overlap (undefined for `memcpy`) copies the old bytes.
- The OS table and its names are a value, not bytes of target memory; EndToEnd assumes that loading writes outside the thunk that is called, not that it writes outside the table.
- Resources.DlResGetData: negative `size` or `count`, and products past the range of `int`, are not modelled.
- `dl_res_get_size` and the rest of the copied resource entry: one field read.
- Arm.HookIntr: what a handler does to memory and registers is not modelled; EndToEnd.EmulatedCallReturns holds for any memory and registers it leaves, on the two conditions it states. An index past the handler table, undefined in C++, is None.
- Thumb code, conditional instructions and all instructions but the load, trap and branch an imported call executes.
- Thunks.Generate: the text of the emitted files; a definition is a value with its C name, prototype and number. Thunks for stubs and no-ops carry only their kind.
- `bounds_iterator::operator<` and its relatives compare with a relation that is no order at rank 2 and above; it is modelled only where `linearize`, `+=` and `--` use it.
- `span` sub-views, `span_iterator`, `multi_span::first/last/subspan` and `contiguous_span_iterator`: one-dimensional offsets, linear arithmetic only.
- Conversions between bounds of different types, and the other template machinery of GSL.
- Filesystem.Files.UseFile: file contents, positions and stream failure flags; the handle counter is a mathematical integer; drive letters are stored but never used by the source.
- Emulator set-up, memory mapping, frame buffer, input, clock and the libretro callbacks: input and output with no property of this kind.
