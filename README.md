# OpenFST compact FSTs and helpers, in Dafny

This project models the compact FST representation of OpenFST
(`src/include/fst/compact-fst.h`) and proves properties of the model. It
also models a handful of small helpers from the same library: string
splitting, integer parsing and stream alignment (`src/lib/util.cc`), the
string-to-enum getters of the FAR extension and the scripting layer, the
expectation semiring, the naming and key-selection logic of FAR
extraction, and the MSVC fallbacks for count-trailing-zeros and popcount.

A compact FST stores each state's outgoing transitions as *elements*
produced by a *compactor*. A final weight becomes a superfinal transition:
`kNoLabel` labels and `kNoStateId` as the next state. All elements sit in
one flat array. The states are laid out one after another, and each
state's *window* holds its superfinal element first, present only when the
state is final, and then its arcs in iteration order. With a fixed arity
k, state s owns `[s*k, (s+1)*k)`. With a variable arity, an offset array
of `nstates + 1` prefix sums marks the windows.

The model:

- `Element` and `Weight` are type parameters. A weight's Zero and One are
  values passed in. The `Unsigned` index type is a width in bits, and
  offsets are truncated to that width explicitly.
- A source FST is a start state and a sequence of states, each with a
  final weight (Zero when the state is not final) and an arc list.
- `DefaultCompactStore` is a class. It has an offset array, an element
  array and the counters. Its two constructors fill the arrays with loops,
  as the source does.
- `CompactFstImpl` is a class over the store. Its cache is two per-state
  maps: final weights and arc lists, which `Expand` fills.
- `ArcIterator`, `StateIterator` and the `Adder` of the expectation
  semiring are classes whose methods update their fields.
- A stream is a sequence of items: alignment padding, offsets and
  elements. `WriteFst` and the store's `Write` are compared on those
  items.

The modules follow the source: `Compactors` (the five stock compactors),
`CompactLayout` (the layout as functions of the source FST, and the
decoding of a window), `CompactStore`, and `CompactFst` (the
implementation, the iterators, type names, versions and `WriteFst`). Then
`Util`, `FarGetters`, `ScriptGetters`, `ExpectationWeights`,
`FarExtraction` and `Compat`.

Two places where the code is easy to misread; the model follows the code as written:

- `Expand` takes the weight of the *last* superfinal element in the
  window, while `Final` reads only the *first*. The two agree whenever
  superfinal elements come first, which holds for every store built from
  an FST (`CompactFst.ReadersAgreeWithExpand`,
  `CompactLayout.WindowMarkersFirst`).
- `NumArcs` and the `ArcIterator` constructor compare the first element's
  label with `kNoStateId` (compact-fst.h:547, 1089), where `kNoLabel` is
  meant. Both are −1, so the model uses one value.

## Model

| member | source | states |
|---|---|---|
| Compactors.StringCompactor | src/include/fst/compact-fst.h:1214-1252 | arity 1, type name "string" |
| Compactors.StringRoundTrip | src/include/fst/compact-fst.h:1225-1229 | an arc survives compaction and expansion exactly when it is an unweighted acceptor arc to s+1, or a superfinal arc of weight One |
| Compactors.StringRecoverable | src/include/fst/compact-fst.h:1225-1229 | every element is the compaction of its own expansion |
| Compactors.WeightedStringCompactor | src/include/fst/compact-fst.h:1254-1293 | arity 1, type name "weighted_string" |
| Compactors.WeightedStringRoundTrip | src/include/fst/compact-fst.h:1265-1272 | an arc survives exactly when it is an acceptor arc to s+1 (kNoStateId for kNoLabel) |
| Compactors.WeightedStringRecoverable | src/include/fst/compact-fst.h:1265-1272 | every element is the compaction of its own expansion |
| Compactors.UnweightedAcceptorCompactor | src/include/fst/compact-fst.h:1295-1333 | variable arity, type name "unweighted_acceptor" |
| Compactors.UnweightedAcceptorRoundTrip | src/include/fst/compact-fst.h:1306-1312 | an arc survives exactly when ilabel == olabel and its weight is One |
| Compactors.UnweightedAcceptorRecoverable | src/include/fst/compact-fst.h:1306-1312 | every element is the compaction of its own expansion |
| Compactors.AcceptorCompactor | src/include/fst/compact-fst.h:1335-1374 | variable arity, type name "acceptor" |
| Compactors.AcceptorRoundTrip | src/include/fst/compact-fst.h:1346-1353 | an arc survives exactly when ilabel == olabel |
| Compactors.AcceptorRecoverable | src/include/fst/compact-fst.h:1346-1353 | every element is the compaction of its own expansion |
| Compactors.UnweightedCompactor | src/include/fst/compact-fst.h:1376-1415 | variable arity, type name "unweighted" |
| Compactors.UnweightedRoundTrip | src/include/fst/compact-fst.h:1387-1394 | an arc survives exactly when its weight is One |
| Compactors.UnweightedRecoverable | src/include/fst/compact-fst.h:1387-1394 | every element is the compaction of its own expansion |
| Compactors.SuperfinalRecognised | src/include/fst/compact-fst.h:36-39 | under every stock compactor a compacted superfinal transition expands to label kNoLabel; all but the string compactor give it back exactly, with weight One for the unweighted ones |
| FstBase.Superfinal | src/include/fst/compact-fst.h:228-229 | the transition for a final weight has kNoLabel labels and kNoStateId as next state |
| CompactLayout.CompactArcs | src/include/fst/compact-fst.h:231-233 | one element per arc |
| CompactLayout.CompactArcsAt | src/include/fst/compact-fst.h:231-233 | element j is the compaction of arc j |
| CompactLayout.Window | src/include/fst/compact-fst.h:224-233 | a state's window has one element for a non-Zero final weight plus one per arc |
| CompactLayout.Offsets | src/include/fst/compact-fst.h:207-211 | nstates + 1 offsets |
| CompactLayout.LayoutLength | src/include/fst/compact-fst.h:207-211 | the element array's length is the total of the window sizes, which is narcs + nfinals |
| CompactLayout.OffsetsLast | src/include/fst/compact-fst.h:211 | the last offset is the number of elements |
| CompactLayout.LayoutPrefix | src/include/fst/compact-fst.h:222-239 | the layout, offsets and total of a prefix of the states are prefixes of those of all states |
| CompactLayout.OffsetsAt | src/include/fst/compact-fst.h:224-233 | offset s is the element count of the states before s, and offset s+1 adds state s's window size |
| CompactLayout.OffsetsMonotone | src/include/fst/compact-fst.h:224-233 | offsets never decrease |
| CompactLayout.LayoutWindow | src/include/fst/compact-fst.h:224-233 | the elements between offsets s and s+1 are exactly state s's window |
| CompactLayout.ExpandedArcs | src/include/fst/compact-fst.h:638-645 | Expand pushes no more arcs than the window has elements |
| CompactLayout.ExpandCompactArcs | src/include/fst/compact-fst.h:633-648 | for a compactor faithful to the state, expanding the compacted arcs gives the arcs back and no final weight |
| CompactLayout.DecodeAfterFinal | src/include/fst/compact-fst.h:633-648 | a leading superfinal element sets the final weight and adds no arc |
| CompactLayout.WindowRoundTrip | src/include/fst/compact-fst.h:518-648 | decoding a state's window gives its arcs, its final weight (Expand and Final alike) and its arc count back |
| CompactLayout.Layout | src/include/fst/compact-fst.h:222-239 | the states' windows in state order; LayoutWindow places each state's window between its offsets and LayoutLength gives its length |
| CompactLayout.ExpandedFinal | src/include/fst/compact-fst.h:638-645 | the weight of the last superfinal element of the window, or none; WindowRoundTrip gives back the state's final weight |
| CompactLayout.FirstFinal | src/include/fst/compact-fst.h:518-527 | the first element's weight when it is superfinal, else Zero; WindowRoundTrip gives back the state's final weight, FirstDecodersAgree ties it to ExpandedFinal |
| CompactLayout.ArcCount | src/include/fst/compact-fst.h:534-550 | the window size less a leading superfinal element; WindowRoundTrip gives back the state's arc count |
| CompactLayout.WindowTail | src/include/fst/compact-fst.h:1086-1093 | the elements after a leading superfinal element number NumArcs |
| CompactLayout.ExpandAll | src/include/fst/compact-fst.h:1098-1101 | one arc per element |
| CompactLayout.FirstDecodersAgree | src/include/fst/compact-fst.h:518-648 | when superfinal elements come first, Final's weight equals Expand's (Zero when there is none), and Expand's arcs are the expansions of the elements the arc iterator visits |
| CompactLayout.WindowMarkersFirst | src/include/fst/compact-fst.h:224-233 | in a window built from an FST, no superfinal element follows the first position |
| CompactLayout.WindowTailArcs | src/include/fst/compact-fst.h:1086-1101 | the elements the arc iterator visits are the compacted arcs, and they expand to the state's arcs |
| CompactLayout.StringFaithful | src/include/fst/compact-fst.h:1225-1229 | a string state (unweighted acceptor arcs to s+1, final weight Zero or One) is encoded faithfully |
| CompactLayout.WeightedStringFaithful | src/include/fst/compact-fst.h:1265-1272 | a weighted string state is encoded faithfully |
| CompactLayout.UnweightedAcceptorFaithful | src/include/fst/compact-fst.h:1306-1312 | an unweighted acceptor state is encoded faithfully |
| CompactLayout.AcceptorFaithful | src/include/fst/compact-fst.h:1346-1353 | an acceptor state is encoded faithfully |
| CompactLayout.UnweightedFaithful | src/include/fst/compact-fst.h:1387-1394 | an unweighted state is encoded faithfully |
| CompactLayout.LeadingEpsilonsSorted | src/include/fst/compact-fst.h:564-582 | on sorted labels, CountEpsilons's scan counts every zero label |
| CompactLayout.NoZerosAbove | src/include/fst/compact-fst.h:576-577 | sorted labels starting above zero contain no epsilon |
| CompactLayout.Labels | src/include/fst/compact-fst.h:571-573 | one label per element |
| CompactLayout.ArcLabels | src/include/fst/compact-fst.h:571-573 | one label per arc |
| CompactLayout.SortedEpsilons | src/include/fst/compact-fst.h:552-582 | for a state with label-sorted arcs, scanning its window counts exactly its epsilon arcs |
| CompactStore.Truncated | src/include/fst/compact-fst.h:208-226 | each stored offset is the offset modulo 2^width |
| CompactStore.WindowOf | src/include/fst/compact-fst.h:109-121 | with fixed arity k a state's window has k elements |
| CompactStore.UniformTotal | src/include/fst/compact-fst.h:213-219 | when every window has size k, the total is nstates * k |
| CompactStore.CountStates | src/include/fst/compact-fst.h:196-206 | the counting pass finds narcs and nfinals |
| CompactStore.FillWindow | src/include/fst/compact-fst.h:225-233 | filling one state appends exactly its window at pos |
| CompactStore.FillStep | src/include/fst/compact-fst.h:224-233 | one more state extends the layout by its window |
| CompactStore.FillState | src/include/fst/compact-fst.h:224-233 | one state of the filling pass records the truncated start of its window and appends exactly that window |
| CompactStore.UniformStep | src/include/fst/compact-fst.h:234-238 | a window of size k after uniform windows keeps the layout uniform |
| CompactStore.FillWindows | src/include/fst/compact-fst.h:222-244 | the filling pass writes the truncated offsets, succeeds exactly when the arity is variable or every window has size k, and then fills the whole layout |
| CompactStore.StockStateFree | src/include/fst/compact-fst.h:1306-1394 | the variable-arity stock compactors recognise superfinal elements without looking at the state |
| CompactStore.ElementsPrefix | src/include/fst/compact-fst.h:313-321 | the kept elements and state offsets of a prefix of the input are prefixes of those of the whole input |
| CompactStore.CopyElements | src/include/fst/compact-fst.h:283-288 | the copy loop stores the input unchanged and counts its arcs |
| CompactStore.CountElements | src/include/fst/compact-fst.h:296-306 | the counting pass finds narcs, nstates (one per superfinal element) and ncompacts (superfinal elements of Zero weight dropped) |
| CompactStore.ElementStep | src/include/fst/compact-fst.h:313-321 | one more input element extends the kept elements and the state offsets as the definitions say, at whatever position it is classified |
| CompactStore.StoreElement | src/include/fst/compact-fst.h:313-321 | one element of the filling pass opens a state at the current position when it is superfinal and is stored when it is kept; nothing else changes |
| CompactStore.FillElements | src/include/fst/compact-fst.h:307-321 | the filling pass stores the kept elements and each state's offset, truncated |
| CompactStore.DefaultCompactStore.FromFst | src/include/fst/compact-fst.h:183-245 | nstates, narcs and start come from the FST; error exactly when the arity is fixed and some window differs from k; otherwise the store is the layout with its offsets |
| CompactStore.DefaultCompactStore.FromElements | src/include/fst/compact-fst.h:247-328 | error exactly when the (terminated) fixed-arity input is not a multiple of k; otherwise the store is the input as the source lays it out |
| CompactStore.FstImage | src/include/fst/compact-fst.h:183-245 | the store the FST constructor builds without error; FromFst builds it, FstImageWellFormed shows it well formed and ImageRoundTrip reads it back |
| CompactStore.Terminated | src/include/fst/compact-fst.h:262-292 | for arity 1 an empty input, or one not ending in a superfinal element, gets a superfinal element of weight One appended; StringElementsQueries states the states this gives |
| CompactStore.ElementsImage | src/include/fst/compact-fst.h:247-328 | the store the element constructor builds without error; FromElements builds it and ElementsAgreeWithFst shows it equals FstImage on an FST's elements |
| CompactStore.KeptArcs | src/include/fst/compact-fst.h:313-316 | arc elements are all kept and open no state |
| CompactStore.KeptState | src/include/fst/compact-fst.h:317-320 | a superfinal element opens a state and is kept exactly when its weight is not Zero |
| CompactStore.ElementsAgreeWithFst | src/include/fst/compact-fst.h:183-327 | building from the elements of an FST gives the store built from that FST |
| CompactStore.ElementsAgree | src/include/fst/compact-fst.h:293-327 | for the elements of an FST, the kept elements are its layout, the state offsets are its offsets, and narcs is its arc count |
| CompactStore.OffsetItems | src/include/fst/compact-fst.h:388-389 | one item per offset |
| CompactStore.ElementItems | src/include/fst/compact-fst.h:396 | one item per element |
| CompactStore.SkipPad | src/include/fst/compact-fst.h:362-366 | skipping padding never lengthens the stream |
| CompactStore.OffsetValues | src/include/fst/compact-fst.h:348-356 | one offset read per item |
| CompactStore.ElementValues | src/include/fst/compact-fst.h:367-375 | one element read per item |
| CompactStore.ReadOffsets | src/include/fst/compact-fst.h:342-356 | a successful read of the offset array gives nstates + 1 offsets |
| CompactStore.ReadElements | src/include/fst/compact-fst.h:362-375 | a successful read of the element array gives ncompacts elements |
| CompactStore.ImageRoundTrip | src/include/fst/compact-fst.h:330-403 | a consistent store written to a seekable stream, aligned or not, reads back as itself |
| CompactStore.OffsetsBack | src/include/fst/compact-fst.h:342-390 | the offset part of a write, padded or not, reads back as the offsets followed by the rest of the stream |
| CompactStore.ElementsBack | src/include/fst/compact-fst.h:362-396 | the element part of a write, padded or not, reads back as the elements |
| CompactStore.WriteImage | src/include/fst/compact-fst.h:380-403 | fails and writes nothing when aligning on a stream without position, else writes the offsets (when present) and the elements, each after padding when aligned; ImageRoundTrip reads it back, WriteNeedsPosition states the failure |
| CompactStore.ReadImage | src/include/fst/compact-fst.h:330-378 | the counts from the header, nstates + 1 offsets for variable arity and then the elements; none on a failed alignment or a short stream; ImageRoundTrip gives back what WriteImage wrote |
| CompactStore.WriteNeedsPosition | src/include/fst/compact-fst.h:383-395 | an aligned write to a stream without a position fails; an unaligned one does not depend on it |
| CompactStore.FstImageWellFormed | src/include/fst/compact-fst.h:183-245 | a store built from an FST without error, whose element count fits the width, is well formed, and each state's window is that state's window of the layout |
| CompactStore.VariableImageWellFormed | src/include/fst/compact-fst.h:207-233 | the same, for variable arity |
| CompactStore.UniformOffset | src/include/fst/compact-fst.h:109-112 | in a uniform layout state s's window starts at s * k |
| CompactStore.FixedImageWellFormed | src/include/fst/compact-fst.h:212-238 | the same, for fixed arity |
| CompactStore.EmptyElementsUnreadable | src/include/fst/compact-fst.h:294-361 | as written, the empty variable-arity store is written without an offset array and cannot be read back |
| CompactStore.ElementsImageCorrectedReadable | src/include/fst/compact-fst.h:247-403 | with the correction, every store built from elements reads back as written, and the empty one equals the store built from an FST without states |
| CompactFst.WidthTag | src/include/fst/compact-fst.h:454-458 | the width part of the type name is digits, empty exactly for 32-bit offsets |
| CompactFst.TypeString | src/include/fst/compact-fst.h:686-700 | "compact", the width unless 32, "_", the compactor type, and "_" with the store type unless it is "compact"; TypeStringInjective shows it determines width and compactor type |
| CompactFst.IteratorTypeString | src/include/fst/compact-fst.h:718-727 | the same without the store part; IteratorTypeAgrees shows it equals TypeString exactly for the store type "compact" |
| CompactFst.IteratorTypeAgrees | src/include/fst/compact-fst.h:686-728 | the element constructor's type name equals the FST constructor's exactly when the store type is "compact" |
| CompactFst.TypeStringInjective | src/include/fst/compact-fst.h:453-465 | the type name determines the width and the compactor type |
| CompactFst.WriteVersion | src/include/fst/compact-fst.h:612 | 1 when aligned, 2 otherwise; VersionRecordsAlignment shows the version alone tells the alignment |
| CompactFst.ReadAligned | src/include/fst/compact-fst.h:595-597 | the IS_ALIGNED flag, forced on by version 1; OldAlignedFiles and VersionRecordsAlignment state it |
| CompactFst.WriteFile | src/include/fst/compact-fst.h:606-615 | the header with start and counts, then the store's write; FileRoundTrip reads it back |
| CompactFst.VersionRecordsAlignment | src/include/fst/compact-fst.h:595-612 | every version written is readable, and the version alone tells the reader whether the file is aligned |
| CompactFst.ReadFile | src/include/fst/compact-fst.h:584-604 | a file read succeeds only for a version at least the minimum and takes start, nstates and narcs from the header |
| CompactFst.FileRoundTrip | src/include/fst/compact-fst.h:584-616 | Write writes version 1 when aligned and 2 otherwise, and Read gives the store back |
| CompactFst.OldAlignedFiles | src/include/fst/compact-fst.h:595-597 | a version 1 file is read as aligned whether or not its flag is set |
| CompactFst.CompactFstImpl.Bounds | src/include/fst/compact-fst.h:565-568 | the window bounds lie inside the element array and delimit the state's window |
| CompactFst.CompactFstImpl.Start | src/include/fst/compact-fst.h:513-516 | the store's start; CountsRecoverFst gives the FST's start over a store built from it |
| CompactFst.CompactFstImpl.NumStates | src/include/fst/compact-fst.h:529-532 | 0 under the error property, else the store's count; CountsRecoverFst gives the FST's number of states |
| CompactFst.CompactFstImpl.Final | src/include/fst/compact-fst.h:518-527 | the cached weight, else the first element's weight when it is superfinal, else Zero; QueriesRecoverFst gives the FST's final weight and ReadersAgreeWithExpand what Expand caches |
| CompactFst.CompactFstImpl.NumArcs | src/include/fst/compact-fst.h:534-550 | the cached count, else the window size less a leading superfinal element; QueriesRecoverFst gives the FST's arc count |
| CompactFst.CompactFstImpl.ArcWindow | src/include/fst/compact-fst.h:1079-1093 | the elements the arc iterator visits: the window less a leading superfinal element |
| CompactFst.CountsRecoverFst | src/include/fst/compact-fst.h:513-532 | over a store built from an FST, Start is the FST's start and NumStates its number of states, or 0 under the error property |
| CompactFst.CompactFstImpl.FromFst | src/include/fst/compact-fst.h:686-716 | type name with the store suffix; the store is built from the FST; error when the store fails or the compactor refuses the FST; empty cache |
| CompactFst.CompactFstImpl.FromElements | src/include/fst/compact-fst.h:718-732 | type name without the store suffix; the store is built from the elements; error exactly when the store fails; empty cache |
| CompactFst.CompactFstImpl.CountEpsilons | src/include/fst/compact-fst.h:564-582 | the count is that of the scan that skips superfinal elements and stops at the first positive label |
| CompactFst.CompactFstImpl.Expand | src/include/fst/compact-fst.h:633-648 | caches the window's non-superfinal expansions as the arcs, and the last superfinal weight (else Zero) as the final weight; nothing else in the cache changes |
| CompactFst.CompactFstImpl.NumEpsilons | src/include/fst/compact-fst.h:552-562 | expands an uncached state unless its arcs are sorted; a cached state counts its cached epsilon arcs, otherwise the window is scanned |
| CompactFst.ExpandRange | src/include/fst/compact-fst.h:638-645 | the loop pushes exactly the window's arc expansions and finds its last final weight |
| CompactFst.CountCached | src/include/fst/compact-fst.h:554-560 | counts the epsilon labels of a cached arc list |
| CompactFst.ReadersAgreeWithExpand | src/include/fst/compact-fst.h:518-648 | when superfinal elements come first, Final and NumArcs give what Expand would cache, and the arc iterator's elements expand to Expand's arcs |
| CompactFst.QueriesRecoverFst | src/include/fst/compact-fst.h:518-648 | on a store built from an FST, Final, NumArcs and Expand give back the state's final weight, arc count and arcs |
| CompactFst.StringElementsQueries | src/include/fst/compact-fst.h:279-292 | over string-compactor input completed by the implicit final element, one state per element from start 0; a label state has one arc on it with weight One to the next state and is not final, a superfinal element gives a final state of weight One without arcs |
| CompactFst.StringElementsPath | src/include/fst/compact-fst.h:1227-1229 | n labels give n + 1 states: state s < n has one arc on its label to s + 1 and is not final, state n is final with weight One and has no arcs |
| CompactFst.SortedCountIsExact | src/include/fst/compact-fst.h:552-582 | on a store built from an FST, skipping Expand for a sorted state still counts exactly its epsilon arcs |
| CompactFst.StateIterator.constructor | src/include/fst/compact-fst.h:1041-1043 | starts at state 0 with NumStates states |
| CompactFst.StateIterator.Done | src/include/fst/compact-fst.h:1045 | the state reached NumStates; Next advances towards it |
| CompactFst.StateIterator.Value | src/include/fst/compact-fst.h:1047 | the current state |
| CompactFst.StateIterator.Next | src/include/fst/compact-fst.h:1049 | advances by one state |
| CompactFst.StateIterator.Reset | src/include/fst/compact-fst.h:1051 | goes back to state 0 |
| CompactFst.ArcIterator.Arcs | src/include/fst/compact-fst.h:1098-1101 | the iterator yields numArcs arcs |
| CompactFst.ArcIterator.constructor | src/include/fst/compact-fst.h:1068-1094 | starts at position 0 with all value flags, skips a leading superfinal element, and covers exactly the remaining elements of the window |
| CompactFst.ArcIterator.Done | src/include/fst/compact-fst.h:1096 | the position reached the arc count |
| CompactFst.ArcIterator.Position | src/include/fst/compact-fst.h:1105 | the current position, which Seek sets and Reset clears |
| CompactFst.ArcIterator.Flags | src/include/fst/compact-fst.h:1111 | the flags SetFlags last set |
| CompactFst.ArcIterator.Value | src/include/fst/compact-fst.h:1098-1101 | the arc at the current position |
| CompactFst.ArcIterator.Next | src/include/fst/compact-fst.h:1103 | advances by one arc |
| CompactFst.ArcIterator.Reset | src/include/fst/compact-fst.h:1107 | goes back to position 0 |
| CompactFst.ArcIterator.Seek | src/include/fst/compact-fst.h:1109 | moves to the given position and changes nothing else |
| CompactFst.ArcIterator.SetFlags | src/include/fst/compact-fst.h:1113-1116 | clears the mask bits, then sets the flag bits among the value flags |
| CompactFst.ArcIteratorYieldsArcs | src/include/fst/compact-fst.h:1068-1101 | on a store built from an FST the iterator yields exactly the state's arcs, NumArcs of them |
| CompactFst.ElementItemsAppend | src/include/fst/compact-fst.h:1012-1023 | writing two element runs writes their concatenation |
| CompactFst.WriteWindow | src/include/fst/compact-fst.h:1014-1022 | one state's elements are its window |
| CompactFst.OffsetStep | src/include/fst/compact-fst.h:996-1003 | the running Unsigned counter is the truncated offset |
| CompactFst.WriteOffsets | src/include/fst/compact-fst.h:996-1005 | the written offsets are the prefix sums of the window sizes, truncated to the width |
| CompactFst.WriteElements | src/include/fst/compact-fst.h:1010-1023 | the written elements are the layout |
| CompactFst.WriteFst | src/include/fst/compact-fst.h:928-1030 | writes the header, the offsets (variable arity), padding and the layout; fails on an incompatible FST or a failed alignment before the offsets |
| CompactFst.WriteFstMatchesStore | src/include/fst/compact-fst.h:928-1030 | except after a failed alignment of a fixed-arity FST, WriteFst writes the header followed by the store image FstImage, as the store's Write would; that image is the constructed store only for variable arity or uniform windows |
| CompactFst.WriteFstReadsBack | src/include/fst/compact-fst.h:928-1030 | the file WriteFst writes reads back as the store the FST constructor builds |
| CompactFst.WriteFstIgnoresAlignmentFailure | src/include/fst/compact-fst.h:1007-1009 | as written, WriteFst succeeds for a fixed-arity FST where the store's Write fails |
| CompactFst.WriteFstCorrectedMatchesStore | src/include/fst/compact-fst.h:1007-1009 | the corrected writer writes what the store writes for every stream, and agrees with WriteFst wherever WriteFst's alignment succeeds |
| CompactFst.WriteFstOutcome | src/include/fst/compact-fst.h:928-1030 | the outcome of WriteFst: nothing on an incompatible FST (the header then means nothing), nothing on a failed alignment before the offsets, else header, offsets, padding and layout; WriteFst ensures it, WriteFstMatchesStore and WriteFstIgnoresAlignmentFailure compare it with the store's Write |
| Arith.Truncate | src/include/fst/compact-fst.h:996-1003 | the value stored in an Unsigned is below 2^width and is the value itself when it fits |
| Arith.TruncateAdd | src/include/fst/compact-fst.h:1001-1003 | adding to a truncated counter and truncating gives the truncated sum |
| Util.FindFirstOf | src/lib/util.cc:48 | the first position at or after from holding a delimiter, or npos when none does |
| Util.Split | src/lib/util.cc:42-57 | at least one piece |
| Util.NonEmpty | src/lib/util.cc:52-53 | no empty piece, and no more pieces than before |
| Util.SplitBlock | src/lib/util.cc:47-55 | splitting takes the block before the first delimiter, then splits the rest |
| Util.SplitCount | src/lib/util.cc:42-57 | one more piece than delimiter characters |
| Util.SplitPiecesHaveNoDelims | src/lib/util.cc:42-57 | no piece contains a delimiter character |
| Util.SplitConcat | src/lib/util.cc:42-57 | the pieces concatenate to the line without its delimiters |
| Util.SplitStep | src/lib/util.cc:47-55 | one loop round appends the next piece |
| Util.SplitString | src/lib/util.cc:42-57 | the pieces between delimiters, with empty ones dropped when asked |
| Util.LeadingDigits | src/lib/util.cc:61-62 | the longest run of digits at the start |
| Util.FromChars | src/lib/util.cc:61-62 | from_chars never consumes past the end |
| Util.ParseInt64 | src/lib/util.cc:59-66 | a value exactly for a whole-string decimal integer in the 64-bit range, and that value |
| Util.ParseAgreesWithReference | src/lib/util.cc:59-66 | from_chars consumes the whole string without error exactly when it is an in-range decimal integer |
| Util.AllDigitsLeading | src/lib/util.cc:61-62 | a string of digits is consumed whole |
| Util.StrToInt64 | src/lib/util.cc:68-79 | error and 0 on a parse failure or a refused negative value, otherwise the value without error |
| Util.DigitChar | src/lib/util.cc:59-66 | a digit of the given value |
| Util.NatToDecimal | src/lib/util.cc:59-66 | a non-empty string of digits |
| Util.NatToDecimalValue | src/lib/util.cc:59-66 | its digits have the number's value |
| Util.ParseInt64RoundTrip | src/lib/util.cc:59-66 | every 64-bit integer written in decimal parses back to itself |
| Util.LegalCSymbol | src/lib/util.cc:81-87 | the length is kept |
| Util.LegalCSymbolIsLegal | src/lib/util.cc:81-87 | every character becomes alphanumeric or '_', and converting twice changes nothing more |
| Util.ConvertToLegalCSymbol | src/lib/util.cc:81-87 | replaces every non-alphanumeric character with '_' in place and leaves alphanumerics unchanged |
| Util.PadLength | src/lib/util.cc:91-118 | the padding is less than the alignment |
| Util.PadLengthFirstAligned | src/lib/util.cc:91-118 | the padding length is the first count at which the position is aligned |
| Util.AlignInput | src/lib/util.cc:91-103 | fails exactly when the starting position is unknown (the end of the stream is not modelled); otherwise skips the padding, leaving the position aligned |
| Util.AlignOutput | src/lib/util.cc:107-118 | fails exactly on an unknown position; otherwise writes as many null characters as the padding, leaving the position aligned |
| Util.AlignBufferWithOutputStream | src/lib/util.cc:120-131 | -1 on an unknown position; otherwise appends pos % align null characters and returns that count |
| FarGetters.GetFarTypeString | src/extensions/far/getters.cc:50-63 | one of the four names for a known type, "<unknown>" exactly otherwise |
| FarGetters.GetFarType | src/extensions/far/getters.cc:19-32 | true exactly for the four names, whose type names back to the input; otherwise the output is unchanged |
| FarGetters.FarTypeStringRoundTrip | src/extensions/far/getters.cc:19-59 | the name of every known type parses back to it |
| FarGetters.GetFarEntryType | src/extensions/far/getters.cc:34-43 | true exactly for "line" and "file", each to its own entry type; otherwise the output is unchanged |
| ScriptGetters.GetArcSortType | src/script/getters.cc:23-32 | true exactly for its two names, whose value names back to the input; otherwise the output is unchanged |
| ScriptGetters.GetComposeFilter | src/script/getters.cc:34-53 | true exactly for its seven names, whose value names back to the input; otherwise the output is unchanged |
| ScriptGetters.ComposeFilterTableIsBijective | src/script/getters.cc:34-53 | every filter's name parses back to it, and distinct names give distinct filters |
| ScriptGetters.GetDeterminizeType | src/script/getters.cc:55-66 | true exactly for its three names, whose value names back to the input; otherwise the output is unchanged |
| ScriptGetters.GetMapType | src/script/getters.cc:68-103 | true exactly for its names, whose value names back to the input ("to_standard" gives TO_STD); otherwise the output is unchanged |
| ScriptGetters.ToStdSpellings | src/script/getters.cc:97-98 | "to_std" and "to_standard" both give TO_STD |
| ScriptGetters.GetProjectType | src/script/getters.cc:105-114 | true exactly for "input" and "output", whose value names back to the input; otherwise the output is unchanged |
| ScriptGetters.GetRandArcSelection | src/script/getters.cc:116-127 | true exactly for its three names, whose value names back to the input; otherwise the output is unchanged |
| ScriptGetters.GetQueueType | src/script/getters.cc:129-146 | true exactly for its six names, whose value names back to the input; otherwise the output is unchanged |
| ScriptGetters.QueueTableIsBijective | src/script/getters.cc:129-146 | every queue type's name parses back to it, and distinct names give distinct queue types |
| ScriptGetters.GetReplaceLabelType | src/script/getters.cc:148-162 | REPLACE_LABEL_NEITHER and true whenever epsilon_on_replace holds; otherwise true exactly for its four names; otherwise the output is unchanged |
| ScriptGetters.GetTokenType | src/script/getters.cc:164-175 | true exactly for "byte", "utf8" and "symbol", whose value names back to the input; otherwise the output is unchanged |
| ExpectationWeights.Zero | src/include/fst/expectation-weight.h:62-65 | the pair of components' Zeros |
| ExpectationWeights.One | src/include/fst/expectation-weight.h:67-70 | the first component's One and the second's Zero |
| ExpectationWeights.NoWeight | src/include/fst/expectation-weight.h:72-75 | the pair of components' NoWeights |
| ExpectationWeights.Properties | src/include/fst/expectation-weight.h:93-96 | a subset of both components' properties and of left, right, commutative and idempotent |
| ExpectationWeights.Plus | src/include/fst/expectation-weight.h:100-104 | componentwise Plus; PlusLaws shows Zero its identity, commutative and associative |
| ExpectationWeights.Times | src/include/fst/expectation-weight.h:107-112 | (a1 b1, a1 b2 + a2 b1); TimesIsAssociative and OneAndZero state its laws |
| ExpectationWeights.Divide | src/include/fst/expectation-weight.h:114-120 | always NoWeight |
| ExpectationWeights.OneAndZero | src/include/fst/expectation-weight.h:62-112 | One is a two-sided identity and Zero a two-sided annihilator of Times |
| ExpectationWeights.PlusLaws | src/include/fst/expectation-weight.h:100-104 | Plus has Zero as identity, is commutative and is associative |
| ExpectationWeights.TimesIsAssociative | src/include/fst/expectation-weight.h:107-112 | Times is associative |
| ExpectationWeights.Adder.constructor | src/include/fst/expectation-weight.h:130 | the sum starts at the given weight |
| ExpectationWeights.Adder.Add | src/include/fst/expectation-weight.h:132-136 | the sum becomes the old sum plus the weight, and is returned |
| ExpectationWeights.Adder.Reset | src/include/fst/expectation-weight.h:140-143 | the sum restarts at the given weight |
| ExpectationWeights.AddAll | src/include/fst/expectation-weight.h:128-138 | adding a sequence to a fresh adder gives the left-to-right Plus of the sequence |
| FarExtraction.PadLeftShape | src/include/fst/extensions/far/extract.h:51 | the string padded on the left with the fill character to the width |
| FarExtraction.PadLeft | src/include/fst/extensions/far/extract.h:51 | fill characters before the string up to the width; PadLeftShape states the result |
| FarExtraction.PathBody | src/include/fst/extensions/far/extract.h:48-56 | the zero-padded counter with generated sources, else the key with ".n" for repetition n > 0; GeneratedBodyValue ties the first to the counter |
| FarExtraction.FarPath | src/include/fst/extensions/far/extract.h:48-57 | prefix, body and suffix; GeneratedPathsDistinct and RepeatedPathsDistinct show distinct counters or repetitions give distinct paths |
| FarExtraction.RepeatCount | src/include/fst/extensions/far/extract.h:42-47 | the number of equal keys just before position j, the remembered key starting empty; CountedReps shows FarWriteFst keeps it |
| FarExtraction.FarWriteFst | src/include/fst/extensions/far/extract.h:34-58 | nrep counts one more repetition of the remembered key or restarts at 0, the remembered key becomes the key, and the path is prefix, body and suffix |
| FarExtraction.DigitsValueLeadingZeros | src/include/fst/extensions/far/extract.h:51 | zero padding does not change the counter's value |
| FarExtraction.GeneratedBodyValue | src/include/fst/extensions/far/extract.h:50-51 | a generated name is a digit string of at least generate_sources digits whose value is the counter |
| FarExtraction.GeneratedPathsDistinct | src/include/fst/extensions/far/extract.h:48-56 | with generated sources, distinct counters give distinct paths |
| FarExtraction.RepeatedPathsDistinct | src/include/fst/extensions/far/extract.h:52-55 | without generated sources, the repetitions of one key get distinct paths |
| FarExtraction.NamedExtend | src/include/fst/extensions/far/extract.h:48-57 | recording a path named by the rule keeps every path named by it |
| FarExtraction.NamedPaths | src/include/fst/extensions/far/extract.h:48-57 | every path written is the rule's path for its key, counter and repetition number |
| FarExtraction.CountedReps | src/include/fst/extensions/far/extract.h:42-47 | every repetition number counts the identical keys just before it |
| FarExtraction.WriteOne | src/include/fst/extensions/far/extract.h:87-88 | one FarWriteFst call keeps the names and repetition counts right and records the key and counter |
| FarExtraction.CountedStep | src/include/fst/extensions/far/extract.h:42-47 | one call keeps the repetition counts right |
| FarExtraction.ClassifySplit | src/include/fst/extensions/far/extract.h:79-110 | a key specification is a single key exactly when it has no range delimiter; a range has one delimiter and non-empty ends; anything else is illegal |
| FarExtraction.Classify | src/include/fst/extensions/far/extract.h:79-110 | one piece is a single key, two non-empty pieces a range, anything else illegal; ClassifySplit states it in terms of the delimiter |
| FarExtraction.LexLessTransitive | src/include/fst/extensions/far/extract.h:102 | key order is transitive |
| FarExtraction.LexLessIrreflexive | src/include/fst/extensions/far/extract.h:102 | no key comes before itself |
| FarExtraction.Find | src/include/fst/extensions/far/extract.h:82-96 | the first position of the key, or none exactly when it is absent |
| FarExtraction.Counters | src/include/fst/extensions/far/extract.h:100 | the n counters from a are a, a+1, ..., a+n-1 |
| FarExtraction.RangeEnd | src/include/fst/extensions/far/extract.h:100-102 | the range scan stops between its start and the end of the archive |
| FarExtraction.RangeEndStops | src/include/fst/extensions/far/extract.h:100-102 | the scan passes over keys not after the end key and stops at the first that is |
| FarExtraction.RangeWrittenStep | src/include/fst/extensions/far/extract.h:100-106 | writing the key at the stop with the next counter extends the range written so far by one |
| FarExtraction.ExtractNext | src/include/fst/extensions/far/extract.h:103-105 | one step of the range loop keeps the names and counts right and extends the range written by one key |
| FarExtraction.ExtractRange | src/include/fst/extensions/far/extract.h:100-106 | from the begin key on, writes every key up to the scan's stop, in order, with consecutive counters |
| FarExtraction.RangeIsInterval | src/include/fst/extensions/far/extract.h:100-106 | in a sorted archive the scan from the begin key stops exactly at the first key after the end key |
| FarExtraction.ProgressAfterRange | src/include/fst/extensions/far/extract.h:100-106 | counters keep increasing and name archive keys after a range |
| FarExtraction.ExtractSingle | src/include/fst/extensions/far/extract.h:81-88 | a present key is extracted with the current counter, which it leaves unchanged; an absent one stops with that key and writes nothing |
| FarExtraction.ExtractKeyRange | src/include/fst/extensions/far/extract.h:89-106 | an empty begin or end key is illegal and an absent begin key stops with it, both writing nothing; otherwise the keys from the begin key's first occurrence to the scan's stop are written with consecutive counters, and the counter is left after them |
| FarExtraction.ExtractSpec | src/include/fst/extensions/far/extract.h:78-110 | writes exactly what SpecResult gives for the specification and counter, and stops with an illegal range exactly when the specification is classified illegal |
| FarExtraction.SpecResult | src/include/fst/extensions/far/extract.h:78-110 | what one specification writes with counter i; SpecResultShape states its shape and ExtractSpec writes exactly it |
| FarExtraction.ListResult | src/include/fst/extensions/far/extract.h:77-111 | the specifications from the k-th on, in order, stopping at the first that does not complete, the counter advancing once more after each; SinglesCountedOnce and TwoSingleKeys state its counters and ExtractList writes exactly it |
| FarExtraction.SpecResultShape | src/include/fst/extensions/far/extract.h:78-110 | a specification writes archive keys with consecutive counters from its own; it is illegal exactly when classified illegal, a missing key is absent, a stop writes nothing, and a single key completes exactly when present |
| FarExtraction.SinglesCountedOnce | src/include/fst/extensions/far/extract.h:77-88 | a list of present single keys writes those keys with the counters i, i+1, ...: one increment per key |
| FarExtraction.TwoSingleKeys | src/include/fst/extensions/far/extract.h:77-88 | the key list "a,b" over the archive a, b writes a with counter 0 and b with counter 1 |
| FarExtraction.RangeThenSingle | src/include/fst/extensions/far/extract.h:77-106 | a range of three FSTs counted 0, 1, 2 is followed by a key with counter 4 |
| FarExtraction.ExtractEntry | src/include/fst/extensions/far/extract.h:78-111 | one turn of the key loop writes the next specification's share of ListResult, or ends with the whole of it |
| FarExtraction.ExtractList | src/include/fst/extensions/far/extract.h:77-111 | the key loop writes exactly what ListResult gives from 0, names every path by the rule, and its counters increase |
| FarExtraction.ExtractAll | src/include/fst/extensions/far/extract.h:114-120 | with no keys, every archive key is extracted, counted from 1 |
| FarExtraction.FarExtract | src/include/fst/extensions/far/extract.h:60-121 | with keys, the outcome, keys and counters are those ListResult gives for the non-empty key specifications from counter 0; with none, every archive key counted from 1; every path follows the naming rule, counters increase and keys come from the archive |
| FarExtraction.GeneratedExtractionDistinct | src/include/fst/extensions/far/extract.h:48-121 | with generated sources, no two FSTs of one extraction go to the same path |
| Compat.TrailingMaskLength | src/lib/compat.cc:35-38 | the bits of (v ^ (v - 1)) >> 1 number the trailing zeros of v |
| Compat.TrailingZerosLowestBit | src/lib/compat.cc:33-39 | the trailing-zero count c is below the width; v is divisible by 2^c but not 2^(c+1) |
| Compat.CountTrailingZeros | src/lib/compat.cc:32-44 | 64 for 0; otherwise the index c < 64 of the lowest set bit |
| Compat.OnesBound | src/lib/compat.cc:47-50 | a 64-bit word has at most 64 set bits, and none exactly when it is 0 |
| Compat.PopCount | src/lib/compat.cc:47-50 | the number of set bits, at most 64, and 0 exactly for 0 |

The arithmetic helpers in `Arith` (`MulAtLeast`, `DivModUnique`, `DivDouble`,
`ModDouble`, `DivPow2Small`, `Pow2Monotone`) and `CompactStore.MulBound`, the
bundling predicates of `FarExtraction` (`Consistent`, `Progress`, `Named`,
`NamedUpTo`, `NamedThrough`, `RepeatsCounted`, `Extraction`, `ListAhead`,
`Wrote`), `FarExtraction.EntryResult` (the second half of `ListResult`), and the
`ScriptGetters` name functions (the inverse tables the round trips use) carry no
rows: they model nothing on their own and serve the members above.

## Left out

- Byte-level stream I/O is not modelled: a stream is a sequence of padding, offset and element items, and its failure is the `seekable` flag for alignment. Stream failure after the flush (compact-fst.h:397-401, 1024-1028) is not modelled.
- `MappedFile` is not part of this model. `src/lib/mapped-file.cc:11-14` stubs `Map` to return NULL, so the store's `Read` always fails in this repository. The store's `Read` is modelled as taking the next `b` items of the stream instead, as the mapping is meant to.
- Util.AlignInput: does not model the end of the input stream, because a stream is reduced to its position; it never fails because the input ends before the aligned position. In the source a failed `strm.read` (util.cc:100) makes the next `tellg()` (util.cc:94) return -1 and `AlignInput` return false; the model fails only when the starting position is unknown.
- `Util.SplitString`, `Util.ConvertToLegalCSymbol`, `Util.StrToInt64` and the FAR key lists work on `string`, a sequence of Unicode characters, where util.cc and extract.h work on the bytes of a `std::string`. The model is exact when every character stands for one byte (code points 0 to 255). On UTF-8 text it is not: the source turns the two bytes of "é" into "__" where the model gives "_", and a multi-byte delimiter splits at each of its bytes in the source.
- The counts of padding bytes are not modelled. An aligned write puts one `Pad` item before a block and an aligned read skips padding items. The pad arithmetic itself is `Util.PadLength`.
- The cache machinery (`CacheBaseImpl`, cache GC and limits, from `fst/cache.h` included at compact-fst.h:16) is outside the modelled files. It is replaced by two per-state maps. `InitArcIterator`, which expands and then reads the cache, is not modelled separately.
- The property algebra (`Properties`, `CheckProperties`, `kCopyProperties`) is foreign code. A compactor's `Compatible(fst)` is a boolean parameter. Whether arcs are label-sorted is also a parameter, of `NumEpsilons`.
- `NumInputEpsilons`/`NumOutputEpsilons` are one method, `NumEpsilons`, with the side as a parameter.
- The `flags` argument of `Compactor::Expand` is unused by all five stock compactors and is omitted. `ArcIterator::Value` therefore ignores the flags it keeps.
- The header is reduced to the fields the compact format uses: type, version, IS_ALIGNED, start and the two counts. `WriteHeader`/`ReadHeader` and their type check live in `fst.h`, which is not part of this model. The IS_ALIGNED flag is taken to be written as `opts.align`.
- Only the minimum-version check of `ReadHeader` is modelled.
- The stock compactors carry no state: their `Write` writes nothing, `Read` builds a fresh one, and the model passes the compactor to `ReadFile`.
- The shortcut for a source that is itself a `CompactFst` of the same type (compact-fst.h:942-945, through `GetImplIfCompactFst` at 911-921) is not modelled; the model follows the nullptr branch, which counts states and arcs with a first pass.
- `WriteFst`'s first pass over a stateful compactor (compact-fst.h:941, 957-962) is not modelled, because every stock compactor is stateless. Only its counting is kept.
- `Init` with a store passed in (compact-fst.h:702), the copy constructors of `CompactFstImpl` and `SetCompactElements` are not modelled.
- The commented-out caching arc iterator (compact-fst.h:1128-1212), `InitMatcher`, the `CompactFst` wrapper class and the typedefs are not modelled.
- `CompactStore.DefaultCompactStore.FromElements`: for variable arity it requires that the compactor tell superfinal elements apart without looking at the state (`StateFreeMarkers`). The source expands element j at index j in the counting pass but at its store position in the filling pass. Every stock variable-arity compactor meets this (`CompactStore.StockStateFree`).
- `Int64ToStr` is not part of this model. The width part of the type name and the FAR counters use `Util.NatToDecimal` in its place.
- `size_t` and `int` overflow is not modelled, other than the truncation of offsets to the `Unsigned` width: counters, positions and window bounds are unbounded naturals.
- `StateIterator` keeps `nstates_` as a natural number.
- The FAR reader is modelled as the sequence of keys it visits in order. Writing an FST is reduced to the path it is written to. Opening the archive, `GetFst` and `Fst::Write` are archive and file I/O.
- `FSTERROR` is fatal by default (`fst_error_fatal` defaults to true, util.cc:36), so with the default flag a reported error ends the process. The model follows the non-fatal setting: `Util.StrToInt64` returns its error result and the stores set their error flags.
- `FarExtract`'s log messages are not modelled. Which condition stopped the extraction is returned as an `Outcome`.
- `SplitString` returns copies rather than `string_view`s into the line.
- `from_chars` is modelled by its documented decimal behaviour (`Util.FromChars`). The C++ library is not part of this model.
- `isalnum` is the ASCII test for letters and digits. The C locale is assumed.
- The expectation semiring is over an abstract pair of semirings. Its components are records of operations, and the external product between distinct W1 and W2 is a parameter. `Type`, `Quantize`, `Reverse`, `Member` and `WeightGenerate` are left out: they are string naming, floating point and random generation.
- `Adder` is over component adders that do plain `Plus`. The compensated summation of floating-point adders is not modelled.
- `basename` and `FailedNewHandler` in compat.cc (Windows API calls, process exit) are left out.
- Everything outside the files named in the table (CLI mains, script wrappers, FAR conversion, compression, info printing) is left out.

## Findings

| source | as written | input that shows it | evidently intended | confidence | as-written member | corrected member |
|---|---|---|---|---|---|---|
| src/include/fst/compact-fst.h:294 | the element constructor returns early on empty variable-arity input, leaving `states_` null, so `Write` writes no offset array while `Read` expects `nstates + 1 = 1` offsets | a variable-arity compactor and an empty element sequence, written and read back | allocate the offset array `[0]`, as the FST constructor does for an FST without states, so the store reads back | not executed | CompactStore.EmptyElementsUnreadable | CompactStore.ElementsImageCorrectedReadable |
| src/include/fst/compact-fst.h:1007-1009 | a failed alignment after the offsets is only logged, and `WriteFst` goes on to return true | a fixed-arity compactor, `opts.align` set, and a stream without a position: `WriteFst` returns true while the store's `Write` returns false | return false, as every other failed alignment in the file does | not executed | CompactFst.WriteFstIgnoresAlignmentFailure | CompactFst.WriteFstCorrectedMatchesStore |
