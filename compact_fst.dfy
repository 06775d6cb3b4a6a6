/** `CompactFstImpl`, the iterators of a compact FST and the streaming
    writer `CompactFst::WriteFst` (src/include/fst/compact-fst.h, lines
    449-739 and 928-1126).

    The implementation reads a `DefaultCompactStore` directly. Its cache is
    two per-state maps: the final weights and the arc lists that `Expand`
    records. The stock compactors carry no state, so writing a compactor
    adds nothing to the stream and reading one gives the compactor back;
    the compactor is therefore a parameter of `ReadFile`. */
module CompactFst {
  import opened Arith
  import opened FstBase
  import opened Compactors
  import opened CompactLayout
  import opened CompactStore
  import opened Util
  import opened Wrappers

  // ---------------------------------------------------------------------
  // Type names (lines 453-465, 687-698, 719-727, 966-976).

  /** The width part of the type name: nothing for 32-bit offsets, the
      number of bits otherwise. */
  function WidthTag(width: nat): (r: string)
    ensures AllDigits(r)
    ensures |r| == 0 <==> width == 32
  {
    if width != 32 then NatToDecimal(width) else ""
  }

  /** The type name of a compact FST built from an FST, and of a compact
      FST that is read or written: "compact", the width unless it is 32,
      "_" and the compactor's type, and "_" and the store's type unless
      that is "compact". */
  function TypeString(width: nat, compactorType: string, storeType: string): string
  {
    "compact" + WidthTag(width) + "_" + compactorType
      + (if storeType != "compact" then "_" + storeType else "")
  }

  /** The type name of a compact FST built from compacted elements
      (lines 719-727): the store's type is never appended. */
  function IteratorTypeString(width: nat, compactorType: string): string
  {
    "compact" + WidthTag(width) + "_" + compactorType
  }

  /** The two rules give the same name exactly for the default store. */
  lemma IteratorTypeAgrees(width: nat, compactorType: string, storeType: string)
    ensures IteratorTypeString(width, compactorType) == TypeString(width, compactorType, storeType)
            <==> storeType == "compact"
  {
    if storeType != "compact" {
      assert |TypeString(width, compactorType, storeType)| > |IteratorTypeString(width, compactorType)|;
    }
  }

  /** For the default store the type name determines the offset width and
      the compactor's type: the digits of the width can never be mistaken
      for the "_" that follows them. */
  lemma TypeStringInjective(w1: nat, t1: string, w2: nat, t2: string)
    requires TypeString(w1, t1, "compact") == TypeString(w2, t2, "compact")
    ensures w1 == w2 && t1 == t2
  {
    var d1, d2 := WidthTag(w1), WidthTag(w2);
    var x1, x2 := d1 + "_" + t1, d2 + "_" + t2;
    assert TypeString(w1, t1, "compact") == "compact" + x1;
    assert TypeString(w2, t2, "compact") == "compact" + x2;
    assert x1 == TypeString(w1, t1, "compact")[7..];
    assert x1 == x2;
    TagLength(d1, t1, d2, t2);
    TagLength(d2, t2, d1, t1);
    assert d1 == x1[..|d1|] && d2 == x2[..|d2|];
    assert t1 == x1[|d1| + 1..] && t2 == x2[|d2| + 1..];
    if w1 != 32 && w2 != 32 {
      NatToDecimalValue(w1);
      NatToDecimalValue(w2);
    }
  }

  /** A run of digits followed by "_" ends where the "_" is. */
  lemma TagLength(d1: string, t1: string, d2: string, t2: string)
    requires AllDigits(d1) && AllDigits(d2) && d1 + "_" + t1 == d2 + "_" + t2
    ensures |d1| <= |d2|
  {
    if |d2| < |d1| {
      UnderscoreAt(d2, t2);
      DigitAt(d1, t1, |d2|);
      assert false;
    }
  }

  lemma UnderscoreAt(d: string, t: string)
    ensures |d| < |d + "_" + t| && (d + "_" + t)[|d|] == '_'
  {
  }

  lemma DigitAt(d: string, t: string, i: int)
    ensures 0 <= i < |d| && AllDigits(d) ==> IsDigit((d + "_" + t)[i])
  {
  }

  // ---------------------------------------------------------------------
  // File versions and the header (lines 584-616, 734-739).

  /** The current unaligned file format version. */
  const FileVersion: int := 2
  /** The current aligned file format version. */
  const AlignedFileVersion: int := 1
  /** The oldest version `Read` accepts. */
  const MinFileVersion: int := 1

  /** The parts of the FST header the compact format uses; `aligned` is the
      header's IS_ALIGNED flag. */
  datatype Header = Header(fstType: string, version: int, aligned: bool, start: int,
                           numStates: nat, numArcs: nat)

  /** The version `Write` and `WriteFst` put in the header. */
  function WriteVersion(align: bool): int
  {
    if align then AlignedFileVersion else FileVersion
  }

  /** Whether `Read` treats the stream as aligned: the header's flag, which
      version 1 implies. */
  function ReadAligned(hdr: Header): bool
  {
    hdr.aligned || hdr.version == AlignedFileVersion
  }

  /** The version alone tells a reader whether the file is aligned, and
      every version written is one `Read` accepts. */
  lemma VersionRecordsAlignment(align: bool, hdr: Header)
    requires hdr.version == WriteVersion(align) && !hdr.aligned
    ensures hdr.version >= MinFileVersion
    ensures ReadAligned(hdr) == align
  {
  }

  /** `CompactFstImpl::Write`: the header (with the IS_ALIGNED flag set as
      requested, as the header writer does), nothing for the stateless
      compactor, then the store. */
  function WriteFile<E>(fstType: string, img: Image<E>, align: bool, seekable: bool): (bool, Header, seq<Item<E>>)
  {
    var w := WriteImage(img, align, seekable);
    (w.0, Header(fstType, WriteVersion(align), align, img.start, img.nstates, img.narcs), w.1)
  }

  /** `CompactFstImpl::Read` after the header: versions below the minimum
      are refused, then the store is read with the counters of the header,
      aligned when the header says so. */
  function ReadFile<E>(hdr: Header, items: seq<Item<E>>, k: int, seekable: bool): (r: Option<Image<E>>)
    requires k == -1 || k > 0
    ensures r.Some? ==> hdr.version >= MinFileVersion && r.value.start == hdr.start &&
                        r.value.nstates == hdr.numStates && r.value.narcs == hdr.numArcs
  {
    if hdr.version < MinFileVersion then None
    else ReadImage(items, hdr.start, hdr.numStates, hdr.numArcs, ReadAligned(hdr), k, seekable)
  }

  /** Reading what `Write` wrote gives the store back, aligned or not, and
      the version records the alignment. */
  lemma FileRoundTrip<E>(fstType: string, img: Image<E>, k: int, align: bool)
    requires Consistent(img, k)
    ensures var f := WriteFile(fstType, img, align, true);
            f.0 && f.1.version == (if align then 1 else 2) && f.1.fstType == fstType &&
            ReadFile(f.1, f.2, k, true) == Some(img)
  {
    ImageRoundTrip(img, k, align);
  }

  /** A version 1 file is read as aligned whether or not its flag is set. */
  lemma OldAlignedFiles<E>(hdr: Header, items: seq<Item<E>>, k: int, seekable: bool)
    requires k == -1 || k > 0
    requires hdr.version == AlignedFileVersion
    ensures ReadFile(hdr, items, k, seekable) == ReadFile(hdr.(aligned := true), items, k, seekable)
  {
  }

  // ---------------------------------------------------------------------
  // The implementation's queries (lines 513-648, 686-732).

  /** `CompactFstImpl` with a `DefaultCompactStore`: the compactor, the
      store, the type name, the error property and the cache. */
  class CompactFstImpl<E(0), W(==)> {
    const compactor: Compactor<E, W>
    const zero: W
    const data: DefaultCompactStore<E, W>
    const fstType: string
    /** The kError property. */
    const error: bool
    /** The cached final weights and arc lists. */
    var finals: map<int, W>
    var arcs: map<int, seq<Arc<W>>>

    /** The store can be indexed, and the cache holds a final weight for
        exactly the states whose arcs it holds. */
    ghost predicate Valid()
      reads this, data, data.states, data.compacts
    {
      ValidSize(compactor) && data.compacts != null &&
      WellFormed(data.Snapshot(), compactor.size) && finals.Keys == arcs.Keys
    }

    /** The window of state s in the element array. */
    function StateWindow(s: nat): seq<E>
      reads this, data, data.states, data.compacts
      requires Valid() && s < data.nstates
    {
      WindowOf(data.Snapshot(), compactor.size, s)
    }

    /** The bounds `[begin, end)` of state s's window. */
    function Bounds(s: nat): (r: (nat, nat))
      reads this, data, data.states, data.compacts
      requires Valid() && s < data.nstates
      ensures r.0 <= r.1 <= data.compacts.Length
      ensures StateWindow(s) == data.compacts[r.0..r.1]
    {
      if compactor.size == -1 then (data.states[s], data.states[s + 1])
      else
        MulBound(s, data.nstates, compactor.size);
        (s * compactor.size, (s + 1) * compactor.size)
    }

    /** Where the arcs of state s lie in the element array: its window,
        less its first element when that is a superfinal transition. */
    method ArcWindow(s: nat) returns (off: nat, num: nat)
      requires Valid() && s < data.nstates
      ensures off + num <= data.compacts.Length
      ensures num == ArcCount(compactor, s, StateWindow(s))
      ensures data.compacts[off..off + num] == WindowTail(compactor, s, StateWindow(s))
    {
      var r := Bounds(s);
      var cs := data.compacts;
      ghost var win := StateWindow(s);
      off := r.0;
      num := r.1 - r.0;
      if num > 0 {
        var arc := compactor.expand(s, cs[off]);
        if arc.ilabel == NoStateId {
          assert cs[off + 1..off + num] == win[1..];
          off := off + 1;
          num := num - 1;
        }
      }
    }

    /** Builds the store of fst; `compatible` is the test at line 710 (no
        kError in fst's copied properties and the compactor's verdict on
        fst), whose failure sets the error property. */
    constructor FromFst(fst: Fst<W>, c: Compactor<E, W>, zero: W, width: nat, compatible: bool)
      requires ValidSize(c)
      ensures compactor == c && this.zero == zero && fstType == TypeString(width, c.typeName, "compact")
      ensures data.width == width
      ensures data.error <==> c.size != -1 && !UniformWindows(zero, fst.states, c.size)
      ensures !data.error ==> data.compacts != null && data.Snapshot() == FstImage(c, zero, width, fst)
      ensures error <==> data.error || !compatible
      ensures finals == map[] && arcs == map[]
    {
      compactor := c;
      this.zero := zero;
      fstType := TypeString(width, c.typeName, "compact");
      var d := new DefaultCompactStore<E, W>.FromFst(fst, c, zero, width);
      data := d;
      error := d.error || !compatible;
      finals, arcs := map[], map[];
    }

    /** Builds the store from compacted elements. */
    constructor FromElements(elems: seq<E>, c: Compactor<E, W>, zero: W, one: W, width: nat)
      requires ValidSize(c)
      requires c.size == -1 ==> StateFreeMarkers(c, elems)
      ensures compactor == c && this.zero == zero && fstType == IteratorTypeString(width, c.typeName)
      ensures data.width == width
      ensures error <==> ElementsError(c, one, elems)
      ensures !error ==> data.Snapshot() == ElementsImage(c, zero, one, width, elems)
      ensures finals == map[] && arcs == map[]
    {
      compactor := c;
      this.zero := zero;
      fstType := IteratorTypeString(width, c.typeName);
      var d := new DefaultCompactStore<E, W>.FromElements(elems, c, zero, one, width);
      data := d;
      error := d.error;
      finals, arcs := map[], map[];
    }

    /** `Start()`: the store's start state. */
    function Start(): int
      reads this, data
    {
      data.start
    }

    /** `NumStates()`: none when the error property is set. */
    function NumStates(): nat
      reads this, data
    {
      if error then 0 else data.nstates
    }

    /** `Final(s)`: the cached weight, or else the weight of the window's
        first element when it expands to a superfinal transition and Zero
        otherwise. It does not fill the cache. */
    function Final(s: nat): W
      reads this, data, data.states, data.compacts
      requires Valid() && s < data.nstates
    {
      if s in finals then finals[s] else FirstFinal(compactor, zero, s, StateWindow(s))
    }

    /** `NumArcs(s)`: the cached count, or else the window size less one
        when the first element expands to a superfinal transition. */
    function NumArcs(s: nat): nat
      reads this, data, data.states, data.compacts
      requires Valid() && s < data.nstates
    {
      if s in arcs then |arcs[s]| else ArcCount(compactor, s, StateWindow(s))
    }

    /** `CountEpsilons(s, output_epsilons)`: scans the window, skipping
        superfinal transitions and stopping at the first positive label. */
    method CountEpsilons(s: nat, outputEpsilons: bool) returns (n: nat)
      requires Valid() && s < data.nstates
      ensures n == LeadingEpsilons(Labels(compactor, s, StateWindow(s), outputEpsilons))
    {
      var r := Bounds(s);
      var begin, end := r.0, r.1;
      ghost var labels := Labels(compactor, s, StateWindow(s), outputEpsilons);
      n := 0;
      var i := begin;
      while i < end
        invariant begin <= i <= end
        invariant n + LeadingEpsilons(labels[i - begin..]) == LeadingEpsilons(labels)
      {
        var arc := compactor.expand(s, data.compacts[i]);
        var lab := if outputEpsilons then arc.olabel else arc.ilabel;
        assert lab == labels[i - begin];
        assert labels[i - begin..][1..] == labels[i - begin + 1..];
        if lab == NoLabel {
          i := i + 1;
        } else if lab > 0 {
          break;
        } else {
          n := n + 1;
          i := i + 1;
        }
      }
    }

    /** `Expand(s)`: every element of the window that expands to a
        superfinal transition sets the final weight (the last one wins),
        every other is pushed as an arc; a state without one gets Zero. */
    method Expand(s: nat)
      requires Valid() && s < data.nstates && s !in arcs
      modifies this`finals, this`arcs
      ensures Valid()
      ensures arcs == old(arcs)[s := ExpandedArcs(compactor, s, StateWindow(s))]
      ensures finals == old(finals)[s := WeightOr(ExpandedFinal(compactor, s, StateWindow(s)), zero)]
    {
      var r := Bounds(s);
      var pushed, fin := ExpandRange(compactor, s, data.compacts, r.0, r.1);
      finals := finals[s := WeightOr(fin, zero)];
      arcs := arcs[s := pushed];
    }

    /** `NumInputEpsilons(s)` (output false, `sorted` the kILabelSorted
        property) and `NumOutputEpsilons(s)` (output true, kOLabelSorted):
        an unexpanded state of an unsorted FST is expanded first; an
        expanded state counts its cached epsilon arcs, an unexpanded one
        counts leading epsilons in its window. */
    method NumEpsilons(s: nat, output: bool, sorted: bool) returns (n: nat)
      requires Valid() && s < data.nstates
      modifies this`finals, this`arcs
      ensures Valid()
      ensures s in old(arcs) || sorted ==> arcs == old(arcs) && finals == old(finals)
      ensures s !in old(arcs) && !sorted ==>
                arcs == old(arcs)[s := ExpandedArcs(compactor, s, StateWindow(s))] &&
                finals == old(finals)[s := WeightOr(ExpandedFinal(compactor, s, StateWindow(s)), zero)]
      ensures s in arcs ==> n == CountZeros(ArcLabels(arcs[s], output))
      ensures s !in arcs ==> n == LeadingEpsilons(Labels(compactor, s, StateWindow(s), output))
    {
      if s !in arcs && !sorted {
        Expand(s);
      }
      if s in arcs {
        n := CountCached(arcs[s], output);
      } else {
        n := CountEpsilons(s, output);
      }
    }
  }

  /** The loop of `Expand(s)` over the elements `[begin, end)`: the arcs it
      pushes and the final weight it last sets, if any. */
  method ExpandRange<E, W>(c: Compactor<E, W>, s: nat, cs: array<E>, begin: nat, end: nat)
    returns (pushed: seq<Arc<W>>, fin: Option<W>)
    requires begin <= end <= cs.Length
    ensures pushed == ExpandedArcs(c, s, cs[begin..end])
    ensures fin == ExpandedFinal(c, s, cs[begin..end])
  {
    ghost var ws := cs[begin..end];
    pushed, fin := [], None;
    var i := begin;
    while i < end
      invariant begin <= i <= end
      invariant pushed == ExpandedArcs(c, s, ws[..i - begin])
      invariant fin == ExpandedFinal(c, s, ws[..i - begin])
    {
      var arc := c.expand(s, cs[i]);
      ghost var j := i - begin;
      assert ws[..j + 1][..j] == ws[..j];
      assert ws[..j + 1][j] == cs[i];
      if arc.ilabel == NoLabel {
        fin := Some(arc.weight);
      } else {
        pushed := pushed + [arc];
      }
      i := i + 1;
    }
    assert ws[..end - begin] == ws;
  }

  /** The cache's count of epsilon arcs of a state. */
  method CountCached<W>(arcs: seq<Arc<W>>, output: bool) returns (n: nat)
    ensures n == CountZeros(ArcLabels(arcs, output))
  {
    n := 0;
    var i := |arcs|;
    while i > 0
      invariant 0 <= i <= |arcs|
      invariant n == CountZeros(ArcLabels(arcs, output)[i..])
    {
      i := i - 1;
      assert ArcLabels(arcs, output)[i..][1..] == ArcLabels(arcs, output)[i + 1..];
      if Label(arcs[i], output) == 0 {
        n := n + 1;
      }
    }
  }

  /** With superfinal elements only in first position, `Final`, `NumArcs`
      and the arc iterator read off the first element what `Expand` finds by
      scanning the whole window. */
  lemma ReadersAgreeWithExpand<E(0), W>(impl: CompactFstImpl<E, W>, s: nat)
    requires impl.Valid() && s < impl.data.nstates && s !in impl.arcs
    requires MarkersFirst(impl.compactor, s, impl.StateWindow(s))
    ensures impl.Final(s) == WeightOr(ExpandedFinal(impl.compactor, s, impl.StateWindow(s)), impl.zero)
    ensures impl.NumArcs(s) == |ExpandedArcs(impl.compactor, s, impl.StateWindow(s))|
    ensures ExpandAll(impl.compactor, s, WindowTail(impl.compactor, s, impl.StateWindow(s)))
            == ExpandedArcs(impl.compactor, s, impl.StateWindow(s))
  {
    FirstDecodersAgree(impl.compactor, impl.zero, s, impl.StateWindow(s));
  }

  /** An implementation over the store built from fst answers every query
      about a faithfully represented state as fst does: `Final` gives its
      final weight, `NumArcs` its number of arcs, `Expand` caches its arcs
      and its final weight, and the arc iterator walks the compactions of
      its arcs. */
  lemma QueriesRecoverFst<E(0), W>(impl: CompactFstImpl<E, W>, fst: Fst<W>, width: nat, s: nat)
    requires ValidSize(impl.compactor) && impl.data.compacts != null
    requires impl.finals.Keys == impl.arcs.Keys && s !in impl.arcs
    requires impl.data.Snapshot() == FstImage(impl.compactor, impl.zero, width, fst)
    requires impl.compactor.size == -1 || UniformWindows(impl.zero, fst.states, impl.compactor.size)
    requires Total(impl.zero, fst.states) < Pow2(width)
    requires s < |fst.states| && Faithful(impl.compactor, impl.zero, s, fst.states[s])
    ensures impl.Valid() && s < impl.data.nstates
    ensures impl.StateWindow(s) == Window(impl.compactor, impl.zero, s, fst.states[s])
    ensures impl.Final(s) == fst.states[s].final
    ensures impl.NumArcs(s) == |fst.states[s].arcs|
    ensures ExpandedArcs(impl.compactor, s, impl.StateWindow(s)) == fst.states[s].arcs
    ensures WeightOr(ExpandedFinal(impl.compactor, s, impl.StateWindow(s)), impl.zero) == fst.states[s].final
    ensures WindowTail(impl.compactor, s, impl.StateWindow(s)) == CompactArcs(impl.compactor, s, fst.states[s].arcs)
  {
    FstImageWellFormed(impl.compactor, impl.zero, width, fst);
    WindowRoundTrip(impl.compactor, impl.zero, s, fst.states[s]);
    WindowTailArcs(impl.compactor, impl.zero, s, fst.states[s]);
  }

  /** Over the store an FST builds, `Start` is the FST's start and
      `NumStates` its number of states, or none once the error property is
      set. */
  lemma CountsRecoverFst<E(0), W>(impl: CompactFstImpl<E, W>, fst: Fst<W>, width: nat)
    requires impl.data.Snapshot() == FstImage(impl.compactor, impl.zero, width, fst)
    ensures impl.Start() == fst.start
    ensures impl.NumStates() == (if impl.error then 0 else |fst.states|)
  {
    assert impl.data.start == impl.data.Snapshot().start;
    assert impl.data.nstates == impl.data.Snapshot().nstates;
  }

  /** An implementation over the store the element constructor builds
      with the string compactor answers each state's queries from the one
      element of its window. With t the input completed by the implicit
      final element, there are |t| states and the start is 0; a label state
      has one arc, on that label with weight One to the next state, and is
      not final; a superfinal element makes its state final with weight One
      and leaves it no arcs. */
  lemma StringElementsQueries<W>(impl: CompactFstImpl<int, W>, one: W, width: nat, labels: seq<int>, s: nat)
    requires impl.compactor == StringCompactor(one) && impl.data.compacts != null
    requires impl.finals.Keys == impl.arcs.Keys && s !in impl.arcs
    requires impl.data.Snapshot() == ElementsImage(impl.compactor, impl.zero, one, width, labels)
    requires s < |Terminated(impl.compactor, one, labels)|
    ensures var t := Terminated(impl.compactor, one, labels);
            impl.Valid() && impl.data.nstates == |t| && impl.Start() == 0 && impl.StateWindow(s) == [t[s]] &&
            impl.NumArcs(s) == (if t[s] == NoLabel then 0 else 1) &&
            impl.Final(s) == (if t[s] == NoLabel then one else impl.zero) &&
            ExpandedArcs(impl.compactor, s, impl.StateWindow(s))
            == (if t[s] == NoLabel then [] else [Arc(t[s], t[s], one, s + 1)])
  {
    var t := Terminated(impl.compactor, one, labels);
    assert impl.data.compacts[..] == t;
    assert impl.StateWindow(s) == t[s..s + 1] == [t[s]];
    assert [t[s]][..0] == [];
  }

  /** Labels l0, ..., ln-1, none of them kNoLabel, give the string FST of
      n + 1 states in which state s < n is not final and has the one arc on
      ls to s + 1 with weight One, and state n is final with weight One and
      has no arcs; empty input gives a single final state without arcs. */
  lemma StringElementsPath<W>(impl: CompactFstImpl<int, W>, one: W, width: nat, labels: seq<int>, s: nat)
    requires impl.compactor == StringCompactor(one) && impl.data.compacts != null
    requires impl.finals.Keys == impl.arcs.Keys && s !in impl.arcs
    requires impl.data.Snapshot() == ElementsImage(impl.compactor, impl.zero, one, width, labels)
    requires forall j :: 0 <= j < |labels| ==> labels[j] != NoLabel
    requires s <= |labels|
    ensures impl.Valid() && impl.data.nstates == |labels| + 1 && impl.Start() == 0
    ensures s < |labels| ==>
              impl.NumArcs(s) == 1 && impl.Final(s) == impl.zero &&
              ExpandedArcs(impl.compactor, s, impl.StateWindow(s)) == [Arc(labels[s], labels[s], one, s + 1)]
    ensures s == |labels| ==> impl.NumArcs(s) == 0 && impl.Final(s) == one
  {
    var t := Terminated(impl.compactor, one, labels);
    assert t == labels + [NoLabel];
    assert t[s] == if s < |labels| then labels[s] else NoLabel;
    StringElementsQueries(impl, one, width, labels, s);
  }

  /** Without expanding, `NumInputEpsilons`/`NumOutputEpsilons` on an FST
      sorted on that label count exactly the state's epsilon arcs, as they
      would after expanding it. */
  lemma SortedCountIsExact<E(0), W>(impl: CompactFstImpl<E, W>, fst: Fst<W>, width: nat, s: nat, output: bool)
    requires ValidSize(impl.compactor) && impl.data.compacts != null
    requires impl.finals.Keys == impl.arcs.Keys
    requires impl.data.Snapshot() == FstImage(impl.compactor, impl.zero, width, fst)
    requires impl.compactor.size == -1 || UniformWindows(impl.zero, fst.states, impl.compactor.size)
    requires Total(impl.zero, fst.states) < Pow2(width)
    requires s < |fst.states| && Faithful(impl.compactor, impl.zero, s, fst.states[s])
    requires fst.states[s].final != impl.zero ==>
      Label(impl.compactor.expand(s, impl.compactor.compact(s, Superfinal(fst.states[s].final))), output) == NoLabel
    requires SortedLabels(ArcLabels(fst.states[s].arcs, output))
    requires forall j :: 0 <= j < |fst.states[s].arcs| ==> Label(fst.states[s].arcs[j], output) >= 0
    ensures impl.Valid() && s < impl.data.nstates
    ensures LeadingEpsilons(Labels(impl.compactor, s, impl.StateWindow(s), output))
            == CountZeros(ArcLabels(fst.states[s].arcs, output))
  {
    FstImageWellFormed(impl.compactor, impl.zero, width, fst);
    SortedEpsilons(impl.compactor, impl.zero, s, fst.states[s], output);
  }

  // ---------------------------------------------------------------------
  // The state iterator (lines 1034-1056).

  /** Iterates over states 0..NumStates()-1. */
  class StateIterator<E(0), W(==)> {
    const nstates: nat
    var s: nat

    constructor (impl: CompactFstImpl<E, W>)
      ensures nstates == impl.NumStates() && s == 0
    {
      nstates := impl.NumStates();
      s := 0;
    }

    predicate Done()
      reads this
    {
      s >= nstates
    }

    function Value(): nat
      reads this
    {
      s
    }

    method Next()
      modifies this`s
      ensures s == old(s) + 1
    {
      s := s + 1;
    }

    method Reset()
      modifies this`s
      ensures s == 0
    {
      s := 0;
    }
  }

  // ---------------------------------------------------------------------
  // The arc iterator (lines 1060-1126).

  /** `kArcValueFlags`: the four arc value flags of the arc iterator
      interface. */
  const ArcValueFlags: bv32 := 0xf

  /** Walks state s's elements in place, after skipping a leading
      superfinal element, and expands each one when asked for its value. */
  class ArcIterator<E(0), W(==)> {
    const compactor: Compactor<E, W>
    const state: nat
    /** The store's element array, borrowed. */
    const compacts: array<E>
    const offset: nat
    const numArcs: nat
    var pos: nat
    var flags: bv32

    ghost predicate Valid()
      reads this
    {
      offset + numArcs <= compacts.Length && flags & !ArcValueFlags == 0
    }

    /** The arcs the iterator yields, in order. */
    ghost function Arcs(): (r: seq<Arc<W>>)
      reads this, compacts
      requires Valid()
      ensures |r| == numArcs
    {
      ExpandAll(compactor, state, compacts[offset..offset + numArcs])
    }

    /** Positions the iterator on state s's window, past its superfinal
        element when it has one. */
    constructor (impl: CompactFstImpl<E, W>, s: nat)
      requires impl.Valid() && s < impl.data.nstates
      ensures Valid() && pos == 0 && flags == ArcValueFlags
      ensures compactor == impl.compactor && state == s && compacts == impl.data.compacts
      ensures numArcs == ArcCount(impl.compactor, s, impl.StateWindow(s))
      ensures compacts[offset..offset + numArcs] == WindowTail(impl.compactor, s, impl.StateWindow(s))
    {
      compactor := impl.compactor;
      state := s;
      var off, num := impl.ArcWindow(s);
      compacts := impl.data.compacts;
      offset := off;
      numArcs := num;
      pos := 0;
      flags := ArcValueFlags;
    }

    predicate Done()
      reads this
    {
      pos >= numArcs
    }

    /** The arc at the current position. */
    function Value(): (a: Arc<W>)
      reads this, compacts
      requires Valid() && pos < numArcs
      ensures a == Arcs()[pos]
    {
      compactor.expand(state, compacts[offset + pos])
    }

    method Next()
      modifies this`pos
      ensures pos == old(pos) + 1
    {
      pos := pos + 1;
    }

    function Position(): nat
      reads this
    {
      pos
    }

    method Reset()
      modifies this`pos
      ensures pos == 0
    {
      pos := 0;
    }

    method Seek(p: nat)
      modifies this`pos
      ensures pos == p
    {
      pos := p;
    }

    function Flags(): bv32
      reads this
    {
      flags
    }

    /** Clears the flags in m, then sets those of f that are arc value
        flags: no other flag can ever be set. */
    method SetFlags(f: bv32, m: bv32)
      requires Valid()
      modifies this`flags
      ensures Valid()
      ensures flags == (old(flags) & !m) | (f & ArcValueFlags)
    {
      flags := flags & !m;
      flags := flags | (f & ArcValueFlags);
    }
  }

  /** The iterator over a faithfully represented state of the store built
      from fst yields exactly that state's arcs, `NumArcs(s)` of them. */
  lemma ArcIteratorYieldsArcs<E(0), W>(impl: CompactFstImpl<E, W>, fst: Fst<W>, width: nat, s: nat,
                                            it: ArcIterator<E, W>)
    requires impl.Valid() && s !in impl.arcs
    requires impl.data.Snapshot() == FstImage(impl.compactor, impl.zero, width, fst)
    requires impl.compactor.size == -1 || UniformWindows(impl.zero, fst.states, impl.compactor.size)
    requires Total(impl.zero, fst.states) < Pow2(width)
    requires s < |fst.states| && Faithful(impl.compactor, impl.zero, s, fst.states[s])
    requires it.Valid() && it.compactor == impl.compactor && it.state == s
    requires it.compacts[it.offset..it.offset + it.numArcs]
             == WindowTail(impl.compactor, s, impl.StateWindow(s))
    ensures it.Arcs() == fst.states[s].arcs
    ensures it.numArcs == impl.NumArcs(s)
  {
    QueriesRecoverFst(impl, fst, width, s);
    WindowTailArcs(impl.compactor, impl.zero, s, fst.states[s]);
  }

  // ---------------------------------------------------------------------
  // The streaming writer (lines 928-1030).

  /** The header `WriteFst` writes for fst. */
  function FstHeader<E, W>(fst: Fst<W>, c: Compactor<E, W>, width: nat, align: bool): Header
  {
    Header(TypeString(width, c.typeName, "compact"), WriteVersion(align), align,
           fst.start, |fst.states|, NumArcsOf(fst.states))
  }

  /** What `CompactFst::WriteFst` writes for an FST that is not itself a
      compact FST, as written. The header is the one the source fills in
      (lines 966-980) before its compatibility test; it is written only when
      `compatible` holds, and otherwise nothing at all is written and the
      header returned means nothing. `compatible` stands for the whole test
      at line 983: no kError in the FST's copied properties and the
      compactor's `Compatible(fst)`. For
      variable arity a failed alignment before the offsets fails the write,
      then the prefix sums of the window sizes, truncated to the offset
      width; then padding, but a failed alignment there is only logged
      (lines 1007-1009); then every window in state order. */
  function WriteFstOutcome<E, W(==)>(fst: Fst<W>, c: Compactor<E, W>, zero: W, width: nat,
                                     align: bool, seekable: bool, compatible: bool): (bool, Header, seq<Item<E>>)
  {
    var hdr := FstHeader(fst, c, width, align);
    if !compatible then (false, hdr, [])
    else if c.size == -1 && align && !seekable then (false, hdr, [])
    else
      (true, hdr,
       (if c.size == -1 then PadItems(align) + OffsetItems(Truncated(Offsets(zero, fst.states), width)) else [])
       + (if align && seekable then [Pad] else [])
       + ElementItems(Layout(c, zero, fst.states)))
  }

  /** What `WriteFst` evidently intends: every failed alignment fails the
      write, as in `DefaultCompactStore::Write`. */
  function WriteFstOutcomeCorrected<E, W(==)>(fst: Fst<W>, c: Compactor<E, W>, zero: W, width: nat,
                                              align: bool, seekable: bool, compatible: bool)
    : (bool, Header, seq<Item<E>>)
  {
    var hdr := FstHeader(fst, c, width, align);
    if !compatible || (align && !seekable) then (false, hdr, [])
    else
      (true, hdr,
       (if c.size == -1 then PadItems(align) + OffsetItems(Truncated(Offsets(zero, fst.states), width)) else [])
       + PadItems(align)
       + ElementItems(Layout(c, zero, fst.states)))
  }

  lemma ElementItemsAppend<E>(a: seq<E>, b: seq<E>)
    ensures ElementItems(a + b) == ElementItems(a) + ElementItems(b)
  {
  }

  /** Writes state s's window: its superfinal element when it is final,
      then one element per arc. */
  method WriteWindow<E, W(==)>(c: Compactor<E, W>, zero: W, s: nat, st: State<W>) returns (out: seq<Item<E>>)
    ensures out == ElementItems(Window(c, zero, s, st))
  {
    ghost var f := FinalElement(c, zero, s, st);
    out := [];
    if st.final != zero {
      out := [Element(c.compact(s, Superfinal(st.final)))];
    }
    var a := 0;
    while a < |st.arcs|
      invariant a <= |st.arcs|
      invariant out == ElementItems(f + CompactArcs(c, s, st.arcs[..a]))
    {
      assert st.arcs[..a + 1][..a] == st.arcs[..a];
      assert f + CompactArcs(c, s, st.arcs[..a + 1]) == (f + CompactArcs(c, s, st.arcs[..a])) + [c.compact(s, st.arcs[a])];
      ElementItemsAppend(f + CompactArcs(c, s, st.arcs[..a]), [c.compact(s, st.arcs[a])]);
      out := out + [Element(c.compact(s, st.arcs[a]))];
      a := a + 1;
    }
    assert st.arcs[..|st.arcs|] == st.arcs;
  }

  /** One step of the offset pass: the running `Unsigned` counter moves
      from the truncated start of window s to the truncated start of window
      s + 1. */
  lemma OffsetStep<W>(zero: W, sts: seq<State<W>>, width: nat, s: nat)
    requires s < |sts|
    ensures var o := Offsets(zero, sts);
            var c1 := if sts[s].final != zero then Truncate(Truncate(o[s], width) + 1, width) else Truncate(o[s], width);
            Truncate(c1 + |sts[s].arcs|, width) == Truncate(o[s + 1], width)
  {
    var o := Offsets(zero, sts);
    OffsetsAt(zero, sts, s);
    if sts[s].final != zero {
      TruncateAdd(o[s], 1, width);
      TruncateAdd(o[s] + 1, |sts[s].arcs|, width);
    } else {
      TruncateAdd(o[s], |sts[s].arcs|, width);
    }
  }

  /** The offset pass of `WriteFst`: the running `Unsigned` counter before
      each state, and the total after the last. */
  method WriteOffsets<E, W(==)>(zero: W, sts: seq<State<W>>, width: nat) returns (items: seq<Item<E>>)
    ensures items == OffsetItems(Truncated(Offsets(zero, sts), width))
  {
    ghost var offs := Truncated(Offsets(zero, sts), width);
    items := [];
    var compacts: nat := 0;
    if |sts| > 0 {
      OffsetsAt(zero, sts, 0);
      assert sts[..0] == [];
    }
    var s := 0;
    while s < |sts|
      invariant s <= |sts|
      invariant compacts == Truncate(Offsets(zero, sts)[s], width)
      invariant items == OffsetItems(offs[..s])
    {
      assert offs[..s + 1] == offs[..s] + [compacts];
      items := items + [Offset(compacts)];
      OffsetStep(zero, sts, width, s);
      if sts[s].final != zero {
        compacts := Truncate(compacts + 1, width);
      }
      compacts := Truncate(compacts + |sts[s].arcs|, width);
      s := s + 1;
    }
    assert offs[..s + 1] == offs[..s] + [compacts];
    assert offs[..s + 1] == offs;
    items := items + [Offset(compacts)];
  }

  /** The element pass of `WriteFst`: every window in state order. */
  method WriteElements<E, W(==)>(c: Compactor<E, W>, zero: W, sts: seq<State<W>>) returns (items: seq<Item<E>>)
    ensures items == ElementItems(Layout(c, zero, sts))
  {
    items := [];
    var s := 0;
    while s < |sts|
      invariant s <= |sts|
      invariant items == ElementItems(Layout(c, zero, sts[..s]))
    {
      var w := WriteWindow(c, zero, s, sts[s]);
      assert sts[..s + 1][..s] == sts[..s];
      assert sts[..s + 1][s] == sts[s];
      ElementItemsAppend(Layout(c, zero, sts[..s]), Window(c, zero, s, sts[s]));
      items := items + w;
      s := s + 1;
    }
    assert sts[..s] == sts;
  }

  /** `CompactFst::WriteFst` for an FST that is not a compact FST:
      `compatible` is the test at line 983 (no kError in fst's copied
      properties and the compactor's verdict on fst) and `seekable` whether
      the stream's position is known. When `compatible` fails nothing is
      written and `hdr` is only the header prepared before the test. A
      failing stream is not modelled. */
  method WriteFst<E, W(==)>(fst: Fst<W>, c: Compactor<E, W>, zero: W, width: nat,
                            align: bool, seekable: bool, compatible: bool)
    returns (ok: bool, hdr: Header, items: seq<Item<E>>)
    ensures (ok, hdr, items) == WriteFstOutcome(fst, c, zero, width, align, seekable, compatible)
  {
    var numArcs, numFinals := CountStates(zero, fst.states);
    hdr := Header(TypeString(width, c.typeName, "compact"), WriteVersion(align), align,
                  fst.start, |fst.states|, numArcs);
    if !compatible {
      return false, hdr, [];
    }
    items := [];
    if c.size == -1 {
      if align && !seekable {
        return false, hdr, [];
      }
      var offsets := WriteOffsets(zero, fst.states, width);
      items := PadItems(align) + offsets;
    }
    if align && seekable {
      items := items + [Pad];
    }
    var elements := WriteElements(c, zero, fst.states);
    items := items + elements;
    ok := true;
    assert hdr == FstHeader(fst, c, width, align);
    assert items == (if c.size == -1 then PadItems(align) + OffsetItems(Truncated(Offsets(zero, fst.states), width)) else [])
       + (if align && seekable then [Pad] else [])
       + ElementItems(Layout(c, zero, fst.states));
  }

  /** Except after a failed alignment of a fixed-arity FST, `WriteFst`
      writes the header followed by the store image `FstImage` of fst, as the
      store's `Write` would. That image is what the FST constructor builds
      only when it reports no error, that is for variable arity or uniform
      windows; for other fixed-arity input `WriteFst` still writes it while
      the constructor sets its error flag. */
  lemma WriteFstMatchesStore<E, W>(fst: Fst<W>, c: Compactor<E, W>, zero: W, width: nat, align: bool, seekable: bool)
    requires !(c.size != -1 && align && !seekable)
    ensures WriteFstOutcome(fst, c, zero, width, align, seekable, true)
            == WriteFile(TypeString(width, c.typeName, "compact"), FstImage(c, zero, width, fst), align, seekable)
  {
  }

  /** The file `WriteFst` writes reads back as the store the FST
      constructor builds, when that store has no error and its element
      count fits the offset width. */
  lemma WriteFstReadsBack<E, W>(fst: Fst<W>, c: Compactor<E, W>, zero: W, width: nat, align: bool)
    requires ValidSize(c) && (c.size == -1 || UniformWindows(zero, fst.states, c.size))
    requires Total(zero, fst.states) < Pow2(width)
    ensures var w := WriteFstOutcome(fst, c, zero, width, align, true, true);
            w.0 && ReadFile(w.1, w.2, c.size, true) == Some(FstImage(c, zero, width, fst))
  {
    WriteFstMatchesStore(fst, c, zero, width, align, true);
    FstImageWellFormed(c, zero, width, fst);
    FileRoundTrip(TypeString(width, c.typeName, "compact"), FstImage(c, zero, width, fst), c.size, align);
  }

  /** As written, `WriteFst` reports success for a fixed-arity FST whose
      alignment after the (absent) offsets fails, where the store's own
      `Write` reports failure. */
  lemma WriteFstIgnoresAlignmentFailure<E, W>(fst: Fst<W>, c: Compactor<E, W>, zero: W, width: nat)
    requires c.size > 0
    ensures WriteFstOutcome(fst, c, zero, width, true, false, true).0
    ensures !WriteFile(TypeString(width, c.typeName, "compact"), FstImage(c, zero, width, fst), true, false).0
  {
  }

  /** The corrected writer writes the same file as the store, success or
      failure, for every stream. */
  lemma WriteFstCorrectedMatchesStore<E, W>(fst: Fst<W>, c: Compactor<E, W>, zero: W, width: nat,
                                            align: bool, seekable: bool)
    ensures WriteFstOutcomeCorrected(fst, c, zero, width, align, seekable, true)
            == WriteFile(TypeString(width, c.typeName, "compact"), FstImage(c, zero, width, fst), align, seekable)
    ensures !(c.size != -1 && align && !seekable) ==>
              WriteFstOutcomeCorrected(fst, c, zero, width, align, seekable, true)
              == WriteFstOutcome(fst, c, zero, width, align, seekable, true)
  {
  }
}
