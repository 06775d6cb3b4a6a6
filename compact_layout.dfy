/** The element layout of a compact FST (src/include/fst/compact-fst.h,
    lines 100-121): the states of a source FST are laid out one after the
    other in a flat element array; a state's window holds its superfinal
    element first (only when the state is final) and then its arcs in
    iteration order. For variable arity an offset array of nstates + 1
    prefix sums marks the windows.

    This module states the layout as functions of the source FST and the
    decoding as functions of a window, and proves that decoding a window
    gives the state back. */
module CompactLayout {
  import opened FstBase
  import opened Compactors
  import opened Wrappers

  // ---------------------------------------------------------------------
  // Encoding: windows, the element array and the offsets.

  /** Number of elements state st occupies: one for a final weight, one per
      arc. */
  function WindowSize<W(==)>(zero: W, st: State<W>): nat
  {
    (if st.final != zero then 1 else 0) + |st.arcs|
  }

  /** The elements of arcs compacted at state s, in order. */
  function CompactArcs<E, W>(c: Compactor<E, W>, s: int, arcs: seq<Arc<W>>): (r: seq<E>)
    ensures |r| == |arcs|
  {
    if |arcs| == 0 then [] else CompactArcs(c, s, arcs[..|arcs| - 1]) + [c.compact(s, arcs[|arcs| - 1])]
  }

  lemma {:induction false} CompactArcsAt<E, W>(c: Compactor<E, W>, s: int, arcs: seq<Arc<W>>, j: nat)
    requires j < |arcs|
    ensures CompactArcs(c, s, arcs)[j] == c.compact(s, arcs[j])
  {
    if j < |arcs| - 1 {
      CompactArcsAt(c, s, arcs[..|arcs| - 1], j);
    }
  }

  /** The superfinal element of st, if st is final. */
  function FinalElement<E, W(==)>(c: Compactor<E, W>, zero: W, s: int, st: State<W>): seq<E>
  {
    if st.final != zero then [c.compact(s, Superfinal(st.final))] else []
  }

  /** The window of state s: its superfinal element (when final), then its
      arcs. */
  function Window<E, W(==)>(c: Compactor<E, W>, zero: W, s: int, st: State<W>): (r: seq<E>)
    ensures |r| == WindowSize(zero, st)
  {
    FinalElement(c, zero, s, st) + CompactArcs(c, s, st.arcs)
  }

  /** The element array of states 0..|states|-1. */
  function Layout<E, W(==)>(c: Compactor<E, W>, zero: W, states: seq<State<W>>): seq<E>
  {
    if |states| == 0 then []
    else Layout(c, zero, states[..|states| - 1])
         + Window(c, zero, |states| - 1, states[|states| - 1])
  }

  /** Total number of elements of states 0..|states|-1. */
  function Total<W(==)>(zero: W, states: seq<State<W>>): nat
  {
    if |states| == 0 then 0
    else Total(zero, states[..|states| - 1]) + WindowSize(zero, states[|states| - 1])
  }

  /** The offset array: entry s is where state s's window starts, the last
      entry is the total. */
  function Offsets<W(==)>(zero: W, states: seq<State<W>>): (r: seq<nat>)
    ensures |r| == |states| + 1
  {
    if |states| == 0 then [0]
    else Offsets(zero, states[..|states| - 1]) + [Total(zero, states)]
  }

  /** Number of final states. */
  function NumFinals<W(==)>(zero: W, states: seq<State<W>>): nat
  {
    if |states| == 0 then 0
    else NumFinals(zero, states[..|states| - 1]) + (if states[|states| - 1].final != zero then 1 else 0)
  }

  /** Number of arcs. */
  function NumArcsOf<W>(states: seq<State<W>>): nat
  {
    if |states| == 0 then 0 else NumArcsOf(states[..|states| - 1]) + |states[|states| - 1].arcs|
  }

  /** The element array is as long as the total, which counts every arc and
      every final weight once. */
  lemma {:induction false} LayoutLength<E, W>(c: Compactor<E, W>, zero: W, states: seq<State<W>>)
    ensures |Layout(c, zero, states)| == Total(zero, states) == NumArcsOf(states) + NumFinals(zero, states)
  {
    if |states| > 0 {
      LayoutLength(c, zero, states[..|states| - 1]);
    }
  }

  /** The last offset is the total. */
  lemma OffsetsLast<W>(zero: W, states: seq<State<W>>)
    ensures Offsets(zero, states)[|states|] == Total(zero, states)
  {
  }

  /** Laying out a prefix of the states gives a prefix of the layout and of
      the offsets. */
  lemma {:induction false} LayoutPrefix<E, W>(c: Compactor<E, W>, zero: W, states: seq<State<W>>, m: nat)
    requires m <= |states|
    ensures Layout(c, zero, states[..m]) <= Layout(c, zero, states)
    ensures Offsets(zero, states[..m]) <= Offsets(zero, states)
    ensures Total(zero, states[..m]) <= Total(zero, states)
  {
    if m < |states| {
      var n := |states|;
      LayoutPrefix(c, zero, states[..n - 1], m);
      assert states[..n - 1][..m] == states[..m];
    } else {
      assert states[..m] == states;
    }
  }

  /** The offsets are the prefix sums of the window sizes: they never
      decrease, and window s lies between entries s and s + 1. */
  lemma {:induction false} OffsetsAt<W>(zero: W, states: seq<State<W>>, s: nat)
    requires s < |states|
    ensures Offsets(zero, states)[s] == Total(zero, states[..s])
    ensures Offsets(zero, states)[s + 1] == Offsets(zero, states)[s] + WindowSize(zero, states[s])
  {
    var n := |states|;
    if s < n - 1 {
      OffsetsAt(zero, states[..n - 1], s);
      assert states[..n - 1][..s] == states[..s];
      assert states[..n - 1][..s + 1] == states[..s + 1];
      assert states[..n - 1][s] == states[s];
    } else {
      assert states[..n - 1] == states[..s];
      OffsetsLast(zero, states[..s]);
    }
    assert states[..s + 1][..s] == states[..s];
  }

  /** Offsets never decrease. */
  lemma OffsetsMonotone<W>(zero: W, states: seq<State<W>>, i: nat, j: nat)
    requires i <= j <= |states|
    ensures Offsets(zero, states)[i] <= Offsets(zero, states)[j]
    decreases j - i
  {
    if i < j {
      OffsetsMonotone(zero, states, i, j - 1);
      OffsetsAt(zero, states, j - 1);
    }
  }

  /** The elements between offsets s and s + 1 are exactly state s's
      window. */
  lemma {:induction false} LayoutWindow<E, W>(c: Compactor<E, W>, zero: W, states: seq<State<W>>, s: nat)
    requires s < |states|
    ensures Offsets(zero, states)[s] <= Offsets(zero, states)[s + 1] <= |Layout(c, zero, states)|
    ensures Layout(c, zero, states)[Offsets(zero, states)[s]..Offsets(zero, states)[s + 1]]
            == Window(c, zero, s, states[s])
  {
    var n := |states|;
    OffsetsAt(zero, states, s);
    LayoutPrefix(c, zero, states, s + 1);
    LayoutLength(c, zero, states);
    LayoutLength(c, zero, states[..s]);
    LayoutLength(c, zero, states[..s + 1]);
    LayoutPrefix(c, zero, states, s + 1);
    assert states[..s + 1][..s] == states[..s];
    assert states[..s + 1][s] == states[s];
    var pre := Layout(c, zero, states[..s]);
    var whole := Layout(c, zero, states);
    assert Layout(c, zero, states[..s + 1]) == pre + Window(c, zero, s, states[s]);
    assert Total(zero, states[..s + 1]) <= Total(zero, states);
    assert whole[|pre|..|pre| + WindowSize(zero, states[s])] == Window(c, zero, s, states[s]);
  }

  // ---------------------------------------------------------------------
  // Decoding a window.

  /** An element that expands to a superfinal transition. */
  predicate IsMarker<E, W>(c: Compactor<E, W>, s: int, e: E)
  {
    c.expand(s, e).ilabel == NoLabel
  }

  /** The arcs `Expand(s)` pushes: the expansions of the non-marker elements
      of the window, in order. */
  function ExpandedArcs<E, W>(c: Compactor<E, W>, s: int, ws: seq<E>): (r: seq<Arc<W>>)
    ensures |r| <= |ws|
  {
    if |ws| == 0 then []
    else
      var last := ws[|ws| - 1];
      ExpandedArcs(c, s, ws[..|ws| - 1]) + (if IsMarker(c, s, last) then [] else [c.expand(s, last)])
  }

  /** The final weight `Expand(s)` records: that of the last marker in the
      window, if any. */
  function ExpandedFinal<E, W>(c: Compactor<E, W>, s: int, ws: seq<E>): Option<W>
  {
    if |ws| == 0 then None
    else if IsMarker(c, s, ws[|ws| - 1]) then Some(c.expand(s, ws[|ws| - 1]).weight)
    else ExpandedFinal(c, s, ws[..|ws| - 1])
  }

  /** `Final(s)` read off a window: the weight of the first element when it
      is a marker, Zero otherwise (also for an empty window). */
  function FirstFinal<E, W>(c: Compactor<E, W>, zero: W, s: int, ws: seq<E>): W
  {
    if |ws| > 0 && IsMarker(c, s, ws[0]) then c.expand(s, ws[0]).weight else zero
  }

  /** `NumArcs(s)` read off a window: its size, less one when the first
      element is a marker. */
  function ArcCount<E, W>(c: Compactor<E, W>, s: int, ws: seq<E>): nat
  {
    if |ws| > 0 && IsMarker(c, s, ws[0]) then |ws| - 1 else |ws|
  }

  /** The compactor represents state s faithfully: every arc survives the
      round trip and is not mistaken for a superfinal transition, and a
      final weight is stored as a marker that expands with that weight. */
  predicate Faithful<E, W(==)>(c: Compactor<E, W>, zero: W, s: int, st: State<W>)
  {
    (st.final != zero ==>
      IsMarker(c, s, c.compact(s, Superfinal(st.final))) &&
      c.expand(s, c.compact(s, Superfinal(st.final))).weight == st.final) &&
    (forall j :: 0 <= j < |st.arcs| ==>
      c.expand(s, c.compact(s, st.arcs[j])) == st.arcs[j] && st.arcs[j].ilabel != NoLabel)
  }

  lemma {:induction false} ExpandCompactArcs<E, W>(c: Compactor<E, W>, zero: W, s: int, st: State<W>, m: nat)
    requires Faithful(c, zero, s, st) && m <= |st.arcs|
    ensures ExpandedArcs(c, s, CompactArcs(c, s, st.arcs[..m])) == st.arcs[..m]
    ensures ExpandedFinal(c, s, CompactArcs(c, s, st.arcs[..m])) == None
  {
    if m > 0 {
      var ws := CompactArcs(c, s, st.arcs[..m]);
      assert st.arcs[..m][..m - 1] == st.arcs[..m - 1];
      assert ws[..m - 1] == CompactArcs(c, s, st.arcs[..m - 1]);
      assert ws[m - 1] == c.compact(s, st.arcs[m - 1]);
      ExpandCompactArcs(c, zero, s, st, m - 1);
      assert st.arcs[..m] == st.arcs[..m - 1] + [st.arcs[m - 1]];
    }
  }

  lemma {:induction false} DecodeAfterFinal<E, W>(c: Compactor<E, W>, s: int, f: seq<E>, ws: seq<E>)
    requires |f| <= 1 && (forall j :: 0 <= j < |f| ==> IsMarker(c, s, f[j]))
    requires ExpandedFinal(c, s, ws) == None
    ensures ExpandedArcs(c, s, f + ws) == ExpandedArcs(c, s, ws)
    ensures ExpandedFinal(c, s, f + ws) == (if |f| == 1 then Some(c.expand(s, f[0]).weight) else None)
  {
    if |ws| == 0 {
      assert f + ws == f;
      if |f| == 1 {
        assert f[..0] == [];
      }
    } else {
      var n := |ws|;
      assert (f + ws)[..|f| + n - 1] == f + ws[..n - 1];
      assert (f + ws)[|f| + n - 1] == ws[n - 1];
      DecodeAfterFinal(c, s, f, ws[..n - 1]);
    }
  }

  /** Decoding the window of a faithfully represented state gives the state
      back: `Expand(s)` pushes exactly its arcs and records its final weight
      (when it has one), `Final(s)` is its final weight and `NumArcs(s)` its
      number of arcs. */
  lemma WindowRoundTrip<E, W>(c: Compactor<E, W>, zero: W, s: int, st: State<W>)
    requires Faithful(c, zero, s, st)
    ensures ExpandedArcs(c, s, Window(c, zero, s, st)) == st.arcs
    ensures ExpandedFinal(c, s, Window(c, zero, s, st)) == (if st.final != zero then Some(st.final) else None)
    ensures FirstFinal(c, zero, s, Window(c, zero, s, st)) == st.final
    ensures ArcCount(c, s, Window(c, zero, s, st)) == |st.arcs|
  {
    var f := FinalElement(c, zero, s, st);
    var ws := CompactArcs(c, s, st.arcs);
    ExpandCompactArcs(c, zero, s, st, |st.arcs|);
    assert st.arcs[..|st.arcs|] == st.arcs;
    DecodeAfterFinal(c, s, f, ws);
    if st.final == zero && |st.arcs| > 0 {
      CompactArcsAt(c, s, st.arcs, 0);
      assert Window(c, zero, s, st)[0] == ws[0];
    }
  }

  /** The weight recorded for a state: the one found, or else d. */
  function WeightOr<W>(o: Option<W>, d: W): W
  {
    match o
    case Some(w) => w
    case None => d
  }

  /** No element after the first is a marker. */
  predicate MarkersFirst<E, W>(c: Compactor<E, W>, s: int, ws: seq<E>)
  {
    forall j :: 1 <= j < |ws| ==> !IsMarker(c, s, ws[j])
  }

  /** The elements the arc iterator walks: the window without its leading
      marker. */
  function WindowTail<E, W>(c: Compactor<E, W>, s: int, ws: seq<E>): (r: seq<E>)
    ensures |r| == ArcCount(c, s, ws)
  {
    if |ws| > 0 && IsMarker(c, s, ws[0]) then ws[1..] else ws
  }

  /** The expansions of a run of elements, in order. */
  function ExpandAll<E, W>(c: Compactor<E, W>, s: int, ws: seq<E>): (r: seq<Arc<W>>)
    ensures |r| == |ws|
  {
    seq(|ws|, j requires 0 <= j < |ws| => c.expand(s, ws[j]))
  }

  /** When only the first element of a window can be a marker, the readers
      that look at the first element alone (`Final`, `NumArcs`, the arc
      iterator) agree with `Expand`, which scans the whole window: the same
      final weight, and the arcs are the expansions of the rest. */
  lemma {:induction false} FirstDecodersAgree<E, W>(c: Compactor<E, W>, zero: W, s: int, ws: seq<E>)
    requires MarkersFirst(c, s, ws)
    ensures FirstFinal(c, zero, s, ws) == WeightOr(ExpandedFinal(c, s, ws), zero)
    ensures ExpandedArcs(c, s, ws) == ExpandAll(c, s, WindowTail(c, s, ws))
  {
    var n := |ws|;
    if n > 1 {
      var pre := ws[..n - 1];
      assert MarkersFirst(c, s, pre) by {
        forall j | 1 <= j < |pre| ensures !IsMarker(c, s, pre[j]) {
          assert pre[j] == ws[j];
        }
      }
      FirstDecodersAgree(c, zero, s, pre);
      assert pre[0] == ws[0];
      assert !IsMarker(c, s, ws[n - 1]);
      assert WindowTail(c, s, ws) == WindowTail(c, s, pre) + [ws[n - 1]];
    } else if n == 1 {
      assert ws[..0] == [];
    }
  }

  /** In a faithfully laid out window every element after the first is an
      arc. */
  lemma WindowMarkersFirst<E, W>(c: Compactor<E, W>, zero: W, s: int, st: State<W>)
    requires Faithful(c, zero, s, st)
    ensures MarkersFirst(c, s, Window(c, zero, s, st))
  {
    var ws := Window(c, zero, s, st);
    var f := FinalElement(c, zero, s, st);
    forall j | 1 <= j < |ws| ensures !IsMarker(c, s, ws[j]) {
      CompactArcsAt(c, s, st.arcs, j - |f|);
    }
  }

  /** The arc iterator over a faithfully laid out window yields exactly the
      state's arcs. */
  lemma WindowTailArcs<E, W>(c: Compactor<E, W>, zero: W, s: int, st: State<W>)
    requires Faithful(c, zero, s, st)
    ensures ExpandAll(c, s, WindowTail(c, s, Window(c, zero, s, st))) == st.arcs
    ensures WindowTail(c, s, Window(c, zero, s, st)) == CompactArcs(c, s, st.arcs)
  {
    WindowMarkersFirst(c, zero, s, st);
    FirstDecodersAgree(c, zero, s, Window(c, zero, s, st));
    WindowRoundTrip(c, zero, s, st);
    if st.final == zero && |st.arcs| > 0 {
      CompactArcsAt(c, s, st.arcs, 0);
    }
  }

  // ---------------------------------------------------------------------
  // The stock compactors represent the states they are meant for.

  /** The string compactor represents an unweighted acceptor state whose
      arcs all lead to state s + 1, final with weight One or not final. */
  lemma StringFaithful<W>(zero: W, one: W, s: int, st: State<W>)
    requires st.final == zero || st.final == one
    requires forall j :: 0 <= j < |st.arcs| ==>
      st.arcs[j].ilabel != NoLabel && st.arcs[j].olabel == st.arcs[j].ilabel &&
      st.arcs[j].weight == one && st.arcs[j].nextstate == s + 1
    ensures Faithful(StringCompactor(one), zero, s, st)
  {
  }

  /** The weighted string compactor represents an acceptor state whose arcs
      all lead to state s + 1. */
  lemma WeightedStringFaithful<W>(zero: W, s: int, st: State<W>)
    requires forall j :: 0 <= j < |st.arcs| ==>
      st.arcs[j].ilabel != NoLabel && st.arcs[j].olabel == st.arcs[j].ilabel && st.arcs[j].nextstate == s + 1
    ensures Faithful(WeightedStringCompactor<W>(), zero, s, st)
  {
  }

  /** The unweighted acceptor compactor represents an unweighted acceptor
      state, final with weight One or not final. */
  lemma UnweightedAcceptorFaithful<W>(zero: W, one: W, s: int, st: State<W>)
    requires st.final == zero || st.final == one
    requires forall j :: 0 <= j < |st.arcs| ==>
      st.arcs[j].ilabel != NoLabel && st.arcs[j].olabel == st.arcs[j].ilabel && st.arcs[j].weight == one
    ensures Faithful(UnweightedAcceptorCompactor(one), zero, s, st)
  {
  }

  /** The acceptor compactor represents any acceptor state. */
  lemma AcceptorFaithful<W>(zero: W, s: int, st: State<W>)
    requires forall j :: 0 <= j < |st.arcs| ==>
      st.arcs[j].ilabel != NoLabel && st.arcs[j].olabel == st.arcs[j].ilabel
    ensures Faithful(AcceptorCompactor<W>(), zero, s, st)
  {
  }

  /** The unweighted compactor represents any unweighted state, final with
      weight One or not final. */
  lemma UnweightedFaithful<W>(zero: W, one: W, s: int, st: State<W>)
    requires st.final == zero || st.final == one
    requires forall j :: 0 <= j < |st.arcs| ==>
      st.arcs[j].ilabel != NoLabel && st.arcs[j].weight == one
    ensures Faithful(UnweightedCompactor(one), zero, s, st)
  {
  }

  // ---------------------------------------------------------------------
  // Counting leading epsilons.

  /** `CountEpsilons` on a window's labels: markers are skipped, counting
      stops at the first positive label, and every other label (0, or a
      negative label other than kNoLabel) is counted. */
  function LeadingEpsilons(labels: seq<int>): nat
  {
    if |labels| == 0 then 0
    else if labels[0] == NoLabel then LeadingEpsilons(labels[1..])
    else if labels[0] > 0 then 0
    else 1 + LeadingEpsilons(labels[1..])
  }

  /** Number of epsilon (0) labels. */
  function CountZeros(labels: seq<int>): nat
  {
    if |labels| == 0 then 0 else (if labels[0] == 0 then 1 else 0) + CountZeros(labels[1..])
  }

  predicate SortedLabels(labels: seq<int>)
  {
    forall i, j :: 0 <= i < j < |labels| ==> labels[i] <= labels[j]
  }

  /** On a window whose labels are sorted (a leading marker, then arcs with
      non-negative labels in order), the count of leading epsilons is the
      number of epsilon labels. */
  lemma {:induction false} LeadingEpsilonsSorted(labels: seq<int>)
    requires SortedLabels(labels)
    requires forall i :: 0 <= i < |labels| ==> labels[i] >= NoLabel
    ensures LeadingEpsilons(labels) == CountZeros(labels)
  {
    if |labels| > 0 {
      if labels[0] > 0 {
        NoZerosAbove(labels);
      } else {
        LeadingEpsilonsSorted(labels[1..]);
      }
    }
  }

  lemma {:induction false} NoZerosAbove(labels: seq<int>)
    requires SortedLabels(labels) && |labels| > 0 && labels[0] > 0
    ensures CountZeros(labels) == 0
  {
    if |labels| > 1 {
      NoZerosAbove(labels[1..]);
    }
  }

  /** The label the epsilon counters look at: the output label or the input
      label. */
  function Label<W>(a: Arc<W>, output: bool): int
  {
    if output then a.olabel else a.ilabel
  }

  /** The labels of the expansions of a window. */
  function Labels<E, W>(c: Compactor<E, W>, s: int, ws: seq<E>, output: bool): (r: seq<int>)
    ensures |r| == |ws|
  {
    seq(|ws|, j requires 0 <= j < |ws| => Label(c.expand(s, ws[j]), output))
  }

  /** The labels of an arc list. */
  function ArcLabels<W>(arcs: seq<Arc<W>>, output: bool): (r: seq<int>)
    ensures |r| == |arcs|
  {
    seq(|arcs|, j requires 0 <= j < |arcs| => Label(arcs[j], output))
  }

  /** For a faithfully laid out state whose arcs are sorted on the label
      looked at, and whose superfinal element expands with kNoLabel there,
      counting leading epsilons in the window gives the number of epsilon
      arcs: what the cache would count after `Expand`. */
  lemma SortedEpsilons<E, W>(c: Compactor<E, W>, zero: W, s: int, st: State<W>, output: bool)
    requires Faithful(c, zero, s, st)
    requires st.final != zero ==> Label(c.expand(s, c.compact(s, Superfinal(st.final))), output) == NoLabel
    requires SortedLabels(ArcLabels(st.arcs, output))
    requires forall j :: 0 <= j < |st.arcs| ==> Label(st.arcs[j], output) >= 0
    ensures LeadingEpsilons(Labels(c, s, Window(c, zero, s, st), output)) == CountZeros(ArcLabels(st.arcs, output))
  {
    var f := FinalElement(c, zero, s, st);
    var head: seq<int> := if st.final != zero then [NoLabel] else [];
    var ls := Labels(c, s, Window(c, zero, s, st), output);
    var al := ArcLabels(st.arcs, output);
    forall j | 0 <= j < |st.arcs| ensures ls[|f| + j] == al[j] {
      CompactArcsAt(c, s, st.arcs, j);
    }
    assert ls == head + al;
    assert SortedLabels(ls) by {
      forall i, j | 0 <= i < j < |ls| ensures ls[i] <= ls[j] {
        if i >= |head| {
          assert ls[i] == al[i - |head|] && ls[j] == al[j - |head|];
        } else {
          assert ls[j] == al[j - |head|];
        }
      }
    }
    LeadingEpsilonsSorted(ls);
    if st.final != zero {
      assert ls[0] == NoLabel && ls[1..] == al;
    } else {
      assert ls == al;
    }
  }
}
