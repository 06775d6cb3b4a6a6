/** `DefaultCompactStore` (src/include/fst/compact-fst.h, lines 123-409):
    the two flat arrays of a compact FST, built from a source FST or from a
    sequence of already compacted elements, and written to and read from a
    stream.

    The `Unsigned` index type is a width in bits: an offset stored in the
    offset array is truncated to that many bits, as the C++ assignment to
    `Unsigned` does. The stream is a sequence of items (offsets, elements
    and alignment padding); the byte encoding is not modelled. */
module CompactStore {
  import opened Arith
  import opened FstBase
  import opened Compactors
  import opened CompactLayout
  import opened Wrappers

  /** The offsets as stored in the `Unsigned` array. */
  function Truncated(xs: seq<nat>, width: nat): (r: seq<nat>)
    ensures |r| == |xs|
    ensures forall j :: 0 <= j < |xs| ==> r[j] == Truncate(xs[j], width)
  {
    seq(|xs|, j requires 0 <= j < |xs| => Truncate(xs[j], width))
  }

  /** The contents of a store as values: whether the offset array is
      allocated, the two arrays, and the counters. */
  datatype Image<E> = Image(
    hasStates: bool,
    states: seq<nat>,
    compacts: seq<E>,
    nstates: nat,
    ncompacts: nat,
    narcs: nat,
    start: int)

  /** A store the readers can index: the element array has `ncompacts`
      entries, and there is an offset array of nstates + 1 entries ending in
      `ncompacts` exactly when the arity is variable, or `nstates * k`
      elements for a fixed arity k. */
  predicate Consistent<E>(img: Image<E>, k: int)
  {
    |img.compacts| == img.ncompacts &&
    if k == -1 then
      img.hasStates && |img.states| == img.nstates + 1 && img.states[img.nstates] == img.ncompacts
    else
      k > 0 && !img.hasStates && img.states == [] && img.ncompacts == img.nstates * k
  }

  /** A consistent store whose offsets never decrease, so that every window
      lies inside the element array. */
  predicate WellFormed<E>(img: Image<E>, k: int)
  {
    Consistent(img, k) &&
    (k == -1 ==> forall i, j :: 0 <= i <= j <= img.nstates ==> img.states[i] <= img.states[j])
  }

  lemma MulBound(s: nat, n: nat, k: nat)
    requires s < n
    ensures (s + 1) * k <= n * k
  {
  }

  /** The elements of state s: `[states[s], states[s + 1])` for variable
      arity, `[s * k, (s + 1) * k)` for a fixed arity k. */
  function WindowOf<E>(img: Image<E>, k: int, s: nat): (r: seq<E>)
    requires WellFormed(img, k) && s < img.nstates
    ensures k != -1 ==> |r| == k
  {
    if k == -1 then img.compacts[img.states[s]..img.states[s + 1]]
    else
      MulBound(s, img.nstates, k);
      img.compacts[s * k..(s + 1) * k]
  }

  // ---------------------------------------------------------------------
  // Construction from a source FST (lines 183-245).

  /** Every state occupies exactly k elements. */
  predicate UniformWindows<W(==)>(zero: W, sts: seq<State<W>>, k: int)
  {
    forall s :: 0 <= s < |sts| ==> WindowSize(zero, sts[s]) == k
  }

  /** When every window has k elements there are k elements per state. */
  lemma {:induction false} UniformTotal<W>(zero: W, sts: seq<State<W>>, k: nat)
    requires UniformWindows(zero, sts, k)
    ensures Total(zero, sts) == |sts| * k
  {
    if |sts| > 0 {
      var n := |sts|;
      var pre := sts[..n - 1];
      assert UniformWindows(zero, pre, k) by {
        forall s | 0 <= s < |pre| ensures WindowSize(zero, pre[s]) == k {
          assert pre[s] == sts[s];
        }
      }
      UniformTotal(zero, pre, k);
      assert (n - 1) * k + k == n * k;
    }
  }

  /** The store the FST constructor builds when it reports no error. */
  function FstImage<E, W(==)>(c: Compactor<E, W>, zero: W, width: nat, fst: Fst<W>): Image<E>
  {
    Image(c.size == -1,
          if c.size == -1 then Truncated(Offsets(zero, fst.states), width) else [],
          Layout(c, zero, fst.states),
          |fst.states|,
          Total(zero, fst.states),
          NumArcsOf(fst.states),
          fst.start)
  }

  /** The counting pass: the number of arcs and of final states. */
  method CountStates<W(==)>(zero: W, sts: seq<State<W>>) returns (na: nat, nf: nat)
    ensures na == NumArcsOf(sts) && nf == NumFinals(zero, sts)
  {
    na, nf := 0, 0;
    var s := 0;
    while s < |sts|
      invariant s <= |sts|
      invariant na == NumArcsOf(sts[..s]) && nf == NumFinals(zero, sts[..s])
    {
      assert sts[..s + 1][..s] == sts[..s];
      na := na + |sts[s].arcs|;
      if sts[s].final != zero {
        nf := nf + 1;
      }
      s := s + 1;
    }
    assert sts[..s] == sts;
  }

  /** Fills state s's window from position pos: the superfinal element when
      st is final, then one element per arc. */
  method FillWindow<E, W(==)>(c: Compactor<E, W>, zero: W, s: int, st: State<W>, cs: array<E>, pos: nat)
    returns (next: nat)
    requires pos + WindowSize(zero, st) <= cs.Length
    modifies cs
    ensures next == pos + WindowSize(zero, st)
    ensures cs[..next] == old(cs[..pos]) + Window(c, zero, s, st)
  {
    next := pos;
    if st.final != zero {
      cs[next] := c.compact(s, Superfinal(st.final));
      next := next + 1;
    }
    ghost var head := old(cs[..pos]) + FinalElement(c, zero, s, st);
    assert cs[..next] == head;
    var a := 0;
    while a < |st.arcs|
      invariant a <= |st.arcs| && next == pos + |FinalElement(c, zero, s, st)| + a
      invariant cs[..next] == head + CompactArcs(c, s, st.arcs[..a])
    {
      ghost var before := cs[..next];
      cs[next] := c.compact(s, st.arcs[a]);
      assert cs[..next] == before;
      assert cs[..next + 1] == before + [c.compact(s, st.arcs[a])];
      assert st.arcs[..a + 1][..a] == st.arcs[..a];
      next := next + 1;
      a := a + 1;
    }
    assert st.arcs[..a] == st.arcs;
  }

  /** One state more of the layout: its window follows the previous ones,
      starting at its offset. */
  lemma FillStep<E, W>(c: Compactor<E, W>, zero: W, sts: seq<State<W>>, s: nat)
    requires s < |sts|
    ensures Offsets(zero, sts)[s] == Total(zero, sts[..s])
    ensures Total(zero, sts[..s + 1]) == Total(zero, sts[..s]) + WindowSize(zero, sts[s]) <= Total(zero, sts)
    ensures Layout(c, zero, sts[..s + 1]) == Layout(c, zero, sts[..s]) + Window(c, zero, s, sts[s])
  {
    OffsetsAt(zero, sts, s);
    LayoutPrefix(c, zero, sts, s + 1);
    assert sts[..s + 1][..s] == sts[..s];
    assert sts[..s + 1][s] == sts[s];
  }

  lemma UniformStep<W>(zero: W, sts: seq<State<W>>, s: nat, k: int)
    requires s < |sts| && UniformWindows(zero, sts[..s], k) && WindowSize(zero, sts[s]) == k
    ensures UniformWindows(zero, sts[..s + 1], k)
  {
    var pre, next := sts[..s], sts[..s + 1];
    forall j | 0 <= j < |next| ensures WindowSize(zero, next[j]) == k {
      if j < s {
        assert next[j] == pre[j];
      }
    }
  }

  /** One state of the filling pass: records where its window starts and
      lays the window out there. */
  method FillState<E, W(==)>(c: Compactor<E, W>, zero: W, width: nat, sts: seq<State<W>>, s: nat,
                             pos: nat, cs: array<E>, offs: array?<nat>)
    returns (next: nat)
    requires s < |sts| && pos == Total(zero, sts[..s])
    requires cs.Length == Total(zero, sts) && pos <= cs.Length && cs[..pos] == Layout(c, zero, sts[..s])
    requires offs != null ==> offs.Length == |sts| + 1 && offs as object != cs as object
    modifies cs, offs
    ensures next == pos + WindowSize(zero, sts[s]) == Total(zero, sts[..s + 1]) && next <= Total(zero, sts)
    ensures cs[..next] == Layout(c, zero, sts[..s + 1])
    ensures offs != null ==> offs[..] == old(offs[..])[s := Truncate(Offsets(zero, sts)[s], width)]
  {
    FillStep(c, zero, sts, s);
    if offs != null {
      offs[s] := Truncate(pos, width);
    }
    next := FillWindow(c, zero, s, sts[s], cs, pos);
  }

  /** The filling pass: writes every window in state order and, for
      variable arity, the start of each window into the offset array. With
      a fixed arity it stops at the first state whose window does not have
      exactly `c.size` elements. */
  method FillWindows<E, W(==)>(c: Compactor<E, W>, zero: W, width: nat, sts: seq<State<W>>,
                               cs: array<E>, offs: array?<nat>)
    returns (ok: bool)
    requires cs.Length == Total(zero, sts)
    requires offs != null <==> c.size == -1
    requires offs != null ==> offs.Length == |sts| + 1 && offs as object != cs as object
    modifies cs, offs
    ensures offs != null ==> offs[|sts|] == old(offs[|sts|])
    ensures offs != null ==> forall j :: 0 <= j < |sts| ==> offs[j] == Truncate(Offsets(zero, sts)[j], width)
    ensures ok <==> c.size == -1 || UniformWindows(zero, sts, c.size)
    ensures ok ==> cs[..] == Layout(c, zero, sts)
  {
    ok := true;
    var pos := 0;
    var s := 0;
    while s < |sts| && ok
      invariant s <= |sts|
      invariant pos == Total(zero, sts[..s]) && pos <= Total(zero, sts)
      invariant cs[..pos] == Layout(c, zero, sts[..s])
      invariant offs != null ==> offs[|sts|] == old(offs[|sts|])
      invariant offs != null ==> forall j :: 0 <= j < s ==> offs[j] == Truncate(Offsets(zero, sts)[j], width)
      invariant ok ==> c.size == -1 || UniformWindows(zero, sts[..s], c.size)
      invariant !ok ==> c.size != -1 && 0 < s && WindowSize(zero, sts[s - 1]) != c.size
    {
      var fpos := pos;
      pos := FillState(c, zero, width, sts, s, pos, cs, offs);
      if c.size != -1 && pos - fpos != c.size {
        ok := false;
      } else if c.size != -1 {
        UniformStep(zero, sts, s, c.size);
      }
      s := s + 1;
    }
    if ok {
      assert sts[..s] == sts;
    }
  }

  // ---------------------------------------------------------------------
  // Construction from compacted elements (lines 247-328).

  /** The fixed-arity input with the string compactors' implicit final
      weight: when the arity is 1 and the input is empty or does not end in
      a marker, a superfinal element of weight One is appended. */
  function Terminated<E, W>(c: Compactor<E, W>, one: W, elems: seq<E>): seq<E>
  {
    if c.size == 1 && (|elems| == 0 || !IsMarker(c, |elems| - 1, elems[|elems| - 1]))
    then elems + [c.compact(|elems|, Superfinal(one))]
    else elems
  }

  /** Number of input elements which, expanded at their own index, are arcs. */
  function NonMarkerCount<E, W>(c: Compactor<E, W>, elems: seq<E>): nat
  {
    if |elems| == 0 then 0
    else NonMarkerCount(c, elems[..|elems| - 1]) + (if IsMarker(c, |elems| - 1, elems[|elems| - 1]) then 0 else 1)
  }

  /** A marker (an element that expands to a superfinal transition) is kept
      in the store only when its weight is not Zero. */
  predicate KeptElement<E, W(==)>(c: Compactor<E, W>, zero: W, j: int, e: E)
  {
    !IsMarker(c, j, e) || c.expand(j, e).weight != zero
  }

  /** Variable arity: the elements the store keeps, in order. */
  function Kept<E, W(==)>(c: Compactor<E, W>, zero: W, elems: seq<E>): (r: seq<E>)
    ensures |r| <= |elems|
  {
    if |elems| == 0 then []
    else
      var n := |elems|;
      Kept(c, zero, elems[..n - 1]) + (if KeptElement(c, zero, n - 1, elems[n - 1]) then [elems[n - 1]] else [])
  }

  /** Variable arity: every marker opens a state whose window starts where
      the next kept element goes. */
  function MarkerOffsets<E, W(==)>(c: Compactor<E, W>, zero: W, elems: seq<E>): seq<nat>
  {
    if |elems| == 0 then []
    else
      var n := |elems|;
      MarkerOffsets(c, zero, elems[..n - 1])
        + (if IsMarker(c, n - 1, elems[n - 1]) then [|Kept(c, zero, elems[..n - 1])|] else [])
  }

  /** The input given to the element constructor cannot be split into
      windows of a fixed arity. */
  predicate ElementsError<E, W>(c: Compactor<E, W>, one: W, elems: seq<E>)
  {
    c.size > 0 && |Terminated(c, one, elems)| % c.size != 0
  }

  /** The store the element constructor builds when it reports no error.
      Empty input leaves the start at kNoStateId and, for variable arity,
      no offset array at all. */
  function ElementsImage<E, W(==)>(c: Compactor<E, W>, zero: W, one: W, width: nat, elems: seq<E>): Image<E>
    requires ValidSize(c)
  {
    if c.size != -1 then
      var t := Terminated(c, one, elems);
      if |t| == 0 then Image(false, [], [], 0, 0, 0, NoStateId)
      else Image(false, [], t, |t| / c.size, |t|, NonMarkerCount(c, elems), 0)
    else if |elems| == 0 then Image(false, [], [], 0, 0, 0, NoStateId)
    else
      var kept := Kept(c, zero, elems);
      var marks := MarkerOffsets(c, zero, elems);
      Image(true, Truncated(marks + [|kept|], width), kept, |marks|, |kept|, NonMarkerCount(c, elems), 0)
  }

  /** The compactor tells the markers among elems and their weights apart
      without looking at the state: the counting loop of the element
      constructor expands element j at index j while the filling loop
      expands it at its position in the store, and the two only agree for
      such input. */
  ghost predicate StateFreeMarkers<E, W>(c: Compactor<E, W>, elems: seq<E>)
  {
    forall t: int, j :: 0 <= j < |elems| ==>
      c.expand(t, elems[j]).ilabel == c.expand(0, elems[j]).ilabel &&
      c.expand(t, elems[j]).weight == c.expand(0, elems[j]).weight
  }

  /** The three stock variable-arity compactors ignore the state. */
  lemma StockStateFree<W>(one: W, e1: seq<(int, int)>, e2: seq<((int, W), int)>, e3: seq<((int, int), int)>)
    ensures StateFreeMarkers(UnweightedAcceptorCompactor(one), e1)
    ensures StateFreeMarkers(AcceptorCompactor<W>(), e2)
    ensures StateFreeMarkers(UnweightedCompactor(one), e3)
  {
  }

  lemma {:induction false} ElementsPrefix<E, W>(c: Compactor<E, W>, zero: W, elems: seq<E>, j: nat)
    requires j <= |elems|
    ensures Kept(c, zero, elems[..j]) <= Kept(c, zero, elems)
    ensures MarkerOffsets(c, zero, elems[..j]) <= MarkerOffsets(c, zero, elems)
  {
    if j < |elems| {
      var n := |elems|;
      ElementsPrefix(c, zero, elems[..n - 1], j);
      assert elems[..n - 1][..j] == elems[..j];
    } else {
      assert elems[..j] == elems;
    }
  }

  /** The fixed-arity copy: the input elements in order, counting arcs. */
  method CopyElements<E, W>(c: Compactor<E, W>, elems: seq<E>, cs: array<E>) returns (narcs: nat)
    requires |elems| <= cs.Length
    modifies cs
    ensures cs[..|elems|] == elems
    ensures cs[|elems|..] == old(cs[|elems|..])
    ensures narcs == NonMarkerCount(c, elems)
  {
    narcs := 0;
    var i := 0;
    while i < |elems|
      invariant i <= |elems|
      invariant cs[..i] == elems[..i]
      invariant cs[|elems|..] == old(cs[|elems|..])
      invariant narcs == NonMarkerCount(c, elems[..i])
    {
      assert elems[..i + 1][..i] == elems[..i];
      cs[i] := elems[i];
      if c.expand(i, elems[i]).ilabel != NoLabel {
        narcs := narcs + 1;
      }
      assert cs[..i + 1] == cs[..i] + [elems[i]];
      i := i + 1;
    }
    assert elems[..i] == elems;
  }

  /** The variable-arity counting pass: arcs, states (markers) and stored
      elements. */
  method CountElements<E, W(==)>(c: Compactor<E, W>, zero: W, elems: seq<E>)
    returns (narcs: nat, nstates: nat, ncompacts: nat)
    ensures narcs == NonMarkerCount(c, elems)
    ensures nstates == |MarkerOffsets(c, zero, elems)|
    ensures ncompacts == |Kept(c, zero, elems)|
  {
    narcs, nstates, ncompacts := 0, 0, 0;
    var i := 0;
    while i < |elems|
      invariant i <= |elems|
      invariant narcs == NonMarkerCount(c, elems[..i])
      invariant nstates == |MarkerOffsets(c, zero, elems[..i])|
      invariant ncompacts == |Kept(c, zero, elems[..i])|
    {
      assert elems[..i + 1][..i] == elems[..i];
      var arc := c.expand(i, elems[i]);
      if arc.ilabel != NoLabel {
        narcs := narcs + 1;
        ncompacts := ncompacts + 1;
      } else {
        nstates := nstates + 1;
        if arc.weight != zero {
          ncompacts := ncompacts + 1;
        }
      }
      i := i + 1;
    }
    assert elems[..i] == elems;
  }

  /** The variable-arity filling pass: each marker records the current
      position as the start of a new state, and each kept element is
      stored. Both counters end where the counting pass said. */
  method FillElements<E, W(==)>(c: Compactor<E, W>, zero: W, width: nat, elems: seq<E>,
                                cs: array<E>, offs: array<nat>)
    returns (s: nat, i: nat)
    requires StateFreeMarkers(c, elems)
    requires cs.Length == |Kept(c, zero, elems)|
    requires offs.Length == |MarkerOffsets(c, zero, elems)| + 1 && offs as object != cs as object
    modifies cs, offs
    ensures s == |MarkerOffsets(c, zero, elems)| && i == |Kept(c, zero, elems)|
    ensures cs[..] == Kept(c, zero, elems)
    ensures offs[s] == old(offs[s])
    ensures forall t :: 0 <= t < s ==> offs[t] == Truncate(MarkerOffsets(c, zero, elems)[t], width)
  {
    s, i := 0, 0;
    var j := 0;
    while j < |elems|
      invariant j <= |elems|
      invariant i == |Kept(c, zero, elems[..j])| && s == |MarkerOffsets(c, zero, elems[..j])|
      invariant i <= cs.Length && s < offs.Length
      invariant cs[..i] == Kept(c, zero, elems[..j])
      invariant offs[offs.Length - 1] == old(offs[offs.Length - 1])
      invariant forall t :: 0 <= t < s ==> offs[t] == Truncate(MarkerOffsets(c, zero, elems)[t], width)
    {
      i, s := StoreElement(c, zero, width, elems, j, i, s, cs, offs);
      j := j + 1;
    }
    assert elems[..j] == elems;
  }

  /** One element of the filling pass: a marker opens the next state at the
      current position, and a kept element is stored there. */
  method StoreElement<E, W(==)>(c: Compactor<E, W>, zero: W, width: nat, elems: seq<E>, j: nat,
                                i: nat, s: nat, cs: array<E>, offs: array<nat>)
    returns (i': nat, s': nat)
    requires j < |elems| && StateFreeMarkers(c, elems)
    requires i == |Kept(c, zero, elems[..j])| && s == |MarkerOffsets(c, zero, elems[..j])|
    requires cs.Length == |Kept(c, zero, elems)| && i <= cs.Length && cs[..i] == Kept(c, zero, elems[..j])
    requires offs.Length == |MarkerOffsets(c, zero, elems)| + 1 && offs as object != cs as object
    modifies cs, offs
    ensures i' == |Kept(c, zero, elems[..j + 1])| && s' == |MarkerOffsets(c, zero, elems[..j + 1])|
    ensures i' <= cs.Length && cs[..i'] == Kept(c, zero, elems[..j + 1])
    ensures (s' == s || s' == s + 1) && s' < offs.Length
    ensures s' == s ==> offs[..] == old(offs[..])
    ensures s' == s + 1 ==> s < offs.Length - 1 &&
                            offs[..] == old(offs[..])[s := Truncate(MarkerOffsets(c, zero, elems)[s], width)]
  {
    ElementStep(c, zero, elems, j, i);
    i', s' := i, s;
    var arc := c.expand(i, elems[j]);
    if arc.ilabel != NoLabel {
      cs[i] := elems[j];
      assert cs[..i + 1] == Kept(c, zero, elems[..j]) + [elems[j]];
      i' := i + 1;
    } else {
      offs[s] := Truncate(i, width);
      s' := s + 1;
      if arc.weight != zero {
        cs[i] := elems[j];
        assert cs[..i + 1] == Kept(c, zero, elems[..j]) + [elems[j]];
        i' := i + 1;
      }
    }
  }

  /** One input element more for the filling pass: classified at any
      position t, element j extends the kept elements and the marker
      offsets as the definitions say, and both stay prefixes of those of
      the whole input. */
  lemma ElementStep<E, W>(c: Compactor<E, W>, zero: W, elems: seq<E>, j: nat, t: int)
    requires j < |elems| && StateFreeMarkers(c, elems)
    ensures Kept(c, zero, elems[..j + 1])
         == Kept(c, zero, elems[..j]) + (if KeptElement(c, zero, t, elems[j]) then [elems[j]] else [])
    ensures MarkerOffsets(c, zero, elems[..j + 1])
         == MarkerOffsets(c, zero, elems[..j]) + (if IsMarker(c, t, elems[j]) then [|Kept(c, zero, elems[..j])|] else [])
    ensures Kept(c, zero, elems[..j + 1]) <= Kept(c, zero, elems)
    ensures MarkerOffsets(c, zero, elems[..j + 1]) <= MarkerOffsets(c, zero, elems)
  {
    ElementsPrefix(c, zero, elems, j + 1);
    assert elems[..j + 1][..j] == elems[..j];
    assert c.expand(t, elems[j]).ilabel == c.expand(0, elems[j]).ilabel;
    assert c.expand(j, elems[j]).ilabel == c.expand(0, elems[j]).ilabel;
  }

  /** `DefaultCompactStore`: the offset array (allocated for variable arity
      only), the element array, and the counters. */
  class DefaultCompactStore<E(0), W(==)> {
    var states: array?<nat>
    var compacts: array?<E>
    var nstates: nat
    var ncompacts: nat
    var narcs: nat
    var start: int
    var error: bool
    /** Bits of the `Unsigned` index type. */
    const width: nat

    /** The store's contents as values. */
    function Snapshot(): Image<E>
      reads this, states, compacts
    {
      Image(states != null,
            if states != null then states[..] else [],
            if compacts != null then compacts[..] else [],
            nstates, ncompacts, narcs, start)
    }

    /** Builds the store of a source FST: counts states, arcs and final
        weights, then lays out every window. A fixed arity reports an error
        unless every state has exactly `c.size` elements (whether caught by
        the total at line 213 or by a state at line 234; the final check at
        line 240 never fires). */
    constructor FromFst(fst: Fst<W>, c: Compactor<E, W>, zero: W, width: nat)
      requires ValidSize(c)
      ensures this.width == width
      ensures nstates == |fst.states| && narcs == NumArcsOf(fst.states) && start == fst.start
      ensures error <==> c.size != -1 && !UniformWindows(zero, fst.states, c.size)
      ensures !error ==> compacts != null && Snapshot() == FstImage(c, zero, width, fst)
    {
      this.width := width;
      start := fst.start;
      var na, nf := CountStates(zero, fst.states);
      var n := |fst.states|;
      nstates := n;
      narcs := na;
      LayoutLength(c, zero, fst.states);
      if c.size == -1 {
        var offs := new nat[n + 1];
        var cs := new E[na + nf];
        offs[n] := Truncate(na + nf, width);
        var ok := FillWindows(c, zero, width, fst.states, cs, offs);
        OffsetsLast(zero, fst.states);
        assert offs[..] == Truncated(Offsets(zero, fst.states), width);
        states := offs;
        compacts := cs;
        ncompacts := na + nf;
        error := false;
      } else {
        ncompacts := n * c.size;
        states := null;
        if na + nf != n * c.size {
          if UniformWindows(zero, fst.states, c.size) {
            UniformTotal(zero, fst.states, c.size);
          }
          compacts := null;
          error := true;
        } else {
          var cs := new E[n * c.size];
          var ok := FillWindows(c, zero, width, fst.states, cs, null);
          compacts := cs;
          error := !ok;
        }
      }
    }

    /** Builds the store from compacted elements. A fixed arity takes the
        elements as they are (plus the implicit final element for arity 1)
        and reports an error when their number is not a multiple of the
        arity. A variable arity opens a state at each marker and drops the
        markers of weight Zero; the ill-formed check at line 322 never fires
        for a compactor that classifies elements without looking at the
        state. */
    constructor FromElements(elems: seq<E>, c: Compactor<E, W>, zero: W, one: W, width: nat)
      requires ValidSize(c)
      requires c.size == -1 ==> StateFreeMarkers(c, elems)
      ensures this.width == width
      ensures error <==> ElementsError(c, one, elems)
      ensures !error ==> Snapshot() == ElementsImage(c, zero, one, width, elems)
    {
      this.width := width;
      var n := |elems|;
      if c.size != -1 {
        var nc := n;
        if c.size == 1 {
          if n == 0 {
            nc := 1;
          } else if c.expand(n - 1, elems[n - 1]).ilabel != NoLabel {
            nc := n + 1;
          }
        }
        assert nc == |Terminated(c, one, elems)|;
        ncompacts := nc;
        states := null;
        if nc % c.size != 0 {
          error := true;
          compacts := null;
          nstates, narcs, start := 0, 0, NoStateId;
        } else if nc == 0 {
          error := false;
          compacts := null;
          nstates, narcs, start := 0, 0, NoStateId;
        } else {
          var cs := new E[nc];
          var na := CopyElements(c, elems, cs);
          if n < nc {
            cs[n] := c.compact(n, Superfinal(one));
            assert cs[..] == cs[..n] + [cs[n]];
          } else {
            assert cs[..] == cs[..n];
          }
          error := false;
          compacts := cs;
          nstates, narcs, start := nc / c.size, na, 0;
        }
      } else if n == 0 {
        error := false;
        states, compacts := null, null;
        nstates, ncompacts, narcs, start := 0, 0, 0, NoStateId;
      } else {
        var na, ns, nc := CountElements(c, zero, elems);
        var cs := new E[nc];
        var offs := new nat[ns + 1];
        offs[ns] := Truncate(nc, width);
        var s, i := FillElements(c, zero, width, elems, cs, offs);
        assert offs[..] == Truncated(MarkerOffsets(c, zero, elems) + [nc], width);
        error := s != ns || i != nc;
        states, compacts := offs, cs;
        nstates, ncompacts, narcs, start := ns, nc, na, 0;
      }
    }
  }

  // ---------------------------------------------------------------------
  // The two constructors agree.

  /** Input for the element constructor describing the states sts: for each
      state a superfinal element (of weight Zero when not final) followed
      by its arcs. */
  function ElementsOf<E, W>(c: Compactor<E, W>, sts: seq<State<W>>): seq<E>
  {
    if |sts| == 0 then []
    else
      var n := |sts|;
      ElementsOf(c, sts[..n - 1]) + [c.compact(n - 1, Superfinal(sts[n - 1].final))]
        + CompactArcs(c, n - 1, sts[n - 1].arcs)
  }

  /** The compactor marks state s's final weight (Zero included) with a
      marker carrying that weight, and never takes one of its arcs for a
      marker, whatever index the element is expanded at. */
  ghost predicate Marks<E, W>(c: Compactor<E, W>, s: int, st: State<W>)
  {
    (forall t: int :: IsMarker(c, t, c.compact(s, Superfinal(st.final))) &&
                      c.expand(t, c.compact(s, Superfinal(st.final))).weight == st.final) &&
    (forall t: int, j :: 0 <= j < |st.arcs| ==> !IsMarker(c, t, c.compact(s, st.arcs[j])))
  }

  lemma {:induction false} KeptArcs<E, W>(c: Compactor<E, W>, zero: W, pre: seq<E>, s: int, st: State<W>, a: nat)
    requires Marks(c, s, st) && a <= |st.arcs|
    ensures Kept(c, zero, pre + CompactArcs(c, s, st.arcs[..a])) == Kept(c, zero, pre) + CompactArcs(c, s, st.arcs[..a])
    ensures MarkerOffsets(c, zero, pre + CompactArcs(c, s, st.arcs[..a])) == MarkerOffsets(c, zero, pre)
    ensures NonMarkerCount(c, pre + CompactArcs(c, s, st.arcs[..a])) == NonMarkerCount(c, pre) + a
  {
    if a == 0 {
      assert pre + CompactArcs(c, s, st.arcs[..a]) == pre;
    } else {
      KeptArcs(c, zero, pre, s, st, a - 1);
      var all := pre + CompactArcs(c, s, st.arcs[..a]);
      assert st.arcs[..a][..a - 1] == st.arcs[..a - 1];
      var e := c.compact(s, st.arcs[a - 1]);
      assert all == (pre + CompactArcs(c, s, st.arcs[..a - 1])) + [e];
      assert all[..|all| - 1] == pre + CompactArcs(c, s, st.arcs[..a - 1]);
      assert !IsMarker(c, |all| - 1, e);
    }
  }

  lemma {:induction false} KeptState<E, W>(c: Compactor<E, W>, zero: W, pre: seq<E>, s: int, st: State<W>)
    requires Marks(c, s, st)
    ensures var all := pre + [c.compact(s, Superfinal(st.final))] + CompactArcs(c, s, st.arcs);
            Kept(c, zero, all) == Kept(c, zero, pre) + Window(c, zero, s, st) &&
            MarkerOffsets(c, zero, all) == MarkerOffsets(c, zero, pre) + [|Kept(c, zero, pre)|] &&
            NonMarkerCount(c, all) == NonMarkerCount(c, pre) + |st.arcs|
  {
    var m := c.compact(s, Superfinal(st.final));
    var pre' := pre + [m];
    assert pre'[..|pre'| - 1] == pre;
    assert IsMarker(c, |pre|, m) && c.expand(|pre|, m).weight == st.final;
    assert Kept(c, zero, pre') == Kept(c, zero, pre) + FinalElement(c, zero, s, st);
    KeptArcs(c, zero, pre', s, st, |st.arcs|);
    assert st.arcs[..|st.arcs|] == st.arcs;
  }

  /** The element input of an FST whose states the compactor marks leads to
      the same store as the FST itself, as long as the FST has a state: the
      same offsets, elements and counters. */
  lemma {:induction false} ElementsAgreeWithFst<E, W>(c: Compactor<E, W>, zero: W, one: W, width: nat, sts: seq<State<W>>)
    requires c.size == -1
    requires forall s :: 0 <= s < |sts| ==> Marks(c, s, sts[s])
    requires |sts| > 0
    ensures ElementsImage(c, zero, one, width, ElementsOf(c, sts)) == FstImage(c, zero, width, Fst(0, sts))
  {
    ElementsAgree(c, zero, sts);
    LayoutLength(c, zero, sts);
    var n := |sts|;
    var elems := ElementsOf(c, sts);
    assert |elems| > 0 by {
      assert sts[..n - 1] + [sts[n - 1]] == sts;
      assert |ElementsOf(c, sts)| >= 1;
    }
    assert MarkerOffsets(c, zero, elems) + [|Kept(c, zero, elems)|] == Offsets(zero, sts);
  }

  lemma {:induction false} ElementsAgree<E, W>(c: Compactor<E, W>, zero: W, sts: seq<State<W>>)
    requires forall s :: 0 <= s < |sts| ==> Marks(c, s, sts[s])
    ensures Kept(c, zero, ElementsOf(c, sts)) == Layout(c, zero, sts)
    ensures MarkerOffsets(c, zero, ElementsOf(c, sts)) + [Total(zero, sts)] == Offsets(zero, sts)
    ensures NonMarkerCount(c, ElementsOf(c, sts)) == NumArcsOf(sts)
  {
    if |sts| > 0 {
      var n := |sts|;
      var pre := sts[..n - 1];
      assert forall s :: 0 <= s < n - 1 ==> Marks(c, s, pre[s]) by {
        forall s | 0 <= s < n - 1 ensures Marks(c, s, pre[s]) {
          assert pre[s] == sts[s];
        }
      }
      ElementsAgree(c, zero, pre);
      KeptState(c, zero, ElementsOf(c, pre), n - 1, sts[n - 1]);
      LayoutLength(c, zero, pre);
    }
  }

  // ---------------------------------------------------------------------
  // Writing and reading (lines 330-403).

  /** What the stream holds: alignment padding (its byte count is not
      modelled), an offset, or an element. */
  datatype Item<E> = Pad | Offset(value: nat) | Element(e: E)

  function OffsetItems<E>(xs: seq<nat>): (r: seq<Item<E>>)
    ensures |r| == |xs|
  {
    seq(|xs|, j requires 0 <= j < |xs| => Offset(xs[j]))
  }

  function ElementItems<E>(es: seq<E>): (r: seq<Item<E>>)
    ensures |r| == |es|
  {
    seq(|es|, j requires 0 <= j < |es| => Element(es[j]))
  }

  /** `AlignOutput`/`AlignInput` succeed exactly on a stream with a known
      position; padding is written only when alignment is asked for. */
  function PadItems<E>(align: bool): seq<Item<E>>
  {
    if align then [Pad] else []
  }

  /** `DefaultCompactStore::Write`: the offset array when there is one,
      then the elements, each preceded by padding when aligned. Alignment on
      a stream of unknown position fails and nothing more is written. */
  function WriteImage<E>(img: Image<E>, align: bool, seekable: bool): (bool, seq<Item<E>>)
  {
    if align && !seekable then (false, [])
    else
      (true, (if img.hasStates then PadItems(align) + OffsetItems(img.states) else [])
             + PadItems(align) + ElementItems(img.compacts))
  }

  /** Skips alignment padding, if present. */
  function SkipPad<E>(items: seq<Item<E>>): (r: seq<Item<E>>)
    ensures |r| <= |items|
  {
    if |items| > 0 && items[0].Pad? then items[1..] else items
  }

  predicate AllOffsets<E>(items: seq<Item<E>>)
  {
    forall j :: 0 <= j < |items| ==> items[j].Offset?
  }

  predicate AllElements<E>(items: seq<Item<E>>)
  {
    forall j :: 0 <= j < |items| ==> items[j].Element?
  }

  function OffsetValues<E>(items: seq<Item<E>>): (r: seq<nat>)
    requires AllOffsets(items)
    ensures |r| == |items|
  {
    seq(|items|, j requires 0 <= j < |items| => items[j].value)
  }

  function ElementValues<E>(items: seq<Item<E>>): (r: seq<E>)
    requires AllElements(items)
    ensures |r| == |items|
  {
    seq(|items|, j requires 0 <= j < |items| => items[j].e)
  }

  /** The offset array of `Read`: padding first when aligned, then n + 1
      offsets; a short or malformed stream fails. Gives the offsets and the
      rest of the stream. */
  function ReadOffsets<E>(items: seq<Item<E>>, nstates: nat, aligned: bool): (r: Option<(seq<nat>, seq<Item<E>>)>)
    ensures r.Some? ==> |r.value.0| == nstates + 1
  {
    var afterPad := if aligned then SkipPad(items) else items;
    if |afterPad| < nstates + 1 || !AllOffsets(afterPad[..nstates + 1]) then None
    else Some((OffsetValues(afterPad[..nstates + 1]), afterPad[nstates + 1..]))
  }

  /** The element array of `Read`: padding first when aligned, then nc
      elements; a short or malformed stream fails. */
  function ReadElements<E>(items: seq<Item<E>>, nc: nat, aligned: bool): (r: Option<seq<E>>)
    ensures r.Some? ==> |r.value| == nc
  {
    var body := if aligned then SkipPad(items) else items;
    if |body| < nc || !AllElements(body[..nc]) then None
    else Some(ElementValues(body[..nc]))
  }

  /** `DefaultCompactStore::Read`: the counters come from the header; for
      variable arity nstates + 1 offsets are read and the last is the number
      of elements, for a fixed arity k there are nstates * k elements.
      Alignment on a stream of unknown position fails. */
  function ReadImage<E>(items: seq<Item<E>>, start: int, nstates: nat, narcs: nat, aligned: bool,
                        k: int, seekable: bool): Option<Image<E>>
    requires k == -1 || k > 0
  {
    if aligned && !seekable then None
    else if k == -1 then
      match ReadOffsets(items, nstates, aligned)
      case None => None
      case Some((offs, rest)) =>
        match ReadElements(rest, offs[nstates], aligned)
        case None => None
        case Some(es) => Some(Image(true, offs, es, nstates, offs[nstates], narcs, start))
    else
      match ReadElements(items, nstates * k, aligned)
      case None => None
      case Some(es) => Some(Image(false, [], es, nstates, nstates * k, narcs, start))
  }

  /** Reading back what Write wrote gives the store back, for every
      consistent store and either alignment. */
  lemma ImageRoundTrip<E>(img: Image<E>, k: int, align: bool)
    requires Consistent(img, k)
    ensures WriteImage(img, align, true).0
    ensures ReadImage(WriteImage(img, align, true).1, img.start, img.nstates, img.narcs, align, k, true) == Some(img)
  {
    var els := PadItems<E>(align) + ElementItems(img.compacts);
    ElementsBack(img.compacts, align);
    if k == -1 {
      OffsetsBack(img.states, els, align);
      assert WriteImage(img, align, true).1 == PadItems(align) + OffsetItems(img.states) + els;
    } else {
      assert WriteImage(img, align, true).1 == els;
    }
  }

  /** The offset part of a write reads back as the offsets, followed by
      what comes after them. */
  lemma OffsetsBack<E>(xs: seq<nat>, rest: seq<Item<E>>, align: bool)
    requires |xs| > 0
    ensures ReadOffsets(PadItems(align) + OffsetItems(xs) + rest, |xs| - 1, align) == Some((xs, rest))
  {
    var items := PadItems(align) + OffsetItems(xs) + rest;
    var afterPad := if align then SkipPad(items) else items;
    assert afterPad == OffsetItems(xs) + rest;
    assert afterPad[..|xs|] == OffsetItems(xs);
    assert afterPad[|xs|..] == rest;
    assert OffsetValues(OffsetItems<E>(xs)) == xs;
  }

  /** The element part of a write reads back as the elements. */
  lemma ElementsBack<E>(es: seq<E>, align: bool)
    ensures ReadElements(PadItems<E>(align) + ElementItems(es), |es|, align) == Some(es)
  {
    var els := PadItems<E>(align) + ElementItems(es);
    var body := if align then SkipPad(els) else els;
    assert body == ElementItems(es);
    assert body[..|es|] == body;
    assert ElementValues(ElementItems(es)) == es;
  }

  /** A failed alignment fails the write. */
  lemma WriteNeedsPosition<E>(img: Image<E>)
    ensures !WriteImage(img, true, false).0
    ensures WriteImage(img, false, false) == WriteImage(img, false, true)
  {
  }

  /** The store the FST constructor builds is well formed when its element
      count fits in the index type, and its windows are exactly the states'
      windows of the layout. */
  lemma FstImageWellFormed<E, W>(c: Compactor<E, W>, zero: W, width: nat, fst: Fst<W>)
    requires ValidSize(c) && (c.size == -1 || UniformWindows(zero, fst.states, c.size))
    requires Total(zero, fst.states) < Pow2(width)
    ensures WellFormed(FstImage(c, zero, width, fst), c.size)
    ensures forall s :: 0 <= s < |fst.states| ==>
              WindowOf(FstImage(c, zero, width, fst), c.size, s) == Window(c, zero, s, fst.states[s])
  {
    LayoutLength(c, zero, fst.states);
    if c.size == -1 {
      VariableImageWellFormed(c, zero, width, fst);
    } else {
      FixedImageWellFormed(c, zero, width, fst);
    }
  }

  lemma VariableImageWellFormed<E, W>(c: Compactor<E, W>, zero: W, width: nat, fst: Fst<W>)
    requires c.size == -1 && Total(zero, fst.states) < Pow2(width)
    ensures WellFormed(FstImage(c, zero, width, fst), c.size)
    ensures forall s :: 0 <= s < |fst.states| ==>
              WindowOf(FstImage(c, zero, width, fst), c.size, s) == Window(c, zero, s, fst.states[s])
  {
    var img := FstImage(c, zero, width, fst);
    var sts := fst.states;
    var offs := Offsets(zero, sts);
    LayoutLength(c, zero, sts);
    assert img.states == offs by {
      forall j | 0 <= j <= |sts| ensures img.states[j] == offs[j] {
        OffsetsMonotone(zero, sts, j, |sts|);
      }
    }
    forall i, j | 0 <= i <= j <= |sts| ensures offs[i] <= offs[j] {
      OffsetsMonotone(zero, sts, i, j);
    }
    assert WellFormed(img, c.size);
    forall s | 0 <= s < |sts| ensures WindowOf(img, c.size, s) == Window(c, zero, s, sts[s]) {
      LayoutWindow(c, zero, sts, s);
    }
  }

  /** In a uniform layout state s's window starts at s * k. */
  lemma UniformOffset<E, W>(c: Compactor<E, W>, zero: W, sts: seq<State<W>>, k: nat, s: nat)
    requires UniformWindows(zero, sts, k) && s < |sts|
    ensures Offsets(zero, sts)[s] == s * k && Offsets(zero, sts)[s + 1] == (s + 1) * k
  {
    OffsetsAt(zero, sts, s);
    var pre := sts[..s];
    assert UniformWindows(zero, pre, k) by {
      forall t | 0 <= t < |pre| ensures WindowSize(zero, pre[t]) == k {
        assert pre[t] == sts[t];
      }
    }
    UniformTotal(zero, pre, k);
    assert (s + 1) * k == s * k + k;
  }

  lemma FixedImageWellFormed<E, W>(c: Compactor<E, W>, zero: W, width: nat, fst: Fst<W>)
    requires c.size > 0 && UniformWindows(zero, fst.states, c.size)
    ensures WellFormed(FstImage(c, zero, width, fst), c.size)
    ensures forall s :: 0 <= s < |fst.states| ==>
              WindowOf(FstImage(c, zero, width, fst), c.size, s) == Window(c, zero, s, fst.states[s])
  {
    var img := FstImage(c, zero, width, fst);
    var sts := fst.states;
    LayoutLength(c, zero, sts);
    UniformTotal(zero, sts, c.size);
    assert WellFormed(img, c.size);
    forall s | 0 <= s < |sts| ensures WindowOf(img, c.size, s) == Window(c, zero, s, sts[s]) {
      LayoutWindow(c, zero, sts, s);
      UniformOffset(c, zero, sts, c.size, s);
    }
  }

  // ---------------------------------------------------------------------
  // The empty variable-arity store of the element constructor.

  /** As written, the element constructor on empty input with a variable
      arity allocates no offset array, so Write writes no offsets while Read
      expects one: the written store cannot be read back. */
  lemma EmptyElementsUnreadable<E, W>(c: Compactor<E, W>, zero: W, one: W, width: nat, align: bool)
    requires c.size == -1
    ensures var img := ElementsImage(c, zero, one, width, []);
            WriteImage(img, align, true).0 &&
            ReadImage(WriteImage(img, align, true).1, img.start, img.nstates, img.narcs, align, -1, true) == None
  {
  }

  /** The element constructor with the empty variable-arity case allocating
      the offset array `[0]`, as the FST constructor does for an FST without
      states. */
  function ElementsImageCorrected<E, W(==)>(c: Compactor<E, W>, zero: W, one: W, width: nat, elems: seq<E>): Image<E>
    requires ValidSize(c)
  {
    var img := ElementsImage(c, zero, one, width, elems);
    if c.size == -1 && |elems| == 0 then img.(hasStates := true, states := [0]) else img
  }

  /** With the correction every store the element constructor builds
      without error, whose element count fits in the index type, reads back
      as written; and on an FST without states it agrees with the FST
      constructor. */
  lemma ElementsImageCorrectedReadable<E, W>(c: Compactor<E, W>, zero: W, one: W, width: nat, elems: seq<E>, align: bool)
    requires ValidSize(c) && !ElementsError(c, one, elems) && |elems| < Pow2(width)
    ensures Consistent(ElementsImageCorrected(c, zero, one, width, elems), c.size)
    ensures var img := ElementsImageCorrected(c, zero, one, width, elems);
            ReadImage(WriteImage(img, align, true).1, img.start, img.nstates, img.narcs, align, c.size, true) == Some(img)
    ensures c.size == -1 && |elems| == 0 ==>
              ElementsImageCorrected(c, zero, one, width, elems) == FstImage(c, zero, width, Fst(NoStateId, []))
  {
    var img := ElementsImageCorrected(c, zero, one, width, elems);
    if c.size != -1 {
      var t := Terminated(c, one, elems);
      if |t| > 0 {
        assert |t| / c.size * c.size == |t|;
      }
    } else if |elems| > 0 {
      var kept := Kept(c, zero, elems);
      var marks := MarkerOffsets(c, zero, elems);
      assert img.states[|marks|] == Truncate(|kept|, width);
    }
    ImageRoundTrip(img, c.size, align);
  }
}
