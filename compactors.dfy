/** The five stock compactors of src/include/fst/compact-fst.h. Each maps an
    arc leaving state s to an element and expands an element back to an
    arc. The element types are the source's `std::pair` nestings written as
    tuples. The flags argument of `Expand` is unused by all five and is
    omitted. */
module Compactors {
  import opened FstBase

  /** A compactor: its arity (`Size()`: a fixed number of elements per state,
      or -1 for a variable number), its element maps and its type name. */
  datatype Compactor<!E, !W> = Compactor(
    size: int,
    compact: (int, Arc<W>) -> E,
    expand: (int, E) -> Arc<W>,
    typeName: string)

  /** Arity -1 or a positive fixed arity. */
  predicate ValidSize<E, W>(c: Compactor<E, W>)
  {
    c.size == -1 || c.size > 0
  }

  /** Every element is the compaction of its own expansion: no information
      in an element is lost by expanding it. */
  ghost predicate ElementsRecoverable<E(!new), W>(c: Compactor<E, W>)
  {
    forall s: int, e: E :: c.compact(s, c.expand(s, e)) == e
  }

  // ---------------------------------------------------------------------
  // StringCompactor: the element is the label.

  function StringExpand<W>(one: W, s: int, p: int): Arc<W>
  {
    Arc(p, p, one, if p != NoLabel then s + 1 else NoStateId)
  }

  function StringCompactor<W>(one: W): (c: Compactor<int, W>)
    ensures c.size == 1 && c.typeName == "string"
  {
    Compactor(1, (s: int, arc: Arc<W>) => arc.ilabel, (s: int, p: int) => StringExpand(one, s, p), "string")
  }

  /** An arc survives the string compactor exactly when it is an unweighted
      acceptor arc to the next state, or a superfinal arc of weight One. */
  lemma StringRoundTrip<W>(one: W, s: int, arc: Arc<W>)
    ensures var c := StringCompactor(one);
            c.expand(s, c.compact(s, arc)) == arc <==>
              arc.olabel == arc.ilabel && arc.weight == one &&
              arc.nextstate == (if arc.ilabel != NoLabel then s + 1 else NoStateId)
  {
  }

  lemma StringRecoverable<W>(one: W)
    ensures ElementsRecoverable(StringCompactor(one))
  {
  }

  // ---------------------------------------------------------------------
  // WeightedStringCompactor: the element is (label, weight).

  function WeightedStringExpand<W>(s: int, p: (int, W)): Arc<W>
  {
    Arc(p.0, p.0, p.1, if p.0 != NoLabel then s + 1 else NoStateId)
  }

  function WeightedStringCompactor<W>(): (c: Compactor<(int, W), W>)
    ensures c.size == 1 && c.typeName == "weighted_string"
  {
    Compactor(1, (s: int, arc: Arc<W>) => (arc.ilabel, arc.weight),
              (s: int, p: (int, W)) => WeightedStringExpand(s, p), "weighted_string")
  }

  /** An arc survives the weighted string compactor exactly when it is an
      acceptor arc to the next state, or a superfinal arc. */
  lemma WeightedStringRoundTrip<W>(s: int, arc: Arc<W>)
    ensures var c := WeightedStringCompactor<W>();
            c.expand(s, c.compact(s, arc)) == arc <==>
              arc.olabel == arc.ilabel &&
              arc.nextstate == (if arc.ilabel != NoLabel then s + 1 else NoStateId)
  {
  }

  lemma WeightedStringRecoverable<W(!new)>()
    ensures ElementsRecoverable(WeightedStringCompactor<W>())
  {
  }

  // ---------------------------------------------------------------------
  // UnweightedAcceptorCompactor: the element is (label, nextstate).

  function UnweightedAcceptorCompactor<W>(one: W): (c: Compactor<(int, int), W>)
    ensures c.size == -1 && c.typeName == "unweighted_acceptor"
  {
    Compactor(-1, (s: int, arc: Arc<W>) => (arc.ilabel, arc.nextstate),
              (s: int, p: (int, int)) => Arc(p.0, p.0, one, p.1), "unweighted_acceptor")
  }

  /** An arc survives exactly when it is an unweighted acceptor arc. */
  lemma UnweightedAcceptorRoundTrip<W>(one: W, s: int, arc: Arc<W>)
    ensures var c := UnweightedAcceptorCompactor(one);
            c.expand(s, c.compact(s, arc)) == arc <==> arc.olabel == arc.ilabel && arc.weight == one
  {
  }

  lemma UnweightedAcceptorRecoverable<W>(one: W)
    ensures ElementsRecoverable(UnweightedAcceptorCompactor(one))
  {
  }

  // ---------------------------------------------------------------------
  // AcceptorCompactor: the element is ((label, weight), nextstate).

  function AcceptorCompactor<W>(): (c: Compactor<((int, W), int), W>)
    ensures c.size == -1 && c.typeName == "acceptor"
  {
    Compactor(-1, (s: int, arc: Arc<W>) => ((arc.ilabel, arc.weight), arc.nextstate),
              (s: int, p: ((int, W), int)) => Arc(p.0.0, p.0.0, p.0.1, p.1), "acceptor")
  }

  /** An arc survives exactly when it is an acceptor arc. */
  lemma AcceptorRoundTrip<W>(s: int, arc: Arc<W>)
    ensures var c := AcceptorCompactor<W>();
            c.expand(s, c.compact(s, arc)) == arc <==> arc.olabel == arc.ilabel
  {
  }

  lemma AcceptorRecoverable<W(!new)>()
    ensures ElementsRecoverable(AcceptorCompactor<W>())
  {
  }

  // ---------------------------------------------------------------------
  // UnweightedCompactor: the element is ((ilabel, olabel), nextstate).

  function UnweightedCompactor<W>(one: W): (c: Compactor<((int, int), int), W>)
    ensures c.size == -1 && c.typeName == "unweighted"
  {
    Compactor(-1, (s: int, arc: Arc<W>) => ((arc.ilabel, arc.olabel), arc.nextstate),
              (s: int, p: ((int, int), int)) => Arc(p.0.0, p.0.1, one, p.1), "unweighted")
  }

  /** An arc survives exactly when it is unweighted. */
  lemma UnweightedRoundTrip<W>(one: W, s: int, arc: Arc<W>)
    ensures var c := UnweightedCompactor(one);
            c.expand(s, c.compact(s, arc)) == arc <==> arc.weight == one
  {
  }

  lemma UnweightedRecoverable<W>(one: W)
    ensures ElementsRecoverable(UnweightedCompactor(one))
  {
  }

  /** Every stock compactor expands the compaction of a superfinal arc to an
      element with label `kNoLabel`: final weights are recognisable in the
      element array. */
  lemma SuperfinalRecognised<W>(one: W, s: int, w: W)
    ensures StringCompactor(one).expand(s, StringCompactor(one).compact(s, Superfinal(w))).ilabel == NoLabel
    ensures WeightedStringCompactor<W>().expand(s, WeightedStringCompactor<W>().compact(s, Superfinal(w)))
            == Superfinal(w)
    ensures UnweightedAcceptorCompactor(one).expand(s, UnweightedAcceptorCompactor(one).compact(s, Superfinal(w)))
            == Superfinal(one)
    ensures AcceptorCompactor<W>().expand(s, AcceptorCompactor<W>().compact(s, Superfinal(w))) == Superfinal(w)
    ensures UnweightedCompactor(one).expand(s, UnweightedCompactor(one).compact(s, Superfinal(w))) == Superfinal(one)
  {
  }
}
