/** The parts of the FST interface the compact representation relies on:
    arcs, states with a final weight and an arc list, and the sentinel
    label and state id. */
module FstBase {
  /** `kNoLabel`: the label of a superfinal transition. */
  const NoLabel: int := -1
  /** `kNoStateId`: the next state of a superfinal transition and the start
      of an FST without states. */
  const NoStateId: int := -1

  datatype Arc<W> = Arc(ilabel: int, olabel: int, weight: W, nextstate: int)

  /** `Arc(kNoLabel, kNoLabel, w, kNoStateId)`, the transition the compact
      representation stores for a final weight w. */
  function Superfinal<W>(w: W): (a: Arc<W>)
    ensures a.ilabel == NoLabel && a.olabel == NoLabel && a.weight == w && a.nextstate == NoStateId
  {
    Arc(NoLabel, NoLabel, w, NoStateId)
  }

  /** A state of a source FST: its final weight (Zero when not final) and
      its arcs in iteration order. */
  datatype State<W> = State(final: W, arcs: seq<Arc<W>>)

  /** A source FST: its start state and its states, numbered 0..n-1. */
  datatype Fst<W> = Fst(start: int, states: seq<State<W>>)
}
