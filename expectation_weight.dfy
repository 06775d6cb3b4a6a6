/** The expectation semiring (src/include/fst/expectation-weight.h): pairs
    <a, b> of a weight a of W1 (usually a probability) and a weight b of W2
    (usually a random variable), with
      Zero = <0, 0>, One = <1, 0>,
      <a1, b1> + <a2, b2> = <a1 + a2, b1 + b2>,
      <a1, b1> * <a2, b2> = <a1 * a2, a1 * b2 + b1 * a2>.
    The component semirings are abstract: their constants and operations
    are passed in as records. */
module ExpectationWeights {

  /** The operations of a component semiring. */
  datatype Semiring<!W> = Semiring(zero: W, one: W, noWeight: W,
                                  plus: (W, W) -> W, times: (W, W) -> W,
                                  properties: bv64)

  /** The two external products that connect W1 and W2 (for W1 == W2 both
      are the semiring's own Times). */
  datatype Products<!W1, !W2> = Products(left: (W1, W2) -> W2, right: (W2, W1) -> W2)

  datatype ExpectationWeight<W1, W2> = ExpectationWeight(value1: W1, value2: W2)

  /** Semiring property bits (the weight-property constants of the library). */
  const LeftSemiring: bv64 := 0x1
  const RightSemiring: bv64 := 0x2
  const Commutative: bv64 := 0x4
  const Idempotent: bv64 := 0x8

  function Zero<W1, W2>(s1: Semiring<W1>, s2: Semiring<W2>): (z: ExpectationWeight<W1, W2>)
    ensures z.value1 == s1.zero && z.value2 == s2.zero
  {
    ExpectationWeight(s1.zero, s2.zero)
  }

  function One<W1, W2>(s1: Semiring<W1>, s2: Semiring<W2>): (o: ExpectationWeight<W1, W2>)
    ensures o.value1 == s1.one && o.value2 == s2.zero
  {
    ExpectationWeight(s1.one, s2.zero)
  }

  function NoWeight<W1, W2>(s1: Semiring<W1>, s2: Semiring<W2>): (n: ExpectationWeight<W1, W2>)
    ensures n.value1 == s1.noWeight && n.value2 == s2.noWeight
  {
    ExpectationWeight(s1.noWeight, s2.noWeight)
  }

  /** The properties of the pair: only those both components have, and only
      among left/right semiring, commutative and idempotent. */
  function Properties<W1, W2>(s1: Semiring<W1>, s2: Semiring<W2>): (p: bv64)
    ensures p & !s1.properties == 0
    ensures p & !s2.properties == 0
    ensures p & !(LeftSemiring | RightSemiring | Commutative | Idempotent) == 0
  {
    s1.properties & s2.properties & (LeftSemiring | RightSemiring | Commutative | Idempotent)
  }

  function Plus<W1, W2>(s1: Semiring<W1>, s2: Semiring<W2>,
                        w1: ExpectationWeight<W1, W2>, w2: ExpectationWeight<W1, W2>): ExpectationWeight<W1, W2>
  {
    ExpectationWeight(s1.plus(w1.value1, w2.value1), s2.plus(w1.value2, w2.value2))
  }

  function Times<W1, W2>(s1: Semiring<W1>, s2: Semiring<W2>, x: Products<W1, W2>,
                         w1: ExpectationWeight<W1, W2>, w2: ExpectationWeight<W1, W2>): ExpectationWeight<W1, W2>
  {
    ExpectationWeight(s1.times(w1.value1, w2.value1),
                      s2.plus(x.left(w1.value1, w2.value2), x.right(w1.value2, w2.value1)))
  }

  /** Division is not implemented: it reports an error and returns NoWeight. */
  function Divide<W1, W2>(s1: Semiring<W1>, s2: Semiring<W2>,
                          w1: ExpectationWeight<W1, W2>, w2: ExpectationWeight<W1, W2>): (q: ExpectationWeight<W1, W2>)
    ensures q == NoWeight(s1, s2)
  {
    NoWeight(s1, s2)
  }

  /** Plus is associative. */
  ghost predicate PlusAssociative<W(!new)>(s: Semiring<W>)
  {
    forall a, b, c :: s.plus(s.plus(a, b), c) == s.plus(a, s.plus(b, c))
  }

  /** Plus is commutative with identity Zero. */
  ghost predicate PlusCommutativeMonoid<W(!new)>(s: Semiring<W>)
  {
    (forall a, b :: s.plus(a, b) == s.plus(b, a)) &&
    (forall a :: s.plus(a, s.zero) == a)
  }

  /** Times is associative. */
  ghost predicate TimesAssociative<W(!new)>(s: Semiring<W>)
  {
    forall a, b, c :: s.times(s.times(a, b), c) == s.times(a, s.times(b, c))
  }

  /** Times has identity One, and Zero annihilates. */
  ghost predicate TimesIdentityAndZero<W(!new)>(s: Semiring<W>)
  {
    (forall a :: s.times(s.one, a) == a && s.times(a, s.one) == a) &&
    (forall a :: s.times(s.zero, a) == s.zero && s.times(a, s.zero) == s.zero)
  }

  /** Times distributes over Plus on both sides. */
  ghost predicate Distributive<W(!new)>(s: Semiring<W>)
  {
    (forall a, b, c :: s.times(a, s.plus(b, c)) == s.plus(s.times(a, b), s.times(a, c))) &&
    (forall a, b, c :: s.times(s.plus(a, b), c) == s.plus(s.times(a, c), s.times(b, c)))
  }

  /** The case W1 == W2, where both external products are the semiring's Times. */
  function SelfProducts<W>(s: Semiring<W>): Products<W, W>
  {
    Products(s.times, s.times)
  }

  /** One is a two-sided identity of Times and Zero a two-sided annihilator. */
  lemma OneAndZero<W(!new)>(s: Semiring<W>, w: ExpectationWeight<W, W>)
    requires PlusCommutativeMonoid(s) && TimesIdentityAndZero(s)
    ensures Times(s, s, SelfProducts(s), One(s, s), w) == w
    ensures Times(s, s, SelfProducts(s), w, One(s, s)) == w
    ensures Times(s, s, SelfProducts(s), Zero(s, s), w) == Zero(s, s)
    ensures Times(s, s, SelfProducts(s), w, Zero(s, s)) == Zero(s, s)
  {
    var (a, b) := (w.value1, w.value2);
    assert s.plus(s.zero, b) == b by {
      assert s.plus(s.zero, b) == s.plus(b, s.zero);
    }
    assert s.times(s.one, a) == a && s.times(a, s.one) == a;
    assert s.times(s.one, b) == b && s.times(b, s.one) == b;
    assert s.times(s.zero, a) == s.zero && s.times(a, s.zero) == s.zero;
    assert s.times(s.zero, b) == s.zero && s.times(b, s.zero) == s.zero;
    assert s.plus(s.zero, s.zero) == s.zero;
    assert s.plus(b, s.zero) == b;
  }

  /** Zero is an identity of Plus, and Plus is commutative and associative,
      componentwise. */
  lemma PlusLaws<W(!new)>(s: Semiring<W>, u: ExpectationWeight<W, W>, v: ExpectationWeight<W, W>, w: ExpectationWeight<W, W>)
    requires PlusAssociative(s) && PlusCommutativeMonoid(s)
    ensures Plus(s, s, u, Zero(s, s)) == u
    ensures Plus(s, s, u, v) == Plus(s, s, v, u)
    ensures Plus(s, s, Plus(s, s, u, v), w) == Plus(s, s, u, Plus(s, s, v, w))
  {
  }

  /** Times of expectation weights is associative: both groupings of three
      factors give <a1 a2 a3, a1 a2 b3 + a1 b2 a3 + b1 a2 a3>. */
  lemma TimesIsAssociative<W(!new)>(s: Semiring<W>, u: ExpectationWeight<W, W>, v: ExpectationWeight<W, W>, w: ExpectationWeight<W, W>)
    requires PlusAssociative(s) && TimesAssociative(s) && Distributive(s)
    ensures Times(s, s, SelfProducts(s), Times(s, s, SelfProducts(s), u, v), w)
         == Times(s, s, SelfProducts(s), u, Times(s, s, SelfProducts(s), v, w))
  {
    var (a1, b1, a2, b2, a3, b3) := (u.value1, u.value2, v.value1, v.value2, w.value1, w.value2);
    var t := s.times;
    var p := s.plus;
    calc {
      p(t(t(a1, a2), b3), t(p(t(a1, b2), t(b1, a2)), a3));
      p(t(t(a1, a2), b3), p(t(t(a1, b2), a3), t(t(b1, a2), a3)));
      p(t(a1, t(a2, b3)), p(t(a1, t(b2, a3)), t(b1, t(a2, a3))));
      p(p(t(a1, t(a2, b3)), t(a1, t(b2, a3))), t(b1, t(a2, a3)));
      p(t(a1, p(t(a2, b3), t(b2, a3))), t(b1, t(a2, a3)));
    }
  }

  /** The streaming sum of expectation weights: one running sum per
      component, each kept by the component's own adder (whose state is its
      running sum). */
  class Adder<W1, W2> {
    const s1: Semiring<W1>
    const s2: Semiring<W2>
    var sum1: W1
    var sum2: W2

    constructor (s1: Semiring<W1>, s2: Semiring<W2>, w: ExpectationWeight<W1, W2>)
      ensures this.s1 == s1 && this.s2 == s2
      ensures Sum() == w
    {
      this.s1, this.s2 := s1, s2;
      sum1, sum2 := w.value1, w.value2;
    }

    function Sum(): (w: ExpectationWeight<W1, W2>)
      reads this
    {
      ExpectationWeight(sum1, sum2)
    }

    /** Adds w to the running sum and returns the new sum. */
    method Add(w: ExpectationWeight<W1, W2>) returns (sum: ExpectationWeight<W1, W2>)
      modifies this
      ensures Sum() == Plus(s1, s2, old(Sum()), w)
      ensures sum == Sum()
    {
      sum1 := s1.plus(sum1, w.value1);
      sum2 := s2.plus(sum2, w.value2);
      sum := Sum();
    }

    /** Restarts the running sum from w (Zero by default in the library). */
    method Reset(w: ExpectationWeight<W1, W2>)
      modifies this
      ensures Sum() == w
    {
      sum1, sum2 := w.value1, w.value2;
    }
  }

  /** The sum of a sequence of expectation weights, added left to right. */
  function SumOf<W1, W2>(s1: Semiring<W1>, s2: Semiring<W2>, start: ExpectationWeight<W1, W2>,
                         ws: seq<ExpectationWeight<W1, W2>>): ExpectationWeight<W1, W2>
    decreases |ws|
  {
    if ws == [] then start else Plus(s1, s2, SumOf(s1, s2, start, ws[..|ws| - 1]), ws[|ws| - 1])
  }

  /** Feeding a sequence through a fresh adder yields its sum. */
  method AddAll<W1, W2>(s1: Semiring<W1>, s2: Semiring<W2>, ws: seq<ExpectationWeight<W1, W2>>)
    returns (total: ExpectationWeight<W1, W2>)
    ensures total == SumOf(s1, s2, Zero(s1, s2), ws)
  {
    var adder := new Adder(s1, s2, Zero(s1, s2));
    total := adder.Sum();
    for i := 0 to |ws|
      invariant adder.s1 == s1 && adder.s2 == s2
      invariant adder.Sum() == total == SumOf(s1, s2, Zero(s1, s2), ws[..i])
    {
      total := adder.Add(ws[i]);
      assert ws[..i + 1][..i] == ws[..i];
    }
    assert ws[..|ws|] == ws;
  }
}
