/**
 * The Cox–Ross–Rubinstein binomial lattice as mathematics: node spot prices,
 * payoffs, and the backward recurrence that values every node of the tree.
 *
 * Node (j, i) sits at time layer j (0 <= j <= N) after i down-moves and
 * j - i up-moves. The pricer in module BinomialPricer is proved to compute
 * Value(t, 0, 0) of this module.
 */
module Lattice {

  /** The two payoff shapes the pricer accepts ("call" and "put"). */
  datatype OptionKind = Call | Put

  /**
   * The four per-step scalars of the lattice: the up factor u, the down
   * factor d, the risk-neutral up-probability p and the one-step discount.
   * Nothing is assumed of them here; the predicates below name the
   * hypotheses that individual properties need.
   */
  datatype Factors = Factors(u: real, d: real, p: real, disc: real)
  {
    /** The tree is well posed: p is a probability and discounting keeps signs. */
    predicate NoArbitrage()
    {
      0.0 <= p <= 1.0 && disc >= 0.0
    }

    /** A down-move undoes an up-move, so the tree recombines. */
    predicate Recombining()
    {
      u * d == 1.0
    }

    /** The discounted one-step expectation of the spot is the spot itself. */
    predicate RiskNeutral()
    {
      disc * (p * u + (1.0 - p) * d) == 1.0
    }
  }

  /**
   * The Cox–Ross–Rubinstein scalars derived from the two exponentials
   * u = exp(sigma * sqrt(dt)) and g = exp(r * dt): d = 1 / u,
   * p = (g - d) / (u - d) and disc = exp(-r * dt) = 1 / g.
   * Both exponentials are positive; u = 1 (sigma = 0) would make u - d zero.
   * The scalars always recombine and are always risk neutral.
   */
  function CrrFactors(u: real, g: real): (f: Factors)
    requires u > 0.0 && u != 1.0 && g > 0.0
    ensures f.u == u && f.d > 0.0 && f.disc > 0.0 && u != f.d
    ensures f.Recombining() && f.RiskNeutral()
    ensures f.p * (u - f.d) == g - f.d && f.disc * g == 1.0
  {
    var d := 1.0 / u;
    var p := (g - d) / (u - d);
    var disc := 1.0 / g;
    Factors(u, d, p, disc)
  }

  /** The inputs of one lattice valuation: spot, strike, step count, step scalars and contract terms. */
  datatype Tree = Tree(S: real, K: real, N: nat, f: Factors, kind: OptionKind, american: bool)
  {
    /** The spot price at node (j, i). */
    function SpotAt(j: nat, i: nat): real
      requires i <= j
    {
      Spot(S, f.u, f.d, j, i)
    }
  }

  /** x raised to a natural power, as Python's `x ** k` for real x. */
  function Pow(x: real, k: nat): (r: real)
    ensures x > 0.0 ==> r > 0.0
    ensures 0.0 <= x <= 1.0 ==> 0.0 <= r <= 1.0
  {
    if k == 0 then 1.0
    else
      var rest := Pow(x, k - 1);
      assert x > 0.0 ==> x * rest > 0.0;
      assert 0.0 <= x <= 1.0 ==> x * rest <= rest;
      x * rest
  }

  /** S * u^(j-i) * d^i: the price after j - i up-moves and i down-moves. */
  function Spot(S: real, u: real, d: real, j: nat, i: nat): (r: real)
    requires i <= j
    ensures S > 0.0 && u > 0.0 && d > 0.0 ==> r > 0.0
  {
    S * Pow(u, j - i) * Pow(d, i)
  }

  /** Python's built-in `max(a, b)`: b only when it is strictly larger. */
  function Max(a: real, b: real): (r: real)
    ensures r >= a && r >= b && (r == a || r == b)
  {
    if b > a then b else a
  }

  /** The raw exercise value `ST - K` (call) or `K - ST` (put), not clamped. */
  function Intrinsic(kind: OptionKind, spot: real, K: real): (r: real)
    ensures r > 0.0 <==> (kind == Call && spot > K) || (kind == Put && spot < K)
  {
    match kind
    case Call => spot - K
    case Put => K - spot
  }

  /** The terminal payoff `max(ST - K, 0)` (call) or `max(K - ST, 0)` (put). */
  function Payoff(kind: OptionKind, spot: real, K: real): (r: real)
    ensures r >= 0.0 && r >= Intrinsic(kind, spot, K)
    ensures r == 0.0 || r == Intrinsic(kind, spot, K)
  {
    Max(Intrinsic(kind, spot, K), 0.0)
  }

  lemma NonNegativeProduct(a: real, b: real)
    requires a >= 0.0 && b >= 0.0
    ensures a * b >= 0.0
  {
  }

  /** A discounted weighted average of two non-negative values is non-negative. */
  lemma DiscountedAverageNonNegative(disc: real, p: real, up: real, down: real)
    ensures 0.0 <= p <= 1.0 && disc >= 0.0 && up >= 0.0 && down >= 0.0 ==> disc * (p * up + (1.0 - p) * down) >= 0.0
  {
    if 0.0 <= p <= 1.0 && disc >= 0.0 && up >= 0.0 && down >= 0.0 {
      NonNegativeProduct(p, up);
      NonNegativeProduct(1.0 - p, down);
      NonNegativeProduct(disc, p * up + (1.0 - p) * down);
    }
  }

  /** The discounted risk-neutral expectation of the two children of a node. */
  function Continuation(f: Factors, up: real, down: real): (r: real)
    ensures f.NoArbitrage() && up >= 0.0 && down >= 0.0 ==> r >= 0.0
  {
    DiscountedAverageNonNegative(f.disc, f.p, up, down);
    f.disc * (f.p * up + (1.0 - f.p) * down)
  }

  /**
   * The value of node (j, i): the payoff at maturity, otherwise the continuation
   * value, raised to the early-exercise value when the option is American.
   */
  function Value(t: Tree, j: nat, i: nat): (v: real)
    requires i <= j <= t.N
    ensures t.american ==> v >= Intrinsic(t.kind, t.SpotAt(j, i), t.K)
    ensures t.f.NoArbitrage() ==> v >= 0.0
    decreases t.N - j
  {
    if j == t.N then Payoff(t.kind, t.SpotAt(j, i), t.K)
    else
      var hold := Continuation(t.f, Value(t, j + 1, i), Value(t, j + 1, i + 1));
      if t.american then Max(hold, Intrinsic(t.kind, t.SpotAt(j, i), t.K)) else hold
  }

  /** The lattice price: the value of the root node. */
  function Price(t: Tree): (price: real)
    ensures t.f.NoArbitrage() ==> price >= 0.0
    ensures t.american ==> price >= Intrinsic(t.kind, t.S, t.K)
  {
    Value(t, 0, 0)
  }
}
