/**
 * Properties of the Cox–Ross–Rubinstein lattice of module Lattice: the shape
 * of the recombining tree, the meaning of the derived probability, and the
 * relations between the values of related trees.
 */
module LatticeProperties {
  import opened Lattice

  /** Moving up multiplies the spot by u, moving down multiplies it by d. */
  lemma SpotMoves(S: real, u: real, d: real, j: nat, i: nat)
    requires i <= j
    ensures Spot(S, u, d, j + 1, i) == u * Spot(S, u, d, j, i)
    ensures Spot(S, u, d, j + 1, i + 1) == d * Spot(S, u, d, j, i)
  {
  }

  /** When u * d = 1 the tree recombines: an up-move followed by a down-move returns to the same price. */
  lemma Recombines(S: real, u: real, d: real, j: nat, i: nat)
    requires i <= j && u * d == 1.0
    ensures Spot(S, u, d, j + 2, i + 1) == Spot(S, u, d, j, i)
  {
  }

  /** Along a layer the spot strictly falls as the number of down-moves grows, whenever 0 < d < u. */
  lemma SpotDescending(S: real, u: real, d: real, j: nat, i: nat)
    requires S > 0.0 && 0.0 < d < u && i < j
    ensures Spot(S, u, d, j, i + 1) < Spot(S, u, d, j, i)
  {
    SpotMoves(S, u, d, j - 1, i);
    var s := Spot(S, u, d, j - 1, i);
    assert u * s - d * s == (u - d) * s;
    assert (u - d) * s > 0.0;
  }

  /** p = x / w lies in [0, 1] exactly when x lies between 0 and w. */
  lemma RatioInUnit(p: real, w: real, x: real)
    requires w != 0.0 && p * w == x
    ensures 0.0 <= p <= 1.0 <==> (0.0 <= x <= w || w <= x <= 0.0)
  {
  }

  /**
   * The Cox–Ross–Rubinstein p is a probability exactly when the growth
   * factor g lies between the down factor and the up factor.
   */
  lemma CrrNoArbitrageIff(u: real, g: real)
    requires u > 0.0 && u != 1.0 && g > 0.0
    ensures var f := CrrFactors(u, g); f.NoArbitrage() <==> (f.d <= g <= u || u <= g <= f.d)
  {
    var f := CrrFactors(u, g);
    RatioInUnit(f.p, u - f.d, g - f.d);
  }

  /** The continuation value is monotone in both children. */
  lemma ContinuationMonotone(f: Factors, up: real, down: real, up': real, down': real)
    requires f.NoArbitrage() && up' >= up && down' >= down
    ensures Continuation(f, up', down') >= Continuation(f, up, down)
  {
    var p := f.p;
    NonNegativeProduct(p, up' - up);
    NonNegativeProduct(1.0 - p, down' - down);
    var gap := (p * up' + (1.0 - p) * down') - (p * up + (1.0 - p) * down);
    assert gap == p * (up' - up) + (1.0 - p) * (down' - down);
    NonNegativeProduct(f.disc, gap);
  }

  /** Every node of the American tree is worth at least the same node of the European tree. */
  lemma {:induction false} AmericanDominatesAt(t: Tree, j: nat, i: nat)
    requires t.f.NoArbitrage() && i <= j <= t.N
    ensures Value(t.(american := true), j, i) >= Value(t.(american := false), j, i)
    decreases t.N - j
  {
    var am, eu := t.(american := true), t.(american := false);
    if j < t.N {
      var a1, a2 := Value(am, j + 1, i), Value(am, j + 1, i + 1);
      var e1, e2 := Value(eu, j + 1, i), Value(eu, j + 1, i + 1);
      AmericanDominatesAt(t, j + 1, i);
      AmericanDominatesAt(t, j + 1, i + 1);
      ContinuationMonotone(t.f, e1, e2, a1, a2);
    }
  }

  /** The American price is at least the European price for otherwise identical inputs. */
  lemma AmericanAtLeastEuropean(t: Tree)
    requires t.f.NoArbitrage()
    ensures Price(t.(american := true)) >= Price(t.(american := false))
  {
    AmericanDominatesAt(t, 0, 0);
  }

  /**
   * A two-step put with S = K = 1 on the CRR factors for u = 2 and g = 3.5
   * (sigma = ln 2 and r = ln 3.5 per step): d = 1/2, p = 2 and disc = 2/7,
   * so g lies above u and p is not a probability.
   */
  const OutsideUnitPut := Tree(1.0, 1.0, 2, Factors(2.0, 0.5, 2.0, 2.0 / 7.0), Put, false)
  const OutsideUnitAmericanPut := Tree(1.0, 1.0, 2, Factors(2.0, 0.5, 2.0, 2.0 / 7.0), Put, true)

  /** That tree's factors are the CRR factors the pricer derives from u = 2 and g = 3.5. */
  lemma CrrFactorsOutsideUnit()
    ensures CrrFactors(2.0, 3.5) == OutsideUnitPut.f
  {
  }

  /** European layer 1 of that tree is (0, -3/14), so its root is 3/49. */
  lemma OutsideUnitEuropeanPrice()
    ensures Value(OutsideUnitPut, 0, 0) == 3.0 / 49.0
  {
    var t := OutsideUnitPut;
    assert Value(t, 2, 0) == 0.0 && Value(t, 2, 1) == 0.0 && Value(t, 2, 2) == 0.75;
    assert Value(t, 1, 0) == 0.0 && Value(t, 1, 1) == -3.0 / 14.0;
  }

  /** American layer 1 of that tree is (0, 1/2): the put at node (1, 1) is exercised. */
  lemma OutsideUnitAmericanLayer()
    ensures Value(OutsideUnitAmericanPut, 1, 0) == 0.0 && Value(OutsideUnitAmericanPut, 1, 1) == 0.5
  {
    var t := OutsideUnitAmericanPut;
    assert Value(t, 2, 0) == 0.0 && Value(t, 2, 1) == 0.0 && Value(t, 2, 2) == 0.75;
  }

  /** With p = 2 the continuation at the root is -1/7, so the American root is its exercise value 0. */
  lemma OutsideUnitAmericanRoot(t: Tree)
    requires t.american && t.kind == Put && t.S == 1.0 && t.K == 1.0 && t.N >= 1
    requires t.f.p == 2.0 && t.f.disc == 2.0 / 7.0
    requires Value(t, 1, 0) == 0.0 && Value(t, 1, 1) == 0.5
    ensures Value(t, 0, 0) == 0.0
  {
  }

  /** So the American root of that tree is 0. */
  lemma OutsideUnitAmericanPrice()
    ensures Value(OutsideUnitAmericanPut, 0, 0) == 0.0
  {
    OutsideUnitAmericanLayer();
    OutsideUnitAmericanRoot(OutsideUnitAmericanPut);
  }

  /**
   * Without p in [0, 1] the American price can fall below the European one:
   * for the put above the European price is 3/49 and the American price is 0.
   */
  lemma AmericanBelowEuropeanWithoutNoArbitrage()
    ensures !OutsideUnitPut.f.NoArbitrage()
    ensures Price(OutsideUnitPut.(american := true)) < Price(OutsideUnitPut)
  {
    OutsideUnitEuropeanPrice();
    OutsideUnitAmericanPrice();
    assert OutsideUnitPut.(american := true) == OutsideUnitAmericanPut;
  }

  /** The strike discounted from maturity back to layer j: K * disc^(N - j). */
  function DiscountedStrike(t: Tree, j: nat): real
    requires j <= t.N
  {
    t.K * Pow(t.f.disc, t.N - j)
  }

  /** Discounting one more step multiplies by disc. */
  lemma DiscountedStrikeStep(t: Tree, j: nat)
    requires j < t.N
    ensures DiscountedStrike(t, j) == t.f.disc * DiscountedStrike(t, j + 1)
  {
  }

  /** The continuation value is linear: the difference of two continuations is the continuation of the differences. */
  lemma ContinuationDifference(f: Factors, a: real, b: real, a': real, b': real)
    ensures Continuation(f, a, b) - Continuation(f, a', b') == Continuation(f, a - a', b - b')
  {
  }

  /** Lowering both children by k lowers the continuation value by k discounted one step. */
  lemma ContinuationShift(f: Factors, a: real, b: real, k: real)
    ensures Continuation(f, a - k, b - k) == Continuation(f, a, b) - f.disc * k
  {
  }

  /** Under risk neutrality the discounted spot is a martingale on the lattice: each node's spot is the continuation value of its children's spots. */
  lemma SpotMartingale(t: Tree, j: nat, i: nat)
    requires t.f.RiskNeutral() && i <= j
    ensures Continuation(t.f, t.SpotAt(j + 1, i), t.SpotAt(j + 1, i + 1)) == t.SpotAt(j, i)
  {
  }

  /** One backward step of put–call parity: if it holds at both children, it holds for their continuation values. */
  lemma ParityStep(t: Tree, j: nat, i: nat, callUp: real, putUp: real, callDown: real, putDown: real)
    requires t.f.RiskNeutral() && i <= j < t.N
    requires callUp - putUp == t.SpotAt(j + 1, i) - DiscountedStrike(t, j + 1)
    requires callDown - putDown == t.SpotAt(j + 1, i + 1) - DiscountedStrike(t, j + 1)
    ensures Continuation(t.f, callUp, callDown) - Continuation(t.f, putUp, putDown) == t.SpotAt(j, i) - DiscountedStrike(t, j)
  {
    var s1, s2, k := t.SpotAt(j + 1, i), t.SpotAt(j + 1, i + 1), DiscountedStrike(t, j + 1);
    ContinuationDifference(t.f, callUp, callDown, putUp, putDown);
    ContinuationShift(t.f, s1, s2, k);
    SpotMartingale(t, j, i);
    DiscountedStrikeStep(t, j);
    assert Continuation(t.f, callUp - putUp, callDown - putDown) == Continuation(t.f, s1 - k, s2 - k);
  }

  /** A European node is exactly the continuation value of its children. */
  lemma EuropeanStep(t: Tree, j: nat, i: nat)
    requires !t.american && i <= j < t.N
    ensures Value(t, j, i) == Continuation(t.f, Value(t, j + 1, i), Value(t, j + 1, i + 1))
  {
  }

  /**
   * Put–call parity holds exactly on a risk-neutral European lattice: at every
   * node the call minus the put is the spot minus the strike discounted to
   * that layer.
   */
  lemma {:induction false} EuropeanParityAt(t: Tree, j: nat, i: nat)
    requires t.f.RiskNeutral() && !t.american && i <= j <= t.N
    ensures Value(t.(kind := Call), j, i) - Value(t.(kind := Put), j, i) == t.SpotAt(j, i) - DiscountedStrike(t, j)
    decreases t.N - j
  {
    var c, q := t.(kind := Call), t.(kind := Put);
    if j < t.N {
      EuropeanParityAt(t, j + 1, i);
      EuropeanParityAt(t, j + 1, i + 1);
      ParityStep(t, j, i, Value(c, j + 1, i), Value(q, j + 1, i), Value(c, j + 1, i + 1), Value(q, j + 1, i + 1));
      EuropeanStep(c, j, i);
      EuropeanStep(q, j, i);
    }
  }

  /** European put–call parity on the lattice price: C - P = S - K * disc^N. */
  lemma EuropeanPutCallParity(t: Tree)
    requires t.f.RiskNeutral() && !t.american
    ensures Price(t.(kind := Call)) - Price(t.(kind := Put)) == t.S - t.K * Pow(t.f.disc, t.N)
  {
    EuropeanParityAt(t, 0, 0);
    assert t.SpotAt(0, 0) == t.S * 1.0 * 1.0;
    assert DiscountedStrike(t, 0) == t.K * Pow(t.f.disc, t.N);
    assert Price(t.(kind := Call)) == Value(t.(kind := Call), 0, 0);
    assert Price(t.(kind := Put)) == Value(t.(kind := Put), 0, 0);
  }

  /** With 0 <= disc <= 1 and K >= 0, discounting never raises the strike. */
  lemma DiscountedStrikeBound(t: Tree, j: nat)
    requires 0.0 <= t.f.disc <= 1.0 && t.K >= 0.0 && j <= t.N
    ensures DiscountedStrike(t, j) <= t.K
  {
    NonNegativeProduct(t.K, 1.0 - Pow(t.f.disc, t.N - j));
  }

  /**
   * With a non-negative rate (disc <= 1) and a non-negative strike, the
   * European call is worth at least its exercise value at every node.
   */
  lemma EuropeanCallAboveExercise(t: Tree, j: nat, i: nat)
    requires t.f.NoArbitrage() && t.f.RiskNeutral() && t.f.disc <= 1.0
    requires !t.american && t.K >= 0.0 && i <= j <= t.N
    ensures Value(t.(kind := Call), j, i) >= Intrinsic(Call, t.SpotAt(j, i), t.K)
  {
    EuropeanParityAt(t, j, i);
    DiscountedStrikeBound(t, j);
    assert Value(t.(kind := Put), j, i) >= 0.0;
  }

  /** Under the same hypotheses early exercise never binds: the American call equals the European call at every node. */
  lemma {:induction false} AmericanCallIsEuropeanAt(t: Tree, j: nat, i: nat)
    requires t.f.NoArbitrage() && t.f.RiskNeutral() && t.f.disc <= 1.0
    requires t.kind == Call && t.K >= 0.0 && i <= j <= t.N
    ensures Value(t.(american := true), j, i) == Value(t.(american := false), j, i)
    decreases t.N - j
  {
    var am, eu := t.(american := true), t.(american := false);
    if j < t.N {
      AmericanCallIsEuropeanAt(t, j + 1, i);
      AmericanCallIsEuropeanAt(t, j + 1, i + 1);
      EuropeanCallAboveExercise(eu, j, i);
      assert eu.(kind := Call) == eu;
    }
  }

  /** An American call with r >= 0 and no dividends is priced like its European twin. */
  lemma AmericanCallIsEuropean(t: Tree)
    requires t.f.NoArbitrage() && t.f.RiskNeutral() && t.f.disc <= 1.0
    requires t.kind == Call && t.K >= 0.0
    ensures Price(t.(american := true)) == Price(t.(american := false))
  {
    AmericanCallIsEuropeanAt(t, 0, 0);
  }
}
