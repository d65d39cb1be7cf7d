# Cox–Ross–Rubinstein binomial lattice pricer

This project models `binomial_option_pricing` from `BIN.py` (lines 3-36), which prices a call or a put by the Cox–Ross–Rubinstein binomial lattice. The option can be European, or American with early exercise allowed. The pricer works in four steps:

1. It fills an array of the N + 1 terminal spot prices `S·u^(N−i)·d^i`.
2. It turns that array into terminal payoffs.
3. It runs backward induction, overwriting the value array in place, layer by layer. When the option is American, each node is raised to at least its raw exercise value at a spot recomputed from the node's coordinates.
4. It returns entry 0.

The project has three modules:

- `Lattice` (Lattice.dfy) holds the lattice as mathematics:
  - node spot prices `Spot`;
  - payoffs;
  - the one-step continuation value;
  - the node value `Value(t, j, i)`, defined by the backward recurrence;
  - the price `Value(t, 0, 0)`.

  The four per-step scalars (u, d, p and the one-step discount) are the fields of `Factors`. `CrrFactors` derives them exactly, in real arithmetic, from the two exponentials u = exp(σ·√dt) and g = exp(r·dt).
- `BinomialPricer` (BinomialPricer.dfy) is the imperative pricer over `array<real>`:
  - the terminal-price loop;
  - the payoff loop;
  - the in-place layer update with its American floor;
  - the backward-induction loop;
  - the top-level method with its two error cases.

  Each method is proved to compute the corresponding part of `Lattice`.
- `LatticeProperties` (LatticeProperties.dfy) proves properties of the lattice:
  - the tree's shape;
  - when p is a probability;
  - monotonicity;
  - American ≥ European, when p ∈ [0, 1] and disc ≥ 0 (for the CRR factors: g between d and u), and a concrete tree with p > 1 on which it fails;
  - exact put–call parity on a European lattice;
  - that an American call is never exercised early, given a non-negative rate (disc ≤ 1), K ≥ 0, p ∈ [0, 1] and risk neutrality. For the CRR factors risk neutrality always holds, disc ≤ 1 means r ≥ 0, and p ∈ [0, 1] means g lies between d and u.

## Model

| member | source | states |
|---|---|---|
| BinomialPricer.BinomialOptionPricing | BIN.py:3-36 | N < 1 yields the error StepsNotPositive. An option type other than "call" or "put" yields InvalidOptionType. Otherwise the result is the lattice price Price of the tree built from S, K, N, the CRR scalars and the parsed kind. When g lies between d = 1/u and u, the price is non-negative. |
| BinomialPricer.ParseOptionType | BIN.py:18-23 | Only the strings "call" and "put" are accepted, each mapping to the kind it names. Every other string is rejected. |
| BinomialPricer.TerminalPrices | BIN.py:13-15 | Returns a new array of length N + 1 whose entry i is S·u^(N−i)·d^i. |
| BinomialPricer.TerminalPayoffs | BIN.py:18-21 | Returns a new array of the same length whose entry i is max(ST[i] − K, 0) for a call and max(K − ST[i], 0) for a put. Every entry is ≥ 0. |
| BinomialPricer.BackwardStep | BIN.py:27-34 | Given entries 0..j+1 holding layer j+1, the ascending in-place update leaves entries 0..j holding exactly layer j of the pure recurrence. Entries above j are unchanged. For an American option every written entry is ≥ the raw exercise value at spot S·u^(j−i)·d^i. |
| BinomialPricer.BackwardInduction | BIN.py:26-34 | Starting from the terminal payoffs, after layers N−1 down to 0 entry k holds the value of node (k, k). In particular entry 0 holds the price. |
| Lattice.CrrFactors | BIN.py:7-10 | With d = 1/u, p = (g − d)/(u − d) and disc = 1/g, the tree recombines (u·d = 1) and is risk neutral (disc·(p·u + (1−p)·d) = 1). Also p·(u − d) = g − d and disc·g = 1. |
| Lattice.Pow | BIN.py:15 | A natural power of a positive base is positive. A natural power of a base in [0, 1] stays in [0, 1]. |
| Lattice.Spot | BIN.py:15 | The spot S·u^(j−i)·d^i of node (j, i), computed the same way at maturity and in the American branch at line 30, is positive when S, u and d are. |
| Lattice.Max | BIN.py:32-34 | Python's max of two values is at least both and is one of them. |
| Lattice.Payoff | BIN.py:18-21 | The terminal payoff is ≥ 0 and ≥ the raw exercise value, and it equals one of the two. |
| Lattice.Intrinsic | BIN.py:32-34 | The raw exercise value ST − K (call) or K − ST (put) is positive exactly when the option is in the money: ST > K for a call, ST < K for a put. |
| Lattice.Continuation | BIN.py:28 | When p ∈ [0, 1] and disc ≥ 0, the discounted expectation of two non-negative children is non-negative. |
| Lattice.Value | BIN.py:26-34 | Every American node is ≥ its raw exercise value ST − K or K − ST. Every node is ≥ 0 when p ∈ [0, 1] and disc ≥ 0. |
| Lattice.Price | BIN.py:36 | The price is ≥ 0 when p ∈ [0, 1] and disc ≥ 0. An American price is ≥ the immediate exercise value at S. |
| LatticeProperties.SpotMoves | BIN.py:15 | From node (j, i), the up-move multiplies the spot by u and the down-move multiplies it by d. |
| LatticeProperties.Recombines | BIN.py:8 | With d = 1/u, an up-move followed by a down-move returns to the starting price. |
| LatticeProperties.SpotDescending | BIN.py:13-15 | With S > 0 and 0 < d < u, the spots of a layer strictly decrease with the index. |
| LatticeProperties.CrrNoArbitrageIff | BIN.py:7-10 | The CRR p is a probability exactly when g lies between d and u. |
| LatticeProperties.ContinuationMonotone | BIN.py:28 | For p ∈ [0, 1] and disc ≥ 0, the one-step update is monotone in both children. |
| LatticeProperties.AmericanDominatesAt | BIN.py:26-34 | When p ∈ [0, 1] and disc ≥ 0 (for the CRR factors: g between d and u), at every node the American value is ≥ the European value of the same tree. |
| LatticeProperties.AmericanAtLeastEuropean | BIN.py:26-36 | When p ∈ [0, 1] and disc ≥ 0 (for the CRR factors: g between d and u), the American price is ≥ the European price for identical other inputs. |
| LatticeProperties.CrrFactorsOutsideUnit | BIN.py:7-10 | For u = 2 and g = 3.5 the CRR factors are d = 1/2, p = 2 and disc = 2/7. |
| LatticeProperties.AmericanBelowEuropeanWithoutNoArbitrage | BIN.py:26-36 | The p ∈ [0, 1] hypothesis of American ≥ European cannot be dropped. On the two-step put with S = K = 1 and those factors, p is outside [0, 1], the European price is 3/49 and the American price is 0. |
| LatticeProperties.ContinuationDifference | BIN.py:28 | The one-step update is linear: the update of the differences is the difference of the updates. |
| LatticeProperties.ContinuationShift | BIN.py:28 | Lowering both children by k lowers the update by disc·k. |
| LatticeProperties.SpotMartingale | BIN.py:28-30 | Each node's spot is the one-step update of its two children's spots. |
| LatticeProperties.ParityStep | BIN.py:28 | Call − put = spot − discounted strike at both children implies the same at the parent. |
| LatticeProperties.EuropeanParityAt | BIN.py:18-28 | On a risk-neutral European lattice, call − put at node (j, i) equals the spot minus K·disc^(N−j). |
| LatticeProperties.EuropeanPutCallParity | BIN.py:18-36 | European put–call parity for the price: C − P = S − K·disc^N. |
| LatticeProperties.EuropeanCallAboveExercise | BIN.py:18-32 | With p ∈ [0, 1], risk neutrality, disc ≤ 1 and K ≥ 0, every European call node is ≥ its raw exercise value. |
| LatticeProperties.AmericanCallIsEuropeanAt | BIN.py:29-32 | With p ∈ [0, 1], risk neutrality, disc ≤ 1 and K ≥ 0, the American call floor never changes a node: American and European call values coincide at every node. |
| LatticeProperties.AmericanCallIsEuropean | BIN.py:29-36 | With p ∈ [0, 1], risk neutrality, disc ≤ 1 and K ≥ 0, the American call price equals the European call price. |

## Left out

- Only the lattice pricer in BIN.py is modelled. The closed-form pricer and volatility estimate in BS.py, and the Monte Carlo pricer in MC.py, are not part of this model. They consist of foreign numerical calls and randomness.
- Computing dt = T/N, u = exp(σ·√dt), e^(r·dt) and exp(−r·dt) (lines 5-10 and 28) is left out, because the model has no exp or sqrt.
  - The top-level method therefore takes u and g = exp(r·dt) in place of T, r and σ.
  - Its requirements u > 0 and g > 0 are facts about exp.
  - It also requires u ≠ 1 (σ·√dt ≠ 0). At u = 1, line 10 divides exp(r·dt) − 1 by 0 in floating point. That gives p = NaN when r·dt = 0, and p = ±inf otherwise; the infinity turns into NaN at line 28 (inf·0 or inf − inf). Real arithmetic can represent neither.
- Floating-point rounding, NaN and infinity are not modelled: all arithmetic is exact over `real`. Convergence of the lattice price to the analytic price as N grows is not modelled either.
- The source does not check that p lies in (0, 1); it silently prices a tree whose p is outside that range. The model follows the code.
  - It does not report a degeneracy error.
  - Properties that need p ∈ [0, 1] take that hypothesis explicitly.
  - `CrrNoArbitrageIff` gives the exact condition on the inputs.
  - Outside that condition the source's American price can fall below its European price for the same inputs; `AmericanBelowEuropeanWithoutNoArbitrage` gives such a tree (u = 2, g = 3.5, a two-step put).
- The source does not validate S, K or the option style either, and the model adds no such checks.
- N < 1: the source fails on its own here, and the model reports every such N as the error `StepsNotPositive`; it does not model the individual exceptions or the order in which the source meets them.
  - At N = 0 the source raises a division by zero at line 5.
  - At N ≤ −2 it raises a dimension error at line 13, before it looks at the option type.
  - At N = −1 the array of line 13 is empty and the loop of line 14 does nothing. A valid option type then reaches line 36, which raises an index error. An unknown option type raises the ValueError of line 23 first.
- `BinomialPricer.BinomialOptionPricing`: checks N < 1 before the option type, so at N = −1 with an unknown option type it returns `StepsNotPositive` where the source raises its invalid-option-type error (line 23).
- The defaults `option_type='call'` and `american=False` are not modelled; the method takes both arguments explicitly.
- The vectorised `np.maximum` at lines 19/21 is modelled as an element-wise loop.
- The example block at lines 38-58, which sets sample parameters and prints, is left out because it is demo I/O.
- `LatticeProperties.SpotDescending`: stated for any 0 < d < u, which the CRR factors meet when u > 1 (σ > 0). With u < 1 (a negative σ) the order of the terminal prices is reversed.
