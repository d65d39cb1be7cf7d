/**
 * The pricer `binomial_option_pricing` as the program runs it: one array of
 * terminal spot prices, one array of option values overwritten layer by
 * layer during backward induction, and the error cases for a bad step count
 * and an unknown option type. Every method is proved to compute the lattice
 * of module Lattice.
 */
module BinomialPricer {
  import opened Lattice
  import LatticeProperties

  datatype Option<T> = None | Some(value: T)

  /** Why a pricing request is refused. */
  datatype PricingError =
    | StepsNotPositive   // N < 1: the step length T / N is undefined
    | InvalidOptionType  // the option type is neither "call" nor "put"

  datatype Result<T> = Ok(value: T) | Err(error: PricingError)

  /** The option-type string that names each payoff shape. */
  function KindName(kind: OptionKind): string
  {
    match kind
    case Call => "call"
    case Put => "put"
  }

  /** Reads an option-type string: exactly the two names of KindName are accepted. */
  function ParseOptionType(s: string): (r: Option<OptionKind>)
    ensures r.Some? ==> KindName(r.value) == s
    ensures r.None? <==> (s != KindName(Call) && s != KindName(Put))
  {
    if s == "call" then Some(Call)
    else if s == "put" then Some(Put)
    else None
  }

  /** The terminal spot prices: entry i is the price after N - i up-moves and i down-moves. */
  method TerminalPrices(S: real, u: real, d: real, N: nat) returns (st: array<real>)
    ensures fresh(st) && st.Length == N + 1
    ensures forall i :: 0 <= i <= N ==> st[i] == Spot(S, u, d, N, i)
  {
    st := new real[N + 1];
    for i := 0 to N + 1
      invariant forall k :: 0 <= k < i ==> st[k] == Spot(S, u, d, N, k)
    {
      st[i] := S * Pow(u, N - i) * Pow(d, i);
    }
  }

  /** The payoff at maturity of every terminal spot price, in a new array. */
  method TerminalPayoffs(st: array<real>, K: real, kind: OptionKind) returns (values: array<real>)
    ensures fresh(values) && values.Length == st.Length
    ensures forall i :: 0 <= i < st.Length ==> values[i] == Payoff(kind, st[i], K) && values[i] >= 0.0
  {
    values := new real[st.Length];
    for i := 0 to st.Length
      invariant forall k :: 0 <= k < i ==> values[k] == Payoff(kind, st[k], K)
    {
      match kind
      case Call => values[i] := Max(st[i] - K, 0.0);
      case Put => values[i] := Max(K - st[i], 0.0);
    }
  }

  /**
   * One layer of backward induction: entries 0..j of `values`, which hold
   * layer j + 1, are overwritten in increasing order with layer j. Entry
   * i + 1 is still unread layer j + 1 when entry i is written, and entries
   * beyond j are left alone.
   */
  method BackwardStep(values: array<real>, t: Tree, j: nat)
    requires values.Length == t.N + 1 && j < t.N
    requires forall k :: 0 <= k <= j + 1 ==> values[k] == Value(t, j + 1, k)
    modifies values
    ensures forall k :: 0 <= k <= j ==> values[k] == Value(t, j, k)
    ensures forall k :: 0 <= k <= j && t.american ==> values[k] >= Intrinsic(t.kind, t.SpotAt(j, k), t.K)
    ensures forall k :: j < k < values.Length ==> values[k] == old(values[k])
  {
    for i := 0 to j + 1
      invariant forall k :: 0 <= k < i ==> values[k] == Value(t, j, k)
      invariant forall k :: i <= k < values.Length ==> values[k] == old(values[k])
    {
      var v := Continuation(t.f, values[i], values[i + 1]);
      if t.american {
        var st := Spot(t.S, t.f.u, t.f.d, j, i);
        match t.kind
        case Call => v := Max(v, st - t.K);
        case Put => v := Max(v, t.K - st);
      }
      values[i] := v;
    }
  }

  /**
   * Backward induction over layers N - 1 down to 0. When it ends, entry k
   * holds the value of node (k, k), the last node written in layer k; in
   * particular entry 0 holds the price.
   */
  method BackwardInduction(values: array<real>, t: Tree)
    requires values.Length == t.N + 1
    requires forall k :: 0 <= k <= t.N ==> values[k] == Value(t, t.N, k)
    modifies values
    ensures forall k :: 0 <= k <= t.N ==> values[k] == Value(t, k, k)
  {
    for j := t.N downto 0
      invariant forall k :: 0 <= k <= j ==> values[k] == Value(t, j, k)
      invariant forall k :: j < k <= t.N ==> values[k] == Value(t, k, k)
    {
      BackwardStep(values, t, j);
    }
  }

  /**
   * The pricer. u = exp(sigma * sqrt(T / N)) and g = exp(r * T / N) are
   * given instead of T, r and sigma. A step count below one and an unknown
   * option type are errors; otherwise the result is the lattice price.
   */
  method BinomialOptionPricing(S: real, K: real, N: int, u: real, g: real,
                               optionType: string, american: bool) returns (r: Result<real>)
    requires u > 0.0 && u != 1.0 && g > 0.0
    ensures N < 1 ==> r == Err(StepsNotPositive)
    ensures N >= 1 && optionType != KindName(Call) && optionType != KindName(Put) ==> r == Err(InvalidOptionType)
    ensures N >= 1 && optionType == KindName(Call) ==> r == Ok(Price(Tree(S, K, N, CrrFactors(u, g), Call, american)))
    ensures N >= 1 && optionType == KindName(Put) ==> r == Ok(Price(Tree(S, K, N, CrrFactors(u, g), Put, american)))
    ensures r.Ok? && (1.0 / u <= g <= u || u <= g <= 1.0 / u) ==> r.value >= 0.0
  {
    if N < 1 {
      return Err(StepsNotPositive);
    }
    var f := CrrFactors(u, g);
    var st := TerminalPrices(S, f.u, f.d, N);
    var kind := ParseOptionType(optionType);
    if kind.None? {
      return Err(InvalidOptionType);
    }
    var t := Tree(S, K, N, f, kind.value, american);
    LatticeProperties.CrrNoArbitrageIff(u, g);
    var values := TerminalPayoffs(st, K, t.kind);
    BackwardInduction(values, t);
    return Ok(values[0]);
  }
}
