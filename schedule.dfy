/** What `animate` decides when a transition starts: the next font in
    round-robin order, the transition type by weighted draw, and the
    duration. */
module Schedule {
  import opened Util

  datatype TransitionType = Organic | DistanceField | NoiseField | RippleField

  /** `TRANSITION_TYPES`, in order, and the weights of the draw. */
  const TransitionTypes: seq<TransitionType> := [Organic, DistanceField, NoiseField, RippleField]
  const Weights: seq<real> := [0.4, 0.2, 0.2, 0.2]

  function Name(t: TransitionType): string {
    match t
    case Organic => "organic"
    case DistanceField => "distance_field"
    case NoiseField => "noise_field"
    case RippleField => "ripple_field"
  }

  /** `TRANSITION_TYPES.includes(name)`, returning the type named. */
  function TypeNamed(name: string): (r: Option<TransitionType>)
    ensures r.Some? ==> Name(r.value) == name
    ensures r.None? ==> forall t :: Name(t) != name
  {
    if name == "organic" then Some(Organic)
    else if name == "distance_field" then Some(DistanceField)
    else if name == "noise_field" then Some(NoiseField)
    else if name == "ripple_field" then Some(RippleField)
    else None
  }

  /** Every type is found under its own name. */
  lemma NameRoundTrip(t: TransitionType)
    ensures TypeNamed(Name(t)) == Some(t)
  {
  }

  // ---------------------------------------------------------------------
  // The weighted draw

  /** The sum of the first n weights. */
  function Cumulative(n: nat): real
    requires n <= 4
  {
    if n == 0 then 0.0 else Cumulative(n - 1) + Weights[n - 1]
  }

  /** The first type from index i on whose cumulative weight reaches rand. */
  function FirstWithin(rand: real, i: nat): Option<TransitionType>
    requires i <= 4
    decreases 4 - i
  {
    if i == 4 then None
    else if rand <= Cumulative(i + 1) then Some(TransitionTypes[i])
    else FirstWithin(rand, i + 1)
  }

  /** The type the draw selects: each type owns an interval of the draw as
      long as its weight, in table order; a draw above 1 selects nothing. */
  function StrategyFor(rand: real): (r: Option<TransitionType>)
    ensures r.Some? <==> rand <= 1.0
  {
    assert Cumulative(1) == 0.4 && Cumulative(4) == 1.0;
    FirstWithin(rand, 0)
  }

  /** The intervals of the draw: each type owns an interval as long as its
      weight, in table order; a draw above 1 selects nothing. */
  lemma StrategyIntervals(rand: real)
    ensures StrategyFor(rand) == Some(Organic) <==> rand <= 0.4
    ensures StrategyFor(rand) == Some(DistanceField) <==> 0.4 < rand <= 0.6
    ensures StrategyFor(rand) == Some(NoiseField) <==> 0.6 < rand <= 0.8
    ensures StrategyFor(rand) == Some(RippleField) <==> 0.8 < rand <= 1.0
    ensures StrategyFor(rand) == None <==> rand > 1.0
  {
    assert Cumulative(1) == 0.4 && Cumulative(2) == 0.6 && Cumulative(3) == 0.8 && Cumulative(4) == 1.0;
  }

  /** The loop of the draw: add the weights in order and stop at the first
      cumulative sum that reaches rand. */
  method PickStrategy(rand: real) returns (t: Option<TransitionType>)
    ensures t == StrategyFor(rand)
  {
    var weights := [0.4, 0.2, 0.2, 0.2];
    var cumulative := 0.0;
    t := None;
    var i := 0;
    while i < |weights|
      invariant 0 <= i <= 4 && t == None
      invariant cumulative == Cumulative(i)
      invariant FirstWithin(rand, 0) == FirstWithin(rand, i)
    {
      cumulative := cumulative + weights[i];
      if rand <= cumulative {
        t := Some(TransitionTypes[i]);
        return;
      }
      i := i + 1;
    }
  }

  /** The type a started transition gets, as written: the draw's pick, the
      previous type only when the draw picks nothing, which no draw of at
      most 1 does. */
  function StartStrategyAsWritten(rand: real, current: TransitionType): (t: TransitionType)
    ensures rand <= 1.0 ==> Some(t) == StrategyFor(rand)
    ensures rand > 1.0 ==> t == current
  {
    StrategyIntervals(rand);
    match StrategyFor(rand)
    case Some(t) => t
    case None => current
  }

  /** As written, a type chosen before the start (by `use` or a key) has no
      effect on the transition: for every draw `Math.random` can return the
      result is the same whatever was chosen. */
  lemma ChosenTypeIsDiscarded(rand: real, chosen: TransitionType, other: TransitionType)
    requires 0.0 <= rand < 1.0
    ensures StartStrategyAsWritten(rand, chosen) == StartStrategyAsWritten(rand, other)
  {
    StrategyIntervals(rand);
  }

  /** For instance `use("ripple_field")` followed by a draw of 0.1 starts an
      organic transition. */
  lemma UseRippleThenDraw()
    ensures StartStrategyAsWritten(0.1, RippleField) == Organic
  {
    StrategyIntervals(0.1);
  }

  /** The corrected start: a type chosen by name (`pinned`) is kept for the
      transition it restarts; otherwise the draw decides as before. */
  function StartStrategy(rand: real, current: TransitionType, pinned: bool): (t: TransitionType)
    ensures pinned ==> t == current
    ensures !pinned && rand <= 1.0 ==> Some(t) == StrategyFor(rand)
  {
    if pinned then current else StartStrategyAsWritten(rand, current)
  }

  /** A type chosen by name is kept, and it is the one chosen whatever the
      draw; otherwise every draw `Math.random` can return selects a type,
      and that is the one the transition gets. */
  lemma StartStrategyKeepsChoice(rand: real, current: TransitionType, pinned: bool)
    requires 0.0 <= rand < 1.0
    ensures pinned ==> forall r :: StartStrategy(r, current, pinned) == current
    ensures !pinned ==>
      StartStrategy(rand, current, pinned) ==
        if rand <= 0.4 then Organic else if rand <= 0.6 then DistanceField
        else if rand <= 0.8 then NoiseField else RippleField
  {
    StrategyIntervals(rand);
  }

  /** The start branch's choice of type: the loop of the draw, and the
      previous type when the loop picks nothing. */
  method ChooseStartStrategy(rand: real, current: TransitionType) returns (t: TransitionType)
    ensures t == StartStrategyAsWritten(rand, current)
  {
    var picked := PickStrategy(rand);
    t := if picked.Some? then picked.value else current;
  }

  // ---------------------------------------------------------------------
  // Duration and font order

  /** `TRANSITION_BASE_MS * (0.8 + Math.random() * 0.4)`. */
  function Duration(baseMs: real, rand: real): (d: real)
    ensures baseMs > 0.0 && 0.0 <= rand < 1.0 ==> 0.8 * baseMs <= d < 1.2 * baseMs && d > 0.0
  {
    DurationBounds(baseMs, rand);
    baseMs * (0.8 + rand * 0.4)
  }

  lemma DurationBounds(baseMs: real, rand: real)
    ensures baseMs > 0.0 && 0.0 <= rand < 1.0 ==>
      0.8 * baseMs <= baseMs * (0.8 + rand * 0.4) < 1.2 * baseMs
  {
    if baseMs > 0.0 && 0.0 <= rand < 1.0 {
      MulMonotone(baseMs, 0.8, 0.8 + rand * 0.4);
      assert baseMs * (1.2 - (0.8 + rand * 0.4)) > 0.0;
    }
  }

  /** `(idx + 1) % fonts.length`. */
  function NextIndex(idx: nat, n: nat): (k: nat)
    requires n >= 1
    ensures k < n
  {
    (idx + 1) % n
  }

  /** The index after k transition starts. */
  function Advance(idx: nat, n: nat, k: nat): nat
    requires n >= 1
  {
    if k == 0 then idx else NextIndex(Advance(idx, n, k - 1), n)
  }

  /** From an index in range, one start moves to the next index and wraps
      from the last to the first. */
  lemma NextIndexStep(j: nat, n: nat)
    requires j < n
    ensures NextIndex(j, n) == if j + 1 < n then j + 1 else 0
  {
  }

  /** From an index i in range, k <= n starts reach i + k, wrapped once. */
  lemma {:induction false} AdvanceFrom(i: nat, n: nat, k: nat)
    requires i < n && k <= n
    ensures Advance(i, n, k) == if i + k < n then i + k else i + k - n
  {
    if k > 0 {
      AdvanceFrom(i, n, k - 1);
      var v := Advance(i, n, k - 1);
      NextIndexStep(v, n);
    }
  }

  /** Round robin: from any index in range (every index after the first
      start is), the next n starts choose each of the n fonts. */
  lemma RoundRobinVisitsAll(i: nat, n: nat, j: nat)
    requires i < n && j < n
    ensures exists k :: 1 <= k <= n && Advance(i, n, k) == j
  {
    var k := if j > i then j - i else j + n - i;
    AdvanceFrom(i, n, k);
    assert Advance(i, n, k) == j;
  }

  /** `say` sets the index to n - 2 after appending, so the next start
      chooses the appended font, the last one. */
  lemma SayThenStart(n: nat)
    requires n >= 2
    ensures NextIndex(n - 2, n) == n - 1
  {
  }
}
