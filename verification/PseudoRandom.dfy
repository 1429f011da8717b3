/** The linear congruential generator that picks the files to delete, and its exact orbit from state 0. */
module PseudoRandom {
  import opened Words
  import opened Modular
  import Orbit

  const FACTOR: u32 := 0x973a5f
  const SUMMAND: u32 := 0x84a

  function Next(state: u32): u32 {
    Wrap(state * FACTOR + SUMMAND)
  }

  /** The state after a number of draws from the initial state 0. */
  function StateAfter(draws: nat): u32 {
    if draws == 0 then 0 else Next(StateAfter(draws - 1))
  }

  class Generator {
    var state: u32

    constructor ()
      ensures state == 0
    {
      state := 0;
    }

    method Draw(max: u32) returns (i: u32)
      requires max > 0
      modifies this
      ensures state == Next(old(state))
      ensures i == state % max
    {
      state := Wrap(state * FACTOR + SUMMAND);
      i := state % max;
    }
  }

  /** The number of draws after which the states repeat: 2^27. */
  const PERIOD: nat := 0x800_0000
  const HALF_PERIOD: nat := 0x400_0000

  /** Every second state, divided by 64, runs through an affine orbit modulo 2^26. */
  const EVEN_INCREMENT: int := 328607615
  const ODD_START: int := 33
  const ODD_INCREMENT: int := 15348066506465

  lemma HalfPeriodIsPow2()
    ensures Orbit.Pow2(26) == HALF_PERIOD
  {
    assert Orbit.Pow2(13) == 8192;
    assert Orbit.Pow2(20) == 1048576;
  }

  lemma WrapScaled(w: int, d: int)
    requires 0 <= d < 64
    ensures Wrap(64 * w + d) == 64 * (w % HALF_PERIOD) + d
  {
    assert w == HALF_PERIOD * (w / HALF_PERIOD) + w % HALF_PERIOD;
  }

  lemma TwoDraws(s: u32)
    ensures Next(Next(s)) == Wrap(Orbit.MULTIPLIER * s + SUMMAND * (FACTOR + 1))
  {
    AffineMod(FACTOR, FACTOR * s + SUMMAND, SUMMAND, MODULUS);
  }

  /** Two draws move the quotient by 64 one place along its orbit, in both residue classes. */
  lemma TwoDrawsScaled(v: int, odd: bool)
    ensures var d := if odd then 10 else 0;
      var increment := if odd then ODD_INCREMENT else EVEN_INCREMENT;
      Next(Next(64 * (v % HALF_PERIOD) + d)) == 64 * ((Orbit.MULTIPLIER * v + increment) % HALF_PERIOD) + d
  {
    var d := if odd then 10 else 0;
    var increment := if odd then ODD_INCREMENT else EVEN_INCREMENT;
    var t := v % HALF_PERIOD;
    TwoDraws(64 * t + d);
    WrapScaled(Orbit.MULTIPLIER * t + increment, d);
    AffineMod(Orbit.MULTIPLIER, v, increment, HALF_PERIOD);
  }

  function Quotient(k: nat, odd: bool): int {
    if odd then Orbit.At(ODD_START, ODD_INCREMENT, k) else Orbit.At(0, EVEN_INCREMENT, k)
  }

  /** The closed form of the state: 64 times an orbit element, plus 0 or 10 by the parity of the draw count. */
  lemma {:induction false} StateForm(k: nat, odd: bool)
    ensures StateAfter(2 * k + if odd then 1 else 0)
         == 64 * (Quotient(k, odd) % HALF_PERIOD) + if odd then 10 else 0
  {
    if k == 0 {
      assert StateAfter(1) == Next(StateAfter(0));
    } else {
      StateForm(k - 1, odd);
      TwoDrawsScaled(Quotient(k - 1, odd), odd);
      var before := 2 * (k - 1) + if odd then 1 else 0;
      assert StateAfter(before + 2) == Next(Next(StateAfter(before)));
    }
  }

  /** The states the generator can be in. */
  predicate OnOrbit(s: int) {
    s % 64 == 0 || s % 64 == 10
  }

  lemma ScaledState(t: nat, d: nat)
    requires t < HALF_PERIOD && (d == 0 || d == 10)
    ensures 64 * t + d < MODULUS && (64 * t + d) % 64 == d && OnOrbit(64 * t + d)
  {
  }

  lemma StateClass(draws: nat)
    ensures StateAfter(draws) % 64 == if draws % 2 == 0 then 0 else 10
  {
    var k, odd := draws / 2, draws % 2 == 1;
    StateForm(k, odd);
    ScaledState(Quotient(k, odd) % HALF_PERIOD, if odd then 10 else 0);
  }

  /** The one draw among the first PERIOD that produces the state s. */
  lemma DrawOf(s: u32) returns (draw: nat)
    requires OnOrbit(s)
    ensures 1 <= draw <= PERIOD && StateAfter(draw) == s
  {
    var odd := s % 64 == 10;
    var k := PlaceOfQuotient(s / 64, odd);
    StateForm(k, odd);
    if odd {
      draw := 2 * k + 1;
    } else if k > 0 {
      draw := 2 * k;
    } else {
      StateRepeats(2 * k);
      draw := 2 * k + PERIOD;
    }
  }

  lemma PlaceOfQuotient(t: nat, odd: bool) returns (k: nat)
    requires t < HALF_PERIOD
    ensures k < HALF_PERIOD && Quotient(k, odd) % HALF_PERIOD == t
  {
    HalfPeriodIsPow2();
    if odd {
      k := Orbit.PlaceOf(ODD_START, ODD_INCREMENT, 26, t);
    } else {
      k := Orbit.PlaceOf(0, EVEN_INCREMENT, 26, t);
    }
  }

  lemma QuotientRepeats(k: nat, odd: bool)
    ensures Quotient(k + HALF_PERIOD, odd) % HALF_PERIOD == Quotient(k, odd) % HALF_PERIOD
  {
    HalfPeriodIsPow2();
    if odd {
      Orbit.Repeats(ODD_START, ODD_INCREMENT, 26, k);
    } else {
      Orbit.Repeats(0, EVEN_INCREMENT, 26, k);
    }
  }

  lemma QuotientDistinct(i: nat, j: nat, odd: bool)
    requires i < HALF_PERIOD && j < HALF_PERIOD
    requires Quotient(i, odd) % HALF_PERIOD == Quotient(j, odd) % HALF_PERIOD
    ensures i == j
  {
    HalfPeriodIsPow2();
    if odd {
      Orbit.NoEarlyRepeat(ODD_START, ODD_INCREMENT, 26, i, j);
    } else {
      Orbit.NoEarlyRepeat(0, EVEN_INCREMENT, 26, i, j);
    }
  }

  lemma StateRepeats(draws: nat)
    ensures StateAfter(draws + PERIOD) == StateAfter(draws)
  {
    var k, odd := draws / 2, draws % 2 == 1;
    StateForm(k, odd);
    var k' := k + HALF_PERIOD;
    StateForm(k', odd);
    QuotientRepeats(k, odd);
    assert 2 * k' + (if odd then 1 else 0) == draws + PERIOD;
  }

  lemma {:induction false} StateModPeriod(draws: nat)
    ensures StateAfter(draws) == StateAfter(draws % PERIOD)
  {
    if draws >= PERIOD {
      StateRepeats(draws - PERIOD);
      ModAddMultiple(draws - PERIOD, PERIOD, 1);
      StateModPeriod(draws - PERIOD);
    }
  }

  /** Two draws give the same state exactly when their numbers differ by a multiple of the period. */
  lemma SameStateIff(i: nat, j: nat)
    ensures StateAfter(i) == StateAfter(j) <==> i % PERIOD == j % PERIOD
  {
    StateModPeriod(i);
    StateModPeriod(j);
    if StateAfter(i) == StateAfter(j) {
      var i', j' := i % PERIOD, j % PERIOD;
      StateClass(i');
      StateClass(j');
      var odd := i' % 2 == 1;
      StateForm(i' / 2, odd);
      StateForm(j' / 2, odd);
      QuotientDistinct(i' / 2, j' / 2, odd);
    }
  }

  /** From state 0 the generator reaches exactly the states that are 0 or 10 modulo 64. */
  lemma StatesReached(s: u32)
    ensures OnOrbit(s) <==> exists draw :: 1 <= draw <= PERIOD && StateAfter(draw) == s
    ensures OnOrbit(s) <==> exists draw: nat :: StateAfter(draw) == s
  {
    if OnOrbit(s) {
      var draw := DrawOf(s);
    }
    forall draw: nat | StateAfter(draw) == s
      ensures OnOrbit(s)
    {
      StateClass(draw);
    }
  }

  /** Any PERIOD consecutive draws visit a reachable state exactly once. */
  lemma OncePerPeriod(s: u32, from: nat)
    requires OnOrbit(s)
    ensures exists draw :: from < draw <= from + PERIOD && StateAfter(draw) == s
    ensures forall i, j :: (from < i <= from + PERIOD && from < j <= from + PERIOD
                            && StateAfter(i) == s && StateAfter(j) == s) ==> i == j
  {
    var draw := NextDrawOf(s, from);
    forall i, j | from < i <= from + PERIOD && from < j <= from + PERIOD
      && StateAfter(i) == s && StateAfter(j) == s
      ensures i == j
    {
      SameStateIff(i, j);
      CloseResidues(i, j, PERIOD);
    }
  }

  lemma NextDrawOf(s: u32, from: nat) returns (draw: nat)
    requires OnOrbit(s)
    ensures from < draw <= from + PERIOD && StateAfter(draw) == s
  {
    var d := DrawOf(s);
    draw := from + 1 + (d - from - 1) % PERIOD;
    ShiftedMod(d, from + 1, PERIOD);
    SameStateIff(draw, d);
  }
}
