/** The engine's deterministic random number generator: a 32-bit linear
    congruential generator with the Numerical Recipes constants, seeded from a
    string (the wrapping sum of its UTF-16 code units) or from a number. */
module Random {
  import opened Int32

  const Multiplier: int := 1664525
  const Increment: int := 1013904223

  /** One UTF-16 code unit, as `charCodeAt` returns it. */
  type CodeUnit = c: int | 0 <= c < 0x1_0000

  /** A seed is either a string (its code units) or an integer. */
  datatype Seed = Text(units: seq<CodeUnit>) | Number(n: int)

  /** The plain, unbounded sum of the code units. */
  function CodeSum(units: seq<CodeUnit>): int
  {
    if units == [] then 0 else CodeSum(units[..|units| - 1]) + units[|units| - 1]
  }

  /** The generator's internal state right after seeding. */
  function InitialState(seed: Seed): (s: int)
    ensures IsInt32(s)
  {
    match seed
    case Text(units) => ToInt32(CodeSum(units))
    case Number(n) => ToInt32(n)
  }

  /** Seeding: a string seed is summed code unit by code unit, left to right,
      wrapping to 32 bits after every addition; a number seed is `seed | 0`.
      The result is the 32-bit wrap of the whole sum. */
  method SeedState(seed: Seed) returns (s: int)
    ensures IsInt32(s)
    ensures seed.Text? ==> s == ToInt32(CodeSum(seed.units))
    ensures seed.Number? ==> s == ToInt32(seed.n)
  {
    match seed
    case Text(units) =>
      s := 0;
      for i := 0 to |units|
        invariant s == ToInt32(CodeSum(units[..i]))
      {
        assert units[..i + 1][..i] == units[..i];
        ToInt32AddWrapped(CodeSum(units[..i]), units[i]);
        s := ToInt32(s + units[i]);
      }
      assert units[..|units|] == units;
    case Number(n) =>
      s := ToInt32(n);
  }

  /** Two string seeds whose code sums agree modulo 2^32 seed the same state,
      and so produce the same sequence. */
  lemma TextSeedsCollide(a: seq<CodeUnit>, b: seq<CodeUnit>)
    requires (CodeSum(a) - CodeSum(b)) % Pow32 == 0
    ensures InitialState(Text(a)) == InitialState(Text(b))
  {
    ToInt32Congruent(CodeSum(a), CodeSum(b));
  }

  /** One draw's state update: `s = (Math.imul(1664525, s) + 1013904223) | 0`. */
  function Step(s: int): (t: int)
    ensures IsInt32(t)
  {
    ToInt32(Imul(Multiplier, s) + Increment)
  }

  /** Wrapping the product and then the sum equals the affine step taken
      modulo 2^32 and read as a signed 32-bit integer. */
  lemma StepIsAffine(s: int)
    ensures Step(s) == ToInt32(Multiplier * s + Increment)
  {
    ToInt32AddWrapped(Multiplier * s, Increment);
  }

  /** The value a draw returns once the state is s: `(s >>> 0) / 2^32`. */
  function Output(s: int): (x: real)
    ensures 0.0 <= x < 1.0
  {
    ToUint32(s) as real / Pow32 as real
  }

  /** The state after n draws. */
  function Advance(s: int, n: nat): (t: int)
    decreases n
  {
    if n == 0 then s else Advance(Step(s), n - 1)
  }

  /** The values of the next n draws from state s. */
  function Draws(s: int, n: nat): (xs: seq<real>)
    ensures |xs| == n
    ensures forall i :: 0 <= i < n ==> 0.0 <= xs[i] < 1.0
    decreases n
  {
    if n == 0 then [] else [Output(Step(s))] + Draws(Step(s), n - 1)
  }

  /** Drawing a + b values is drawing a values and then b more from where
      those left the state. */
  lemma {:induction false} DrawsSplit(s: int, a: nat, b: nat)
    ensures Draws(s, a + b) == Draws(s, a) + Draws(Advance(s, a), b)
    decreases a
  {
    if a > 0 {
      DrawsSplit(Step(s), a - 1, b);
    }
  }

  /** `setState(state())` changes no future draw. */
  lemma RestoreOwnState(s: int, n: nat)
    requires IsInt32(s)
    ensures Draws(ToInt32(s), n) == Draws(s, n)
  {
    ToInt32Fixed(s);
  }

  /** The generator returned by `seedRng`: the closure variable s and the
      operations the closure exposes. */
  class Generator {
    var s: int

    ghost predicate Valid()
      reads this
    {
      IsInt32(s)
    }

    /** `seedRng(seed)` */
    constructor (seed: Seed)
      ensures Valid() && s == InitialState(seed)
    {
      var t := SeedState(seed);
      s := t;
    }

    /** Calling the generator: advance the state, return a value in [0, 1). */
    method Next() returns (x: real)
      modifies this
      ensures Valid() && s == Step(old(s))
      ensures x == Output(s) && 0.0 <= x < 1.0
      ensures [x] == Draws(old(s), 1)
    {
      s := ToInt32(Imul(Multiplier, s) + Increment);
      x := ToUint32(s) as real / Pow32 as real;
    }

    /** `rng.state()` */
    function State(): (n: int)
      reads this
      requires Valid()
      ensures IsInt32(n)
    {
      s
    }

    /** `rng.setState(n)`: the state becomes `n | 0`. */
    method SetState(n: int)
      modifies this
      ensures Valid() && s == ToInt32(n)
    {
      s := ToInt32(n);
    }
  }

  /** Two generators seeded with the same value and called n times each
      return the same n values, which are the draws from the seeded state. */
  method DrawTwins(seed: Seed, n: nat) returns (xs: seq<real>, ys: seq<real>)
    ensures xs == ys == Draws(InitialState(seed), n)
  {
    var g := new Generator(seed);
    var h := new Generator(seed);
    xs, ys := [], [];
    for i := 0 to n
      invariant g.Valid() && h.Valid() && g != h
      invariant g.s == h.s == Advance(InitialState(seed), i)
      invariant xs == ys == Draws(InitialState(seed), i)
    {
      DrawsSplit(InitialState(seed), i, 1);
      var x := g.Next();
      var y := h.Next();
      xs, ys := xs + [x], ys + [y];
      AdvanceSnoc(InitialState(seed), i);
    }
  }

  lemma {:induction false} AdvanceSnoc(s: int, n: nat)
    ensures Advance(s, n + 1) == Step(Advance(s, n))
    decreases n
  {
    if n > 0 {
      AdvanceSnoc(Step(s), n - 1);
    }
  }
}
