/**
 The engine's seeded random number generator: a 32-bit xorshift whose state
 is the `seed` field. JavaScript's bitwise operators work on the 32-bit
 pattern of a number, so the state is modelled as `bv32`; a signed and an
 unsigned reading of the same pattern are the same `bv32` value.
 */
module Random {
  import Scalar

  const TwoTo32: real := 4294967296.0

  datatype RandomGenerator = RandomGenerator(seed: bv32)

  /** The constructor: a whole-number seed is reduced to its 32-bit pattern,
      as the first shift of `float` does. */
  function Seeded(seed: int): (g: RandomGenerator)
    ensures seed == 0 ==> g.seed == 0
  {
    RandomGenerator((seed % 0x1_0000_0000) as bv32)
  }

  /** Only the 32-bit pattern of the seed matters: seeds a multiple of 2^32
      apart give the same generator. */
  lemma SeededPeriodic(seed: int, k: int)
    ensures Seeded(seed + k * 0x1_0000_0000) == Seeded(seed)
  {
    assert (seed + k * 0x1_0000_0000) % 0x1_0000_0000 == seed % 0x1_0000_0000;
  }

  /** One xorshift step: shifts 13 left, 17 right (unsigned), 5 left. */
  function Xorshift(s: bv32): bv32 {
    XorLeft5(XorRight17(XorLeft13(s)))
  }

  function XorLeft13(s: bv32): bv32 { s ^ (s << 13) }
  function XorRight17(s: bv32): bv32 { s ^ (s >> 17) }
  function XorLeft5(s: bv32): bv32 { s ^ (s << 5) }

  /** Undoes `Xorshift`, stage by stage in reverse order. */
  function Unshift(t: bv32): bv32 {
    UndoLeft13(UndoRight17(UndoLeft5(t)))
  }

  function UndoLeft13(t: bv32): bv32 { t ^ (t << 13) ^ (t << 26) }
  function UndoRight17(t: bv32): bv32 { t ^ (t >> 17) }
  function UndoLeft5(t: bv32): bv32 {
    t ^ (t << 5) ^ (t << 10) ^ (t << 15) ^ (t << 20) ^ (t << 25) ^ (t << 30)
  }

  /** The unsigned reading `seed >>> 0` as a fraction of 2^32. */
  function Unit(s: bv32): (u: real)
    ensures 0.0 <= u < 1.0
  {
    (s as int) as real / TwoTo32
  }

  /** `float(valueA, valueB)`: advances the seed once and returns a value
      between `valueB` (inclusive) and `valueA` (exclusive when valueA
      differs from valueB). */
  function Float(g: RandomGenerator, valueA: real, valueB: real): (r: (real, RandomGenerator))
    ensures r.1.seed == Xorshift(g.seed)
    ensures valueA > valueB ==> valueB <= r.0 < valueA
    ensures valueA < valueB ==> valueA < r.0 <= valueB
    ensures valueA == valueB ==> r.0 == valueB
  {
    var next := Xorshift(g.seed);
    (Spread(Unit(next), valueA, valueB), RandomGenerator(next))
  }

  /** Maps a fraction in [0, 1) onto the range from valueB toward valueA. */
  function Spread(u: real, valueA: real, valueB: real): (r: real)
    requires 0.0 <= u < 1.0
    ensures valueA > valueB ==> valueB <= r < valueA
    ensures valueA < valueB ==> valueA < r <= valueB
    ensures valueA == valueB ==> r == valueB
  {
    var span := valueA - valueB;
    var step := span * u;
    Scaled(u, span, step);
    valueB + step
  }

  lemma Scaled(u: real, span: real, step: real)
    requires 0.0 <= u < 1.0 && step == span * u
    ensures span > 0.0 ==> 0.0 <= step < span
    ensures span < 0.0 ==> span < step <= 0.0
  {
    var w := u - 1.0;
    Scalar.MulSigns(span, u);
    Scalar.MulSigns(span, w);
    assert step - span == span * w by {
      assert span * w == span * u - span * 1.0;
    }
  }

  /** `int(valueA, valueB)`: the floor of `float`. */
  function Int(g: RandomGenerator, valueA: real, valueB: real): (r: (int, RandomGenerator))
    ensures r.1.seed == Xorshift(g.seed)
    ensures valueA > valueB ==> valueB.Floor <= r.0 && (r.0 as real) < valueA
    ensures valueA < valueB ==> valueA.Floor <= r.0 && (r.0 as real) <= valueB
    ensures valueA == valueB ==> r.0 == valueB.Floor
  {
    var (f, next) := Float(g, valueA, valueB);
    (f.Floor, next)
  }

  /** `sign()`: 1 when the default-range float exceeds one half, else -1. */
  function RandSign(g: RandomGenerator): (r: (int, RandomGenerator))
    ensures r.0 == 1 || r.0 == -1
    ensures r.1.seed == Xorshift(g.seed)
    ensures r.0 == 1 <==> Unit(Xorshift(g.seed)) > 0.5
  {
    var (f, next) := Float(g, 1.0, 0.0);
    (if f > 0.5 then 1 else -1, next)
  }

  /** The xorshift step loses no information: `Unshift` recovers the seed,
      so distinct seeds produce distinct successors. */
  lemma XorshiftInvertible(s: bv32)
    ensures Unshift(Xorshift(s)) == s
  {
    var a := XorLeft13(s);
    var b := XorRight17(a);
    UndoLeft5Inverts(b);
    UndoRight17Inverts(a);
    UndoLeft13Inverts(s);
  }

  // Each stage is undone by its partner. The stage identities are stated on
  // the written-out expressions, where the solver's bit-vector rewriting
  // settles them, and then transferred to the named functions.

  lemma UndoLeft13Inverts(s: bv32) ensures UndoLeft13(XorLeft13(s)) == s {
    Left13Identity(s);
    assert XorLeft13(s) == s ^ (s << 13);
  }

  lemma UndoRight17Inverts(s: bv32) ensures UndoRight17(XorRight17(s)) == s {
    Right17Identity(s);
    assert XorRight17(s) == s ^ (s >> 17);
  }

  lemma UndoLeft5Inverts(s: bv32) ensures UndoLeft5(XorLeft5(s)) == s {
    Left5Identity(s);
    assert XorLeft5(s) == s ^ (s << 5);
  }

  lemma Left13Identity(s: bv32)
    ensures var t := s ^ (s << 13); UndoLeft13(t) == s
  {
    Left13Written(s);
  }

  lemma Left13Written(s: bv32)
    ensures var t := s ^ (s << 13); t ^ (t << 13) ^ (t << 26) == s
  {
  }

  lemma Right17Identity(s: bv32)
    ensures var t := s ^ (s >> 17); UndoRight17(t) == s
  {
    Right17Written(s);
  }

  lemma Right17Written(s: bv32)
    ensures var t := s ^ (s >> 17); t ^ (t >> 17) == s
  {
  }

  lemma Left5Identity(s: bv32)
    ensures var t := s ^ (s << 5); UndoLeft5(t) == s
  {
    Left5Written(s);
  }

  lemma Left5Written(s: bv32)
    ensures var t := s ^ (s << 5);
      t ^ (t << 5) ^ (t << 10) ^ (t << 15) ^ (t << 20) ^ (t << 25) ^ (t << 30) == s
  {
  }

  lemma XorshiftInjective(s: bv32, t: bv32)
    requires s != t
    ensures Xorshift(s) != Xorshift(t)
  {
    XorshiftInvertible(s);
    XorshiftInvertible(t);
  }

  /** The all-zero seed is the xorshift's only fixed point at zero: a zero
      seed stays zero and every other seed never reaches zero. */
  lemma ZeroSeedIsStuck(s: bv32)
    ensures Xorshift(s) == 0 <==> s == 0
  {
    XorshiftInvertible(s);
  }

  /** So a generator seeded with 0 returns `valueB` from every `float`
      and never moves on. */
  lemma ZeroSeedFloat(valueA: real, valueB: real)
    ensures Float(Seeded(0), valueA, valueB) == (valueB, Seeded(0))
  {
    ZeroSeedIsStuck(0);
  }
}
