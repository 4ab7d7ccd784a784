/** The multi-stream Lehmer (Park-Miller) generator of generate.c, reduced
    to its integer state. The three globals of generate.h (`seed`,
    `stream`, `initialized`) become one explicit state record, and each
    operation returns the next state. */
module Lehmer {
  const Modulus: int := 2147483647
  const Multiplier: int := 48271
  const Streams: int := 256
  const JumpMultiplier: int := 22925
  const DefaultSeed: int := 123456789

  /** The largest value a C `int` (and the `long` of a 32-bit platform) holds. */
  const Int32Max: int := 0x7fff_ffff

  datatype Rngs = Rngs(seed: seq<int>, stream: int, initialized: bool)

  /** A seed the generator can work with: a residue other than zero. */
  predicate InRange(s: int)
  {
    1 <= s < Modulus
  }

  /** The states the operations below keep: every stream seeded once the
      seeds are planted, and before that only stream 0 in use. */
  predicate Good(st: Rngs)
  {
    && |st.seed| == Streams
    && 0 <= st.stream < Streams
    && (st.initialized ==> forall j :: 0 <= j < Streams ==> InRange(st.seed[j]))
    && (!st.initialized ==> st.stream == 0 && InRange(st.seed[0]))
  }

  /** The static initial state: seed[0] = DEFAULT and the other streams
      zero, stream 0, not initialised. */
  function Initial(): (st: Rngs)
    ensures Good(st) && st.seed[0] == DefaultSeed && !st.initialized
  {
    Rngs([DefaultSeed] + seq(Streams - 1, _ => 0), 0, false)
  }

  /* ---------------- Schrage's decomposition ---------------- */

  /** One multiplicative step computed as the C code does, without forming
      a * s: with q = M / a and r = M % a,
      t = a * (s % q) - r * (s / q), and M is added when t <= 0. */
  function SchrageStep(a: int, s: int): int
    requires 1 <= a < Modulus && InRange(s)
  {
    var q := Modulus / a;
    var r := Modulus % a;
    var t := a * (s % q) - r * (s / q);
    if t > 0 then t else t + Modulus
  }

  /** For the two multipliers in use, r < q, which is what makes Schrage's
      method work. */
  lemma SchrageConstants()
    ensures Modulus / Multiplier == 44488 && Modulus % Multiplier == 3399
    ensures Modulus / JumpMultiplier == 93674 && Modulus % JumpMultiplier == 7197
  {
  }

  /** With r < q both products of the step lie in [0, M], so t lies in
      [-M, M] and fits a 32-bit signed integer: the computation never
      overflows. */
  lemma SchrageNoOverflow(a: int, s: int)
    requires a == Multiplier || a == JumpMultiplier
    requires InRange(s)
    ensures var q := Modulus / a; var r := Modulus % a;
      && 0 <= a * (s % q) <= Modulus
      && 0 <= r * (s / q) <= Modulus
      && -Int32Max <= a * (s % q) - r * (s / q) <= Int32Max
  {
    SchrageConstants();
  }

  /** The two multipliers have inverses modulo M. */
  lemma Inverses()
    ensures (Multiplier * 1899818559) % Modulus == 1
    ensures (JumpMultiplier * 130394645) % Modulus == 1
  {
  }

  /** No multiple of M lies strictly between 0 and M. */
  lemma MultipleOutside(c: int)
    ensures Modulus * c <= 0 || Modulus * c >= Modulus
  {
    if c >= 1 {
      assert Modulus * c == Modulus + Modulus * (c - 1);
    }
  }

  /** An invertible multiplier never sends a non-zero residue to zero. */
  lemma ProductNonZero(a: int, inv: int, s: int)
    requires 1 <= a < Modulus && (a * inv) % Modulus == 1 && InRange(s)
    ensures (a * s) % Modulus != 0
  {
    var d := (a * s) / Modulus;
    var e := (a * s) % Modulus;
    var m := (a * inv) / Modulus;
    assert a * s == Modulus * d + e;
    assert a * inv == Modulus * m + 1;
    // s = s * (a * inv) - M * m * s = M * (d * inv - m * s) + e * inv
    calc {
      s;
      s * (Modulus * m + 1) - Modulus * (m * s);
      { assert s * (Modulus * m + 1) == s * (a * inv); }
      s * (a * inv) - Modulus * (m * s);
      { assert s * (a * inv) == (a * s) * inv; }
      (a * s) * inv - Modulus * (m * s);
      (Modulus * d + e) * inv - Modulus * (m * s);
      Modulus * (d * inv - m * s) + e * inv;
    }
    MultipleOutside(d * inv - m * s);
    assert e * inv != 0;
  }

  /** Schrage's identity: a * s = M * (s / q) + t, t being the step's
      value before the correction. */
  lemma SchrageSplit(a: int, s: int)
    requires a == Multiplier || a == JumpMultiplier
    requires InRange(s)
    ensures var q := Modulus / a; a * s == Modulus * (s / q) + (a * (s % q) - (Modulus % a) * (s / q))
  {
    var q := Modulus / a;
    var r := Modulus % a;
    assert a * q == Modulus - r by { SchrageConstants(); }
    calc {
      a * s;
      { assert s == q * (s / q) + s % q; }
      a * (q * (s / q) + s % q);
      (a * q) * (s / q) + a * (s % q);
      (Modulus - r) * (s / q) + a * (s % q);
    }
  }

  /** Schrage's step is multiplication modulo M, and the result is again
      a seed in [1, M - 1]. */
  lemma SchrageIsMulMod(a: int, s: int)
    requires a == Multiplier || a == JumpMultiplier
    requires InRange(s)
    ensures SchrageStep(a, s) == (a * s) % Modulus
    ensures InRange(SchrageStep(a, s))
  {
    var q := Modulus / a;
    var t := a * (s % q) - (Modulus % a) * (s / q);
    SchrageSplit(a, s);
    SchrageNoOverflow(a, s);
    Inverses();
    ProductNonZero(a, if a == Multiplier then 1899818559 else 130394645, s);
    ResidueOfStep(a * s, s / q, t, SchrageStep(a, s));
  }

  /** x = M * d + t with t in [-M, M] and x not a multiple of M: adding M
      to t when t <= 0 gives the residue of x, which is not zero. */
  lemma ResidueOfStep(x: int, d: int, t: int, step: int)
    requires x == Modulus * d + t && -Modulus <= t <= Modulus && x % Modulus != 0
    requires step == if t > 0 then t else t + Modulus
    ensures step == x % Modulus && InRange(step)
  {
    if t > 0 {
      assert t != Modulus;
    } else {
      assert t != -Modulus && t != 0;
      assert x == Modulus * (d - 1) + step;
    }
  }

  /** The step with the generator's multiplier. */
  function NextSeed(s: int): (s': int)
    requires InRange(s)
    ensures s' == (Multiplier * s) % Modulus && InRange(s')
  {
    SchrageIsMulMod(Multiplier, s);
    SchrageStep(Multiplier, s)
  }

  /** The jump between consecutive planted streams. */
  function JumpSeed(s: int): (s': int)
    requires InRange(s)
    ensures s' == (JumpMultiplier * s) % Modulus && InRange(s')
  {
    SchrageIsMulMod(JumpMultiplier, s);
    SchrageStep(JumpMultiplier, s)
  }

  /* ---------------- the operations ---------------- */

  /** rng(), integer part: the seed of the current stream is multiplied by
      48271 modulo M; every other stream, the stream index and the
      initialised flag stay as they were. */
  function Rng(st: Rngs): (st': Rngs)
    requires Good(st)
    ensures Good(st')
    ensures st'.stream == st.stream && st'.initialized == st.initialized
    ensures |st'.seed| == |st.seed|
    ensures st'.seed[st.stream] == (Multiplier * st.seed[st.stream]) % Modulus
    ensures forall j :: 0 <= j < |st.seed| && j != st.stream ==> st'.seed[j] == st.seed[j]
  {
    st.(seed := st.seed[st.stream := NextSeed(st.seed[st.stream])])
  }

  /** get_seed(): the seed of the current stream, always a valid state of
      the generator. */
  function GetSeed(st: Rngs): (s: int)
    requires Good(st)
    ensures InRange(s)
  {
    st.seed[st.stream]
  }

  /** put_seed(x) for x > 0 whose residue is not zero: the current stream
      gets x mod M and nothing else changes. */
  function PutSeed(st: Rngs, x: int): (st': Rngs)
    requires Good(st) && x > 0 && x % Modulus != 0
    ensures Good(st')
    ensures st'.stream == st.stream && st'.initialized == st.initialized
    ensures |st'.seed| == |st.seed| && st'.seed[st.stream] == x % Modulus
    ensures forall j :: 0 <= j < |st.seed| && j != st.stream ==> st'.seed[j] == st.seed[j]
  {
    st.(seed := st.seed[st.stream := x % Modulus])
  }

  /** What put_seed stores, get_seed returns. */
  lemma GetAfterPut(st: Rngs, x: int)
    requires Good(st) && x > 0 && x % Modulus != 0
    ensures GetSeed(PutSeed(st, x)) == x % Modulus
    ensures 0 < x < Modulus ==> GetSeed(PutSeed(st, x)) == x
  {
  }

  /** A seed followed by rng() reads back as the seed times 48271 mod M. */
  lemma GetAfterRng(st: Rngs)
    requires Good(st)
    ensures GetSeed(Rng(st)) == (Multiplier * GetSeed(st)) % Modulus
    ensures InRange(GetSeed(Rng(st)))
  {
  }

  /** plant_seeds(x) for x > 0 whose residue is not zero: seed[0] is
      x mod M and every further stream is the previous one times 22925
      mod M; the flag is set and the stream index kept. */
  method PlantSeeds(st: Rngs, x: int) returns (st': Rngs)
    requires |st.seed| == Streams && 0 <= st.stream < Streams
    requires x > 0 && x % Modulus != 0
    ensures Good(st')
    ensures st'.initialized && st'.stream == st.stream
    ensures |st'.seed| == Streams && st'.seed[0] == x % Modulus
    ensures forall j :: 1 <= j < Streams ==> st'.seed[j] == (JumpMultiplier * st'.seed[j - 1]) % Modulus
  {
    var seed := st.seed[0 := x % Modulus];
    var j := 1;
    while j < Streams
      invariant 1 <= j <= Streams && |seed| == Streams
      invariant seed[0] == x % Modulus
      invariant forall k :: 0 <= k < j ==> InRange(seed[k])
      invariant forall k :: 1 <= k < j ==> seed[k] == (JumpMultiplier * seed[k - 1]) % Modulus
    {
      seed := seed[j := JumpSeed(seed[j - 1])];
      j := j + 1;
    }
    st' := Rngs(seed, st.stream, true);
  }

  /** The C cast `(unsigned int)index` of a 32-bit int. */
  function UnsignedCast(index: int): (u: int)
    requires -Int32Max - 1 <= index <= Int32Max
    ensures 0 <= u < 0x1_0000_0000 && (u - index) % 0x1_0000_0000 == 0
  {
    if index < 0 then index + 0x1_0000_0000 else index
  }

  /** select_stream(index): the stream becomes (unsigned)index mod 256,
      which is index mod 256; switching to a stream other than 0 before
      any planting first plants DEFAULT. */
  method SelectStream(st: Rngs, index: int) returns (st': Rngs)
    requires Good(st) && -Int32Max - 1 <= index <= Int32Max
    ensures Good(st')
    ensures st'.stream == index % Streams
    ensures st'.initialized == (st.initialized || index % Streams != 0)
    ensures st.initialized || index % Streams == 0 ==> st'.seed == st.seed
    ensures !st.initialized && index % Streams != 0 ==>
      && st'.seed[0] == DefaultSeed
      && forall j :: 1 <= j < Streams ==> st'.seed[j] == (JumpMultiplier * st'.seed[j - 1]) % Modulus
  {
    var stream := UnsignedCast(index) % Streams;
    assert stream == index % Streams;
    st' := st.(stream := stream);
    if !st.initialized && stream != 0 {
      st' := PlantSeeds(st', DefaultSeed);
    }
  }
}
