/**
 * The engine's global pseudo-random generator (Turso3D/Math/Random.cpp): an MSVC-style
 * linear congruential generator over an unsigned 32-bit seed that starts at 1.
 */
module Random {

  /** Values of a C++ `unsigned` (32 bits). */
  type uint32 = x: int | 0 <= x < 0x1_0000_0000

  const Multiplier: int := 214013
  const Increment: int := 2531011
  const InitialSeed: uint32 := 1

  /** The seed after one call of `Rand`: the multiply-add wraps around modulo 2^32. */
  function NextSeed(seed: uint32): uint32
  {
    (seed * Multiplier + Increment) % 0x1_0000_0000
  }

  /** The value `Rand` returns once the seed has been advanced to `seed`: bits 16..30 of it. */
  function Output(seed: uint32): (r: int)
    ensures 0 <= r <= 32767
    ensures r * 65536 <= seed % 0x8000_0000 < (r + 1) * 65536
  {
    (seed / 65536) % 32768
  }

  /** The seed after `n` calls of `Rand`. */
  function SeedAfter(seed: uint32, n: nat): uint32
    decreases n
  {
    if n == 0 then seed else SeedAfter(NextSeed(seed), n - 1)
  }

  /** The results of `n` successive calls of `Rand` starting from `seed`. */
  function Outputs(seed: uint32, n: nat): (rs: seq<int>)
    ensures |rs| == n
    ensures forall i :: 0 <= i < n ==> 0 <= rs[i] <= 32767
    decreases n
  {
    if n == 0 then [] else [Output(NextSeed(seed))] + Outputs(NextSeed(seed), n - 1)
  }

  /**
   * Determinism and replay: the first `n + m` results from a seed are the first `n` results
   * followed by what a generator re-seeded with the seed reached after those `n` calls produces.
   */
  lemma {:induction false} OutputsSplit(seed: uint32, n: nat, m: nat)
    ensures Outputs(seed, n + m) == Outputs(seed, n) + Outputs(SeedAfter(seed, n), m)
    decreases n
  {
    if n > 0 {
      OutputsSplit(NextSeed(seed), n - 1, m);
      assert n + m - 1 == (n - 1) + m;
    }
  }

  /** Each result is the output of the seed reached after that many calls. */
  lemma {:induction false} OutputsAt(seed: uint32, n: nat, i: nat)
    requires i < n
    ensures Outputs(seed, n)[i] == Output(SeedAfter(seed, i + 1))
    decreases i
  {
    if i > 0 {
      OutputsAt(NextSeed(seed), n - 1, i - 1);
    }
  }

  /** From the initial seed the generator produces the sequence of the MSVC `rand()`. */
  lemma FirstOutputs()
    ensures Outputs(InitialSeed, 5) == [41, 18467, 6334, 26500, 19169]
  {
    assert NextSeed(1) == 2745024 && Output(2745024) == 41;
    assert NextSeed(2745024) == 3357800067 && Output(3357800067) == 18467;
    assert NextSeed(3357800067) == 415139642 && Output(415139642) == 6334;
    assert NextSeed(415139642) == 3884216597 && Output(3884216597) == 26500;
    assert NextSeed(3884216597) == 3403800452 && Output(3403800452) == 19169;
    assert Outputs(3403800452, 0) == [];
    assert Outputs(3884216597, 1) == [19169];
    assert Outputs(415139642, 2) == [26500, 19169];
    assert Outputs(3357800067, 3) == [6334, 26500, 19169];
    assert Outputs(2745024, 4) == [18467, 6334, 26500, 19169];
  }

  /** The file-static `randomSeed` together with the functions that read and advance it. */
  class Generator {
    var seed: uint32

    constructor ()
      ensures seed == InitialSeed
    {
      seed := InitialSeed;
    }

    method SetRandomSeed(newSeed: uint32)
      modifies this
      ensures RandomSeed() == newSeed
    {
      seed := newSeed;
    }

    function RandomSeed(): uint32
      reads this
    {
      seed
    }

    method Rand() returns (r: int)
      modifies this
      ensures seed == NextSeed(old(seed))
      ensures r == Output(seed) && 0 <= r <= 32767
    {
      seed := (seed * Multiplier + Increment) % 0x1_0000_0000;
      r := (seed / 65536) % 32768;
    }
  }
}
