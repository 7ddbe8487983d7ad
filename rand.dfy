/* The repeatable pseudo-random generator of libs/useful: Marsaglia's
 * "xorwow" (Xorshift RNGs, p. 5) over a five-word state.
 *
 * Words are unsigned 32-bit values held as integers in [0, 2^32); the C
 * wrap-around of `+` and `<<` is written out as `% 2^32`, `>>` is division
 * by a power of two and `^` is the bitwise exclusive or defined below.
 */
module Rand {
  import opened Useful

  const WORD: int := 0x1_0000_0000

  /** The increment of the Weyl counter kept in the last state word. */
  const WEYL: UInt32 := 362437

  /** Bitwise exclusive or of two naturals, lowest bit first. */
  function Xor(a: nat, b: nat): nat
    decreases a + b
  {
    if a == 0 && b == 0 then 0
    else 2 * Xor(a / 2, b / 2) + (a % 2 + b % 2) % 2
  }

  /** Exclusive or never sets a bit above the operands' highest one. */
  lemma {:induction false} XorBelow(a: nat, b: nat, n: nat)
    requires a < Pow2(n) && b < Pow2(n)
    ensures Xor(a, b) < Pow2(n)
  {
    if n > 0 && !(a == 0 && b == 0) {
      XorBelow(a / 2, b / 2, n - 1);
    }
  }

  /** `a ^ b` on two 32-bit words. */
  function Xor32(a: UInt32, b: UInt32): (r: UInt32)
  {
    Pow2Table();
    XorBelow(a, b, 32);
    Xor(a, b)
  }

  /** `a + b` on unsigned 32-bit words. */
  function Add32(a: UInt32, b: UInt32): UInt32
  {
    (a + b) % WORD
  }

  /** The state words after `srand(seed)`: word i is seed + i modulo 2^32. */
  function Seeded(seed: UInt32): (s: seq<UInt32>)
    ensures |s| == 5
    ensures forall i :: 0 <= i < 5 ==> s[i] == (seed + i) % WORD
  {
    seq(5, i requires 0 <= i => (seed + i) % WORD)
  }

  /** The xorshift part of one step: old word 3, shifted and mixed, then
    * mixed with old word 0.
    */
  function Mix(s3: UInt32, s0: UInt32): UInt32
  {
    var t := Xor32(s3, s3 / 4);
    var t' := Xor32(t, (t * 2) % WORD);
    Xor32(Xor32(t', s0), (s0 * 16) % WORD)
  }

  /** The state after one `rand` call: a new word 0, words 0..2 moved up
    * into 1..3, and the counter advanced.
    */
  function Step(s: seq<UInt32>): (s': seq<UInt32>)
    requires |s| == 5
    ensures |s'| == 5
    ensures s'[0] == Mix(s[3], s[0])
    ensures s'[1..4] == s[0..3]
    ensures s'[4] == Add32(s[4], WEYL)
  {
    [Mix(s[3], s[0]), s[0], s[1], s[2], Add32(s[4], WEYL)]
  }

  /** The value `rand` returns from state s: the new word 0 plus the new
    * counter, read as a signed 32-bit int.
    */
  function Output(s: seq<UInt32>): (r: Int32)
    requires |s| == 5
    ensures r % WORD == (Step(s)[0] + Step(s)[4]) % WORD
  {
    var u := Add32(Step(s)[0], Step(s)[4]);
    if u <= INT_MAX then u else u - WORD
  }

  /** The state after n calls. */
  function Iterate(s: seq<UInt32>, n: nat): (s': seq<UInt32>)
    requires |s| == 5
    ensures |s'| == 5
  {
    if n == 0 then s else Step(Iterate(s, n - 1))
  }

  /** The n-th value (0-based) drawn after seeding: it depends on the seed
    * and n only, since the generator has no other state.
    */
  function Draw(seed: UInt32, n: nat): Int32
  {
    Output(Iterate(Seeded(seed), n))
  }

  /** The static `state[5]` of rand.c. */
  class Xorwow {
    var state: array<UInt32>

    ghost predicate Valid()
      reads this
    {
      state.Length == 5
    }

    constructor ()
      ensures Valid() && fresh(state)
      ensures state[..] == [0, 0, 0, 0, 0]
    {
      state := new UInt32[5](_ => 0);
    }

    /** srand: word i gets seed + i. */
    method Srand(seed: UInt32)
      requires Valid()
      modifies state
      ensures Valid()
      ensures state[..] == Seeded(seed)
    {
      var i := 0;
      while i < state.Length
        invariant 0 <= i <= 5
        invariant forall j :: 0 <= j < i ==> state[j] == (seed + j) % WORD
      {
        state[i] := (seed + i) % WORD;
        i := i + 1;
      }
    }

    /** rand: one xorwow step, returning the new word 0 plus the new
      * counter.
      */
    method Rand() returns (r: Int32)
      requires Valid()
      modifies state
      ensures Valid()
      ensures state[..] == Step(old(state[..]))
      ensures r == Output(old(state[..]))
    {
      var t := state[3];
      t := Xor32(t, t / 4);
      t := Xor32(t, (t * 2) % WORD);
      state[3] := state[2];
      state[2] := state[1];
      var s := state[0];
      state[1] := s;
      t := Xor32(t, s);
      t := Xor32(t, (s * 16) % WORD);
      state[0] := t;
      state[4] := Add32(state[4], WEYL);
      var u := Add32(t, state[4]);
      r := if u <= INT_MAX then u else u - WORD;
    }

    /** Seeding and then drawing n values yields Draw(seed, 0), ...,
      * Draw(seed, n - 1): the sequence is a function of the seed alone.
      */
    method SeedAndDraw(seed: UInt32, n: nat) returns (out: seq<Int32>)
      requires Valid()
      modifies state
      ensures Valid()
      ensures |out| == n
      ensures forall k :: 0 <= k < n ==> out[k] == Draw(seed, k)
      ensures state[..] == Iterate(Seeded(seed), n)
    {
      Srand(seed);
      out := [];
      var k := 0;
      while k < n
        invariant Valid() && 0 <= k <= n
        invariant |out| == k
        invariant forall j :: 0 <= j < k ==> out[j] == Draw(seed, j)
        invariant state[..] == Iterate(Seeded(seed), k)
      {
        ghost var before := state[..];
        var r := Rand();
        assert r == Draw(seed, k) && state[..] == Iterate(Seeded(seed), k + 1) by {
          assert before == Iterate(Seeded(seed), k);
        }
        out := out + [r];
        k := k + 1;
      }
    }
  }

  /** The counter word moves by 362437 (mod 2^32) per call, whatever the
    * other words hold.
    */
  lemma {:induction false} CounterAdvances(s: seq<UInt32>, n: nat)
    requires |s| == 5
    ensures Iterate(s, n)[4] == (s[4] + n * WEYL) % WORD
  {
    if n > 0 {
      CounterAdvances(s, n - 1);
      ModAdd(s[4] + (n - 1) * WEYL, WEYL);
    }
  }

  lemma ModAdd(x: int, y: int)
    ensures ((x % WORD) + y) % WORD == (x + y) % WORD
  {}

  /** Words 1..3 are a delay line: k calls after s, word k holds s[0]. */
  lemma {:induction false} DelayLine(s: seq<UInt32>)
    requires |s| == 5
    ensures Iterate(s, 1)[1] == s[0]
    ensures Iterate(s, 2)[2] == s[0]
    ensures Iterate(s, 3)[3] == s[0]
  {
    assert Iterate(s, 1) == Step(s);
    assert Iterate(s, 2) == Step(Step(s));
    assert Iterate(s, 3) == Step(Step(Step(s)));
  }
}
