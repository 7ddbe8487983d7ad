/* Small arithmetic helpers of libs/useful: the index of the highest set
 * bit of a 32-bit word and the minimum/maximum of two integers.
 */
module Useful {

  datatype Option<T> = None | Some(value: T)

  /** C `int` and `unsigned` ranges. */
  const INT_MIN: int := -0x8000_0000
  const INT_MAX: int := 0x7fff_ffff
  const UINT_MAX: int := 0xffff_ffff

  type Int32 = x: int | INT_MIN <= x <= INT_MAX
  type UInt32 = x: int | 0 <= x <= UINT_MAX

  /** 2^k */
  function Pow2(k: nat): (r: nat)
    ensures r >= 1
  {
    if k == 0 then 1 else 2 * Pow2(k - 1)
  }

  /** n is a power of two. */
  ghost predicate IsPow2(n: int)
  {
    exists k: nat :: n == Pow2(k)
  }

  /** fls32: the index of the highest '1' bit of a 32-bit word.
    * It narrows a window over the word in five steps (16, 8, 4, 2 and 1
    * bits): when the upper part of the current window holds a set bit,
    * r grows by that part's width and the window shifts down.
    * Once the bits above the window are known to be clear, the C mask test
    * `bits & 0xffff0000` (resp. 0xff00, 0xf0, 0xc, 0x2) is the comparison
    * `bits >= 2^w` and `bits >>= w` is `bits / 2^w`; the model states
    * each step that way. Zero has no set bit and yields 0, as 1 does.
    */
  function Fls32(bits: UInt32): (r: nat)
    ensures r <= 31
    ensures bits <= 1 ==> r == 0
  {
    var (r16, b16) := Narrow(0, bits, 16, 0x1_0000);
    var (r8, b8) := Narrow(r16, b16, 8, 0x100);
    var (r4, b4) := Narrow(r8, b8, 4, 0x10);
    var (r2, b2) := Narrow(r4, b4, 2, 4);
    var (r1, _) := Narrow(r2, b2, 1, 2);
    r1
  }

  /** One step of fls32 on window b with count r: if the window holds a
    * set bit at or above position w (p is 2^w), count w and shift the
    * window down by w.
    */
  function Narrow(r: nat, b: nat, w: nat, p: nat): (nat, nat)
    requires p >= 1
  {
    if b >= p then (r + w, b / p) else (r, b)
  }

  /** One narrowing step of fls32 keeps "the word lies in
    * [2^s * b, 2^s * (b + 1))" where s is the count so far and b the window.
    */
  lemma NarrowStep(bits: nat, s: nat, b: nat, w: nat)
    requires Pow2(s) * b <= bits < Pow2(s) * (b + 1)
    requires b >= Pow2(w)
    ensures b / Pow2(w) >= 1
    ensures Pow2(s + w) * (b / Pow2(w)) <= bits < Pow2(s + w) * (b / Pow2(w) + 1)
  {
    Pow2Add(s, w);
    Bracket(bits, Pow2(s), Pow2(w), b);
  }

  /** The arithmetic of one step: with p = 2^s and u = 2^w. */
  lemma Bracket(bits: nat, p: nat, u: nat, b: nat)
    requires p * b <= bits < p * (b + 1)
    requires 1 <= u <= b
    ensures b / u >= 1
    ensures (p * u) * (b / u) <= bits < (p * u) * (b / u + 1)
  {
    var q, m := b / u, b % u;
    assert b == u * q + m && m < u;
    assert q >= 1;
    MulMono(p, u * q, b);
    MulMono(p, b + 1, u * (q + 1));
    MulAssoc(p, u, q);
    MulAssoc(p, u, q + 1);
  }

  lemma MulMono(a: nat, x: nat, y: nat)
    requires x <= y
    ensures a * x <= a * y
  {}

  lemma MulAssoc(a: nat, b: nat, c: nat)
    ensures a * (b * c) == (a * b) * c
  {}

  lemma {:induction false} Pow2Add(a: nat, b: nat)
    ensures Pow2(a + b) == Pow2(a) * Pow2(b)
  {
    if b > 0 {
      Pow2Add(a, b - 1);
      assert Pow2(a + b) == 2 * Pow2(a + b - 1);
    }
  }

  lemma Pow2Table()
    ensures Pow2(1) == 2 && Pow2(2) == 4 && Pow2(3) == 8 && Pow2(4) == 16
    ensures Pow2(5) == 32 && Pow2(8) == 0x100 && Pow2(16) == 0x1_0000
    ensures Pow2(30) == 0x4000_0000 && Pow2(31) == 0x8000_0000
    ensures Pow2(32) == 0x1_0000_0000
  {
    Pow2Add(8, 8);
    Pow2Add(16, 16);
    Pow2Add(16, 14);
    Pow2Add(16, 15);
    Pow2Add(8, 6);
    Pow2Add(8, 7);
  }

  /** 2^a < 2^b whenever a < b. */
  lemma {:induction false} Pow2Monotone(a: nat, b: nat)
    requires a < b
    ensures Pow2(a) < Pow2(b)
  {
    if a + 1 < b {
      Pow2Monotone(a, b - 1);
    }
  }

  /** The word lies in [2^s * b, 2^s * (b + 1)): s bits counted so far,
    * b the window still to be searched.
    */
  ghost predicate Within(bits: nat, s: nat, b: nat)
  {
    Pow2(s) * b <= bits < Pow2(s) * (b + 1)
  }

  /** One conditional step of width w keeps Within and halves the window. */
  lemma {:induction false} StepWithin(bits: nat, s: nat, b: nat, w: nat, p: nat)
    requires p == Pow2(w)
    requires Within(bits, s, b)
    requires 1 <= b < p * p
    ensures Within(bits, Narrow(s, b, w, p).0, Narrow(s, b, w, p).1)
    ensures 1 <= Narrow(s, b, w, p).1 < p
  {
    if b >= Pow2(w) {
      NarrowStep(bits, s, b, w);
      DivBound(b, Pow2(w));
    }
  }

  lemma WithinLast(bits: nat, r: nat, b: nat)
    requires Within(bits, r, b) && 1 <= b < 2
    ensures Pow2(r) <= bits < Pow2(r + 1)
  {
    assert Pow2(r + 1) == 2 * Pow2(r);
  }

  lemma DivBound(b: nat, u: nat)
    requires 1 <= u && b < u * u
    ensures b / u < u
  {
    var q := b / u;
    if q >= u {
      MulMono(u, u, q);
    }
  }

  /** fls32 of a non-zero word is the r with 2^r <= bits < 2^(r+1): the
    * position of its highest set bit.
    */
  lemma Fls32Brackets(bits: UInt32)
    requires bits > 0
    ensures Pow2(Fls32(bits)) <= bits < Pow2(Fls32(bits) + 1)
  {
    Pow2Table();
    assert Within(bits, 0, bits);
    var (r16, b16) := Narrow(0, bits, 16, 0x1_0000);
    StepWithin(bits, 0, bits, 16, 0x1_0000);
    var (r8, b8) := Narrow(r16, b16, 8, 0x100);
    StepWithin(bits, r16, b16, 8, 0x100);
    var (r4, b4) := Narrow(r8, b8, 4, 0x10);
    StepWithin(bits, r8, b8, 4, 0x10);
    var (r2, b2) := Narrow(r4, b4, 2, 4);
    StepWithin(bits, r4, b4, 2, 4);
    var (r1, b1) := Narrow(r2, b2, 1, 2);
    StepWithin(bits, r2, b2, 1, 2);
    WithinLast(bits, r1, b1);
  }

  /** fls32 inverts 2^k on every bit position of a 32-bit word. */
  lemma Fls32OfPow2(k: nat)
    requires k <= 31
    ensures Pow2(k) <= UINT_MAX
    ensures Fls32(Pow2(k)) == k
  {
    Pow2Table();
    if k < 31 {
      Pow2Monotone(k, 31);
    }
    Fls32Brackets(Pow2(k));
    BracketUnique(Pow2(k), Fls32(Pow2(k)), k);
  }

  /** Only one f brackets a power of two 2^k: f == k. */
  lemma BracketUnique(x: nat, f: nat, k: nat)
    requires x == Pow2(k)
    requires Pow2(f) <= x < Pow2(f + 1)
    ensures f == k
  {
    if f < k {
      if f + 1 < k {
        Pow2Monotone(f + 1, k);
      }
    } else if f > k {
      Pow2Monotone(k, f);
    }
  }

  /** imin: the smaller of two ints, x on a tie. */
  function IMin(x: Int32, y: Int32): (r: Int32)
    ensures r == x || r == y
    ensures r <= x && r <= y
    ensures x <= y ==> r == x
  {
    if x <= y then x else y
  }

  /** imax: the larger of two ints, x on a tie. The header's doc comment
    * calls the result "the smallest of the two"; the code returns the
    * largest, which is what is modelled here.
    */
  function IMax(x: Int32, y: Int32): (r: Int32)
    ensures r == x || r == y
    ensures r >= x && r >= y
    ensures x >= y ==> r == x
  {
    if x >= y then x else y
  }

  /** umin: the smaller of two unsigned ints. */
  function UMin(x: UInt32, y: UInt32): (r: UInt32)
    ensures r == x || r == y
    ensures r <= x && r <= y
    ensures x <= y ==> r == x
  {
    if x <= y then x else y
  }

  /** umax: the larger of two unsigned ints (its doc comment, too, says
    * "smallest").
    */
  function UMax(x: UInt32, y: UInt32): (r: UInt32)
    ensures r == x || r == y
    ensures r >= x && r >= y
    ensures x >= y ==> r == x
  {
    if x >= y then x else y
  }
}
