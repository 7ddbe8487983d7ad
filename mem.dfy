/* The C library memory primitives the core relies on (memmove, memcpy,
 * memchr, memcmp, strlen), over blocks modelled as Dafny arrays.
 */
module Mem {

  /** An unsigned C char. */
  type Byte = c: char | c as int < 256 witness '\0'

  const NUL: Byte := '\0'

  /** memmove: copy n elements of a from src to dst; the ranges may
    * overlap, and the result is as if the source were read first.
    */
  method Move<T>(a: array<T>, dst: nat, src: nat, n: nat)
    requires src + n <= a.Length && dst + n <= a.Length
    modifies a
    ensures forall k :: 0 <= k < a.Length ==>
      a[k] == if dst <= k < dst + n then old(a[src + k - dst]) else old(a[k])
  {
    if dst <= src {
      var i := 0;
      while i < n
        invariant 0 <= i <= n
        invariant forall k :: 0 <= k < a.Length ==>
          a[k] == if dst <= k < dst + i then old(a[src + k - dst]) else old(a[k])
      {
        a[dst + i] := a[src + i];
        i := i + 1;
      }
    } else {
      var i := n;
      while i > 0
        invariant 0 <= i <= n
        invariant forall k :: 0 <= k < a.Length ==>
          a[k] == if dst + i <= k < dst + n then old(a[src + k - dst]) else old(a[k])
      {
        i := i - 1;
        a[dst + i] := a[src + i];
      }
    }
  }

  /** memcpy between two distinct blocks. */
  method Copy<T>(dst: array<T>, d: nat, src: array<T>, s: nat, n: nat)
    requires dst != src
    requires d + n <= dst.Length && s + n <= src.Length
    modifies dst
    ensures dst[..d] == old(dst[..d])
    ensures dst[d..d + n] == src[s..s + n]
    ensures dst[d + n..] == old(dst[d + n..])
  {
    var i := 0;
    while i < n
      invariant 0 <= i <= n
      invariant forall k :: 0 <= k < dst.Length ==>
        dst[k] == if d <= k < d + i then src[s + k - d] else old(dst[k])
    {
      dst[d + i] := src[s + i];
      i := i + 1;
    }
    assert dst[d..d + n] == src[s..s + n];
  }

  /** memchr over a[from .. from + n): the first position holding c. */
  method Chr(a: array<Byte>, from: nat, n: nat, c: Byte) returns (found: bool, k: nat)
    requires from + n <= a.Length
    ensures found ==> from <= k < from + n && a[k] == c
    ensures found ==> forall j :: from <= j < k ==> a[j] != c
    ensures !found ==> forall j :: from <= j < from + n ==> a[j] != c
  {
    k := from;
    while k < from + n
      invariant from <= k <= from + n
      invariant forall j :: from <= j < k ==> a[j] != c
    {
      if a[k] == c {
        return true, k;
      }
      k := k + 1;
    }
    return false, 0;
  }

  /** memcmp over the first n bytes: the difference of the first pair of
    * unsigned bytes that differ, or 0.
    */
  function Cmp(a: seq<Byte>, b: seq<Byte>, n: nat): int
    requires n <= |a| && n <= |b|
  {
    if n == 0 then 0
    else if a[0] != b[0] then a[0] as int - b[0] as int
    else Cmp(a[1..], b[1..], n - 1)
  }

  /** memcmp is zero exactly on equal prefixes. */
  lemma {:induction false} CmpZero(a: seq<Byte>, b: seq<Byte>, n: nat)
    requires n <= |a| && n <= |b|
    ensures Cmp(a, b, n) == 0 <==> a[..n] == b[..n]
  {
    if n > 0 {
      CmpZero(a[1..], b[1..], n - 1);
      assert a[..n] == [a[0]] + a[1..][..n - 1];
      assert b[..n] == [b[0]] + b[1..][..n - 1];
    }
  }

  /** Swapping the operands of memcmp negates it. */
  lemma {:induction false} CmpAntisymmetric(a: seq<Byte>, b: seq<Byte>, n: nat)
    requires n <= |a| && n <= |b|
    ensures Cmp(b, a, n) == -Cmp(a, b, n)
  {
    if n > 0 && a[0] == b[0] {
      CmpAntisymmetric(a[1..], b[1..], n - 1);
    }
  }

  /** A negative memcmp means a[..n] comes first in byte order: at the first
    * position where they differ, a holds the smaller byte.
    */
  lemma {:induction false} CmpNegative(a: seq<Byte>, b: seq<Byte>, n: nat)
    requires n <= |a| && n <= |b|
    requires Cmp(a, b, n) < 0
    ensures exists k :: 0 <= k < n && a[..k] == b[..k] && a[k] < b[k]
  {
    if a[0] != b[0] {
      assert a[..0] == b[..0];
    } else {
      CmpNegative(a[1..], b[1..], n - 1);
      var k :| 0 <= k < n - 1 && a[1..][..k] == b[1..][..k] && a[1..][k] < b[1..][k];
      assert a[..k + 1] == [a[0]] + a[1..][..k];
      assert b[..k + 1] == [b[0]] + b[1..][..k];
    }
  }

  /** strlen: the index of the first NUL. */
  function Len(s: seq<Byte>): (r: nat)
    requires NUL in s
    ensures r < |s| && s[r] == NUL && NUL !in s[..r]
  {
    if s[0] == NUL then 0
    else
      assert NUL in s[1..];
      var r := 1 + Len(s[1..]);
      assert s[..r] == [s[0]] + s[1..][..r - 1];
      r
  }
}
