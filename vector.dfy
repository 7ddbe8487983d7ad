/* The generic vector of libs/useful/vector.c: a block of item handles
 * that grows by powers of two and never shrinks, with in-place shifting
 * insert and delete, an optional table of item operations (free, compare,
 * compare_key), a Hoare-style quicksort and binary search.
 *
 * Items are a type parameter T standing for the C `void *` handles; the
 * item table says which of them are NULL. The optional `free` operation
 * is modelled by the log `freed`: every item the vector hands to
 * vmt->free is appended to it, in the order of the calls. The comparators are pure function values.
 * Allocation failure is a `fail` flag saying whether realloc returns
 * NULL on this call.
 */
module Vector {
  import opened Useful
  import opened Mem

  /** Sizes for which vector_alloc_size does not overflow `1 << 31`. */
  const MAX_ITEMS: int := 0x3fff_ffff

  /** The facts about fls32(n) that vector_alloc_size relies on. */
  lemma FlsRange(n: int)
    requires 1 <= n <= MAX_ITEMS
    ensures Fls32(n) < 30
    ensures Pow2(Fls32(n)) <= n < Pow2(Fls32(n) + 1)
    ensures Fls32(n) < 3 ==> n < 8
    ensures Fls32(n) >= 3 ==> 16 <= Pow2(Fls32(n) + 1)
  {
    Pow2Table();
    var f := Fls32(n);
    Fls32Brackets(n);
    if f >= 30 {
      if f > 30 {
        Pow2Monotone(30, f);
      }
    }
    if f < 3 && f + 1 < 3 {
      Pow2Monotone(f + 1, 3);
    }
    if f >= 3 && f + 1 > 4 {
      Pow2Monotone(4, f + 1);
    }
  }

  /** vector_alloc_size: the number of slots for n items, the next power
    * of two above n and at least 16; nothing for n <= 0.
    */
  function AllocSize(n: int): (r: int)
    requires n <= MAX_ITEMS
    ensures n <= 0 ==> r == 0
    ensures n > 0 ==> 16 <= r && n < r && IsPow2(r)
    ensures n > 0 ==> r == 16 || r <= 2 * n
  {
    if n <= 0 then 0
    else
      var fls := Fls32(n);
      FlsRange(n);
      Pow2Table();
      if fls < 3 then 16 else Pow2(fls + 1)
  }

  /** The optional item operations (vector_vmt_t): whether items are
    * released through `free`, which handles are NULL (vector_set does not
    * release those, vector_clear and vector_delete hand them on too), and
    * the two comparators.
    */
  datatype Vmt<!T, !K> = Vmt(free: bool, isNull: T -> bool, compare: Option<(T, T) -> int>, compareKey: Option<(T, K) -> int>)

  /* ---------------------------------------------------------------- */
  /* Orders                                                            */

  /** s is ordered by cmp. */
  ghost predicate Sorted<T>(s: seq<T>, cmp: (T, T) -> int)
  {
    forall i, j | 0 <= i < j < |s| :: cmp(s[i], s[j]) <= 0
  }

  /** cmp behaves as a comparator on the values of S: every value equals
    * itself, swapping the operands flips the sign, and "comes no later"
    * is transitive.
    */
  ghost predicate Consistent<T>(cmp: (T, T) -> int, S: seq<T>)
  {
    (forall x | x in S :: cmp(x, x) == 0)
    && (forall x, y | x in S && y in S :: cmp(x, y) < 0 <==> cmp(y, x) > 0)
    && (forall x, y, z {:trigger Le(cmp, x, y), Le(cmp, y, z)} | x in S && y in S && z in S ::
          Le(cmp, x, y) && Le(cmp, y, z) ==> Le(cmp, x, z))
  }

  /** x comes no later than y. Transitivity is stated on this predicate
    * so that it is only applied where a proof names it.
    */
  ghost predicate Le<T>(cmp: (T, T) -> int, x: T, y: T)
  {
    cmp(x, y) <= 0
  }

  /** Every value of s comes no later than every value of t. */
  ghost predicate Before<T>(s: seq<T>, t: seq<T>, cmp: (T, T) -> int)
  {
    forall x, y | x in s && y in t :: cmp(x, y) <= 0
  }

  /** s splits around x: whatever lies after a value ordered before x is
    * ordered before x too, and whatever lies before a value ordered after
    * x is ordered after x too. This is what binary search needs.
    */
  ghost predicate Partitioned<T, U>(s: seq<T>, x: U, cmp: (T, U) -> int)
  {
    forall i, j | 0 <= i < j < |s| ::
      (cmp(s[j], x) < 0 ==> cmp(s[i], x) < 0) && (cmp(s[i], x) > 0 ==> cmp(s[j], x) > 0)
  }

  /** Two ordered runs, the first before the second, make one. */
  lemma SortedConcat<T>(s: seq<T>, t: seq<T>, cmp: (T, T) -> int)
    requires Sorted(s, cmp) && Sorted(t, cmp) && Before(s, t, cmp)
    ensures Sorted(s + t, cmp)
  {
    forall i, j | 0 <= i < j < |s + t|
      ensures cmp((s + t)[i], (s + t)[j]) <= 0
    {
      if i < |s| && j >= |s| {
        assert (s + t)[i] in s && (s + t)[j] in t;
      }
    }
  }

  /** A sorted sequence splits around any value the comparator is
    * consistent on, so binary search for it is sound.
    */
  lemma SortedPartitioned<T>(s: seq<T>, x: T, cmp: (T, T) -> int)
    requires Sorted(s, cmp) && Consistent(cmp, s + [x])
    ensures Partitioned(s, x, cmp)
  {
    forall i, j | 0 <= i < j < |s|
      ensures cmp(s[j], x) < 0 ==> cmp(s[i], x) < 0
      ensures cmp(s[i], x) > 0 ==> cmp(s[j], x) > 0
    {
      assert s[i] in s + [x] && s[j] in s + [x] && x in s + [x];
      assert Le(cmp, s[i], s[j]);
      assert Le(cmp, s[j], x) ==> Le(cmp, s[i], x);
      assert Le(cmp, x, s[i]) ==> Le(cmp, x, s[j]);
    }
  }

  /** Inserting x where everything before is ordered no later than x and
    * everything after no earlier keeps a sorted sequence sorted.
    */
  lemma InsertKeepsSorted<T>(s: seq<T>, m: int, x: T, cmp: (T, T) -> int)
    requires 0 <= m <= |s|
    requires Sorted(s, cmp) && Consistent(cmp, s + [x])
    requires forall k | 0 <= k < m :: cmp(s[k], x) <= 0
    requires forall k | m <= k < |s| :: cmp(s[k], x) >= 0
    ensures Sorted(s[..m] + [x] + s[m..], cmp)
  {
    var r := s[..m] + [x] + s[m..];
    forall i, j | 0 <= i < j < |r|
      ensures cmp(r[i], r[j]) <= 0
    {
      assert x in s + [x];
      if j == m {
        assert r[i] == s[i];
      } else if i == m {
        assert r[j] == s[j - 1] && s[j - 1] in s + [x];
      } else {
        assert r[i] == s[if i < m then i else i - 1];
        assert r[j] == s[if j < m then j else j - 1];
      }
    }
  }

  /* ---------------------------------------------------------------- */
  /* Block operations                                                  */

  /** Open a gap of |items| slots at pos in the first len slots of a (the
    * memmove of vector_insert) and fill it with items.
    */
  method OpenGap<T>(a: array<T>, len: int, pos: int, items: seq<T>)
    requires 0 <= pos <= len && len + |items| <= a.Length
    modifies a
    ensures a[..len + |items|] == old(a[..len])[..pos] + items + old(a[..len])[pos..]
    ensures a[len + |items|..] == old(a[len + |items|..])
  {
    ghost var s0 := a[..];
    var n := |items|;
    Move(a, pos + n, pos, len - pos);
    var i := 0;
    while i < n
      invariant 0 <= i <= n
      invariant forall k | 0 <= k < pos :: a[k] == s0[k]
      invariant forall k | pos <= k < pos + i :: a[k] == items[k - pos]
      invariant forall k | pos + n <= k < len + n :: a[k] == s0[k - n]
      invariant forall k | len + n <= k < a.Length :: a[k] == s0[k]
    {
      a[pos + i] := items[i];
      i := i + 1;
    }
    ghost var want := s0[..len][..pos] + items + s0[..len][pos..];
    forall k | 0 <= k < len + n
      ensures a[k] == want[k]
    {
      if k < pos {
        assert want[k] == s0[k];
      } else if k < pos + n {
        assert want[k] == items[k - pos];
      } else {
        assert want[k] == s0[k - n];
      }
    }
    assert a[..len + n] == want;
  }

  /** Close the gap of count slots at pos in the first len slots of a
    * (the memmove of vector_delete).
    */
  method CloseGap<T>(a: array<T>, len: int, pos: int, count: int)
    requires 0 <= pos && 0 <= count && pos + count <= len <= a.Length
    modifies a
    ensures a[..len - count] == old(a[..len])[..pos] + old(a[..len])[pos + count..]
  {
    ghost var s0 := a[..];
    Move(a, pos, pos + count, len - (pos + count));
    assert a[..len - count] == s0[..len][..pos] + s0[..len][pos + count..];
  }

  /** Exchange two slots (vector_exchange_i). */
  method Swap<T>(a: array<T>, i: int, j: int)
    requires 0 <= i < a.Length && 0 <= j < a.Length
    modifies a
    ensures a[..] == old(a[..])[i := old(a[j])][j := old(a[i])]
  {
    var tmp := a[i];
    a[i] := a[j];
    a[j] := tmp;
  }

  /** What vector_join as written leaves in the destination: its first
    * slots overwritten by the source's items, its size kept.
    */
  function Overwrite<T>(dst: seq<T>, src: seq<T>): (r: seq<T>)
    ensures |r| == |dst|
    ensures forall k | 0 <= k < |r| :: r[k] == if k < |src| then src[k] else dst[k]
  {
    if |src| >= |dst| then src[..|dst|] else src + dst[|src|..]
  }

  /** Joining as written loses items: whenever the other vector holds
    * any, the result is not this vector's items followed by the other's,
    * and the first of them overwrites this vector's first item.
    */
  lemma OverwriteLoses<T>(dst: seq<T>, src: seq<T>)
    requires |src| > 0 && |dst| > 0
    ensures Overwrite(dst, src) != dst + src
    ensures Overwrite(dst, src)[0] == src[0]
  {
    assert |Overwrite(dst, src)| < |dst + src|;
  }

  /* ---------------------------------------------------------------- */
  /* Quicksort and binary search                                       */

  /** Every value of s is one of S. */
  ghost predicate Within<T>(s: seq<T>, S: seq<T>)
  {
    forall x | x in s :: x in S
  }

  /** s is s0 with only the values of s0[l..h] rearranged. */
  ghost predicate Perm<T>(s0: seq<T>, s: seq<T>, l: int, h: int)
    requires 0 <= l <= h <= |s0|
  {
    |s| == |s0| && s[..l] == s0[..l] && s[h..] == s0[h..] && multiset(s[l..h]) == multiset(s0[l..h])
  }

  /** The state of one vector_qsort_i call over s[lo..hi]: the part left
    * of `left` and the part right of `right` are in place, each ordered
    * and each no later (resp. no earlier) than everything between.
    */
  ghost predicate Progress<T>(s: seq<T>, lo: int, left: int, right: int, hi: int, cmp: (T, T) -> int)
    requires 0 <= lo <= left <= right + 1 <= hi + 1 <= |s|
  {
    Sorted(s[lo..left], cmp) && Sorted(s[right + 1..hi + 1], cmp)
    && Before(s[lo..left], s[left..hi + 1], cmp)
    && Before(s[left..right + 1], s[right + 1..hi + 1], cmp)
  }

  lemma SliceWithin<T>(s: seq<T>, a: int, b: int, c: int, d: int)
    requires 0 <= c <= a <= b <= d <= |s|
    ensures Within(s[a..b], s[c..d])
  {
    assert s[c..d] == s[c..a] + s[a..b] + s[b..d];
  }

  lemma SameValues<T>(s: seq<T>, t: seq<T>)
    requires multiset(s) == multiset(t)
    ensures Within(s, t)
  {
    forall x | x in s
      ensures x in t
    {
      assert x in multiset(s);
    }
  }

  lemma BeforeWithin<T>(s: seq<T>, t: seq<T>, s2: seq<T>, t2: seq<T>, cmp: (T, T) -> int)
    requires Before(s, t, cmp) && Within(s2, s) && Within(t2, t)
    ensures Before(s2, t2, cmp)
  {
  }

  lemma BeforeJoin<T>(s: seq<T>, t: seq<T>, u: seq<T>, v: seq<T>, cmp: (T, T) -> int)
    requires Before(s, u, cmp) && Before(s, v, cmp) && Before(t, u, cmp) && Before(t, v, cmp)
    ensures Before(s + t, u + v, cmp)
  {
  }

  lemma SortedOfBefore<T>(s: seq<T>, cmp: (T, T) -> int)
    requires Before(s, s, cmp)
    ensures Sorted(s, cmp)
  {
    forall i, j | 0 <= i < j < |s|
      ensures cmp(s[i], s[j]) <= 0
    {
      assert s[i] in s && s[j] in s;
    }
  }

  /** A rearrangement inside a range is one inside any wider range. */
  lemma PermWiden<T>(s0: seq<T>, s: seq<T>, l: int, h: int, l2: int, h2: int)
    requires 0 <= l2 <= l <= h <= h2 <= |s0|
    requires Perm(s0, s, l, h)
    ensures Perm(s0, s, l2, h2)
  {
    assert s0[l2..h2] == s0[l2..l] + s0[l..h] + s0[h..h2];
    assert s[l2..h2] == s[l2..l] + s[l..h] + s[h..h2];
    assert s[l2..l] == s[..l][l2..] && s0[l2..l] == s0[..l][l2..];
    assert s[h..h2] == s[h..][..h2 - h] && s0[h..h2] == s0[h..][..h2 - h];
    assert s[..l2] == s[..l][..l2] && s0[..l2] == s0[..l][..l2];
    assert s[h2..] == s[h..][h2 - h..] && s0[h2..] == s0[h..][h2 - h..];
  }

  /** A rearranged range holds the same values. */
  lemma PermWithin<T>(s0: seq<T>, s: seq<T>, l: int, h: int, S: seq<T>)
    requires 0 <= l <= h <= |s0|
    requires Perm(s0, s, l, h) && Within(s0[l..h], S)
    ensures Within(s[l..h], S)
  {
    SameValues(s[l..h], s0[l..h]);
  }

  /** Outside a rearranged range nothing moved. */
  lemma PermOutside<T>(s0: seq<T>, s: seq<T>, l: int, h: int, a: int, b: int)
    requires 0 <= l <= h <= |s0|
    requires Perm(s0, s, l, h)
    requires 0 <= a <= b <= l || h <= a <= b <= |s0|
    ensures s[a..b] == s0[a..b]
  {
    forall k | a <= k < b
      ensures s[k] == s0[k]
    {
      if b <= l {
        assert s[k] == s[..l][k] && s0[k] == s0[..l][k];
      } else {
        assert s[k] == s[h..][k - h] && s0[k] == s0[h..][k - h];
      }
    }
  }

  /** The comparator is reflexive on any values it is consistent on. */
  lemma ConsistentReflexive<T>(cmp: (T, T) -> int, S: seq<T>, s: seq<T>)
    requires Consistent(cmp, S) && Within(s, S)
    ensures forall y | y in s :: cmp(y, y) == 0
  {
  }

  /** After a partition pass around p, everything up to i - 1 comes no
    * later than everything from j + 1 on.
    */
  lemma PivotSplit<T>(s: seq<T>, left: int, right: int, i: int, j: int, p: T, cmp: (T, T) -> int, S: seq<T>)
    requires 0 <= left <= j < i <= right + 1 <= |s|
    requires Consistent(cmp, S) && Within(s[left..right + 1], S) && p in S
    requires forall k | left <= k < i :: cmp(s[k], p) <= 0
    requires forall k | j < k <= right :: cmp(s[k], p) >= 0
    ensures Before(s[left..i], s[j + 1..right + 1], cmp)
  {
    SliceWithin(s, left, i, left, right + 1);
    SliceWithin(s, j + 1, right + 1, left, right + 1);
    forall x, y | x in s[left..i] && y in s[j + 1..right + 1]
      ensures cmp(x, y) <= 0
    {
      var u :| 0 <= u < i - left && s[left..i][u] == x;
      var v :| 0 <= v < right - j && s[j + 1..right + 1][v] == y;
      assert cmp(s[left + u], p) <= 0 && cmp(s[j + 1 + v], p) >= 0;
      assert Le(cmp, x, p) && Le(cmp, p, y);
    }
  }

  /** Once at most one value is left between the two placed parts, the
    * whole range is ordered.
    */
  lemma ProgressDone<T>(s: seq<T>, lo: int, left: int, right: int, hi: int, cmp: (T, T) -> int)
    requires 0 <= lo <= left <= right + 1 <= hi + 1 <= |s| && right <= left
    requires Progress(s, lo, left, right, hi, cmp)
    ensures Sorted(s[lo..hi + 1], cmp)
  {
    assert s[left..hi + 1] == s[left..right + 1] + s[right + 1..hi + 1];
    SortedConcat(s[left..right + 1], s[right + 1..hi + 1], cmp);
    assert s[lo..hi + 1] == s[lo..left] + s[left..hi + 1];
    SortedConcat(s[lo..left], s[left..hi + 1], cmp);
  }

  /** The facts every step of vector_qsort_i starts from: s0 is the state
    * before the partition pass over [left, right], s1 the state after it
    * (split at i and j).
    */
  ghost predicate StepFacts<T>(s0: seq<T>, s1: seq<T>, lo: int, left: int, right: int, hi: int,
                               i: int, j: int, cmp: (T, T) -> int)
  {
    0 <= lo <= left < right <= hi < |s0|
    && left < i <= right + 1 && left <= j < right && j < i
    && Progress(s0, lo, left, right, hi, cmp)
    && Perm(s0, s1, left, right + 1)
    && Before(s1[left..i], s1[j + 1..right + 1], cmp)
  }

  lemma PermTrans<T>(s0: seq<T>, s1: seq<T>, s: seq<T>, l: int, h: int)
    requires 0 <= l <= h <= |s0|
    requires Perm(s0, s1, l, h) && Perm(s1, s, l, h)
    ensures Perm(s0, s, l, h)
  {
  }

  /** Rearranging the values between left and right keeps the progress of
    * the call.
    */
  lemma PermProgress<T>(s0: seq<T>, s: seq<T>, lo: int, left: int, right: int, hi: int, cmp: (T, T) -> int)
    requires 0 <= lo <= left <= right <= hi < |s0|
    requires Perm(s0, s, left, right + 1) && Progress(s0, lo, left, right, hi, cmp)
    ensures Progress(s, lo, left, right, hi, cmp)
  {
    PermOutside(s0, s, left, right + 1, lo, left);
    PermOutside(s0, s, left, right + 1, right + 1, hi + 1);
    PermWiden(s0, s, left, right + 1, left, hi + 1);
    SameValues(s[left..hi + 1], s0[left..hi + 1]);
    SameValues(s[left..right + 1], s0[left..right + 1]);
    BeforeWithin(s0[lo..left], s0[left..hi + 1], s[lo..left], s[left..hi + 1], cmp);
    BeforeWithin(s0[left..right + 1], s0[right + 1..hi + 1], s[left..right + 1], s[right + 1..hi + 1], cmp);
  }

  /** Two adjacent ordered runs, the first no later than the second, make
    * one ordered run.
    */
  lemma SortedJoin<T>(s: seq<T>, a: int, m: int, b: int, cmp: (T, T) -> int)
    requires 0 <= a <= m <= b <= |s|
    requires Sorted(s[a..m], cmp) && Sorted(s[m..b], cmp) && Before(s[a..m], s[m..b], cmp)
    ensures Sorted(s[a..b], cmp)
  {
    assert s[a..b] == s[a..m] + s[m..b];
    SortedConcat(s[a..m], s[m..b], cmp);
  }

  /** The values between j and i equal the pivot, so they are ordered among
    * themselves: sorting [left, j] orders [left, i).
    */
  lemma MidRunLeft<T>(s: seq<T>, left: int, right: int, i: int, j: int, cmp: (T, T) -> int)
    requires 0 <= left <= j < i <= right + 1 <= |s|
    requires Before(s[left..i], s[j + 1..right + 1], cmp) && Sorted(s[left..j + 1], cmp)
    ensures Sorted(s[left..i], cmp)
  {
    SliceWithin(s, left, j + 1, left, i);
    SliceWithin(s, j + 1, i, left, i);
    SliceWithin(s, j + 1, i, j + 1, right + 1);
    BeforeWithin(s[left..i], s[j + 1..right + 1], s[left..j + 1], s[j + 1..i], cmp);
    BeforeWithin(s[left..i], s[j + 1..right + 1], s[j + 1..i], s[j + 1..i], cmp);
    SortedOfBefore(s[j + 1..i], cmp);
    SortedJoin(s, left, j + 1, i, cmp);
  }

  /** Likewise sorting [i, right] orders (j, right]. */
  lemma MidRunRight<T>(s: seq<T>, left: int, right: int, i: int, j: int, cmp: (T, T) -> int)
    requires 0 <= left <= j < i <= right + 1 <= |s|
    requires Before(s[left..i], s[j + 1..right + 1], cmp) && Sorted(s[i..right + 1], cmp)
    ensures Sorted(s[j + 1..right + 1], cmp)
  {
    SliceWithin(s, i, right + 1, j + 1, right + 1);
    SliceWithin(s, j + 1, i, left, i);
    SliceWithin(s, j + 1, i, j + 1, right + 1);
    BeforeWithin(s[left..i], s[j + 1..right + 1], s[j + 1..i], s[i..right + 1], cmp);
    BeforeWithin(s[left..i], s[j + 1..right + 1], s[j + 1..i], s[j + 1..i], cmp);
    SortedOfBefore(s[j + 1..i], cmp);
    SortedJoin(s, j + 1, i, right + 1, cmp);
  }

  /** After the left side [left, j] is sorted, [lo, i) is placed. */
  lemma LeftPlaced<T>(s: seq<T>, lo: int, left: int, right: int, hi: int, i: int, j: int, cmp: (T, T) -> int)
    requires 0 <= lo <= left <= j < i <= right + 1 <= hi + 1 <= |s|
    requires Progress(s, lo, left, right, hi, cmp)
    requires Before(s[left..i], s[j + 1..right + 1], cmp) && Sorted(s[left..j + 1], cmp)
    ensures Progress(s, lo, i, right, hi, cmp)
  {
    MidRunLeft(s, left, right, i, j, cmp);
    SliceWithin(s, left, i, left, hi + 1);
    BeforeWithin(s[lo..left], s[left..hi + 1], s[lo..left], s[left..i], cmp);
    SortedJoin(s, lo, left, i, cmp);
    LeftPlacedBefore(s, lo, left, right, hi, i, j, cmp);
    SliceWithin(s, i, right + 1, left, right + 1);
    BeforeWithin(s[left..right + 1], s[right + 1..hi + 1], s[i..right + 1], s[right + 1..hi + 1], cmp);
  }

  /** The split part of LeftPlaced: [lo, i) comes before [i, hi]. */
  lemma LeftPlacedBefore<T>(s: seq<T>, lo: int, left: int, right: int, hi: int, i: int, j: int, cmp: (T, T) -> int)
    requires 0 <= lo <= left <= j < i <= right + 1 <= hi + 1 <= |s|
    requires Before(s[lo..left], s[left..hi + 1], cmp)
    requires Before(s[left..right + 1], s[right + 1..hi + 1], cmp)
    requires Before(s[left..i], s[j + 1..right + 1], cmp)
    ensures Before(s[lo..i], s[i..hi + 1], cmp)
  {
    var A, L, D, E := s[lo..left], s[left..i], s[i..right + 1], s[right + 1..hi + 1];
    SliceWithin(s, i, hi + 1, left, hi + 1);
    SliceWithin(s, left, i, left, right + 1);
    SliceWithin(s, i, right + 1, left, right + 1);
    SliceWithin(s, i, right + 1, j + 1, right + 1);
    BeforeWithin(s[lo..left], s[left..hi + 1], A, s[i..hi + 1], cmp);
    BeforeWithin(s[left..i], s[j + 1..right + 1], L, D, cmp);
    BeforeWithin(s[left..right + 1], E, L, E, cmp);
    SliceSplit(s, i, right + 1, hi + 1);
    SliceSplit(s, lo, left, i);
    BeforeJoin(A, L, D, E, cmp);
  }

  /** A slice is its two halves. */
  lemma SliceSplit<T>(s: seq<T>, a: int, b: int, c: int)
    requires 0 <= a <= b <= c <= |s|
    ensures s[a..c] == s[a..b] + s[b..c]
  {
  }

  /** After the right side [i, right] is sorted, (j, hi] is placed. */
  lemma RightPlaced<T>(s: seq<T>, lo: int, left: int, right: int, hi: int, i: int, j: int, cmp: (T, T) -> int)
    requires 0 <= lo <= left <= j < i <= right + 1 <= hi + 1 <= |s|
    requires Progress(s, lo, left, right, hi, cmp)
    requires Before(s[left..i], s[j + 1..right + 1], cmp) && Sorted(s[i..right + 1], cmp)
    ensures Progress(s, lo, left, j, hi, cmp)
  {
    MidRunRight(s, left, right, i, j, cmp);
    SliceWithin(s, j + 1, right + 1, left, right + 1);
    BeforeWithin(s[left..right + 1], s[right + 1..hi + 1], s[j + 1..right + 1], s[right + 1..hi + 1], cmp);
    SortedJoin(s, j + 1, right + 1, hi + 1, cmp);
    RightPlacedBefore(s, left, right, hi, i, j, cmp);
  }

  /** The split part of RightPlaced: [left, j] comes before (j, hi]. */
  lemma RightPlacedBefore<T>(s: seq<T>, left: int, right: int, hi: int, i: int, j: int, cmp: (T, T) -> int)
    requires 0 <= left <= j < i <= right + 1 <= hi + 1 <= |s|
    requires Before(s[left..right + 1], s[right + 1..hi + 1], cmp)
    requires Before(s[left..i], s[j + 1..right + 1], cmp)
    ensures Before(s[left..j + 1], s[j + 1..hi + 1], cmp)
  {
    var B, R, E := s[left..j + 1], s[j + 1..right + 1], s[right + 1..hi + 1];
    SliceWithin(s, left, j + 1, left, i);
    SliceWithin(s, left, j + 1, left, right + 1);
    BeforeWithin(s[left..i], s[j + 1..right + 1], B, R, cmp);
    BeforeWithin(s[left..right + 1], E, B, E, cmp);
    SliceSplit(s, j + 1, right + 1, hi + 1);
    assert B + [] == B;
    BeforeJoin(B, [], R, E, cmp);
  }

  /** Sorting [left, j] keeps the pivot split. */
  lemma KeepSplitLeft<T>(s1: seq<T>, s: seq<T>, left: int, right: int, i: int, j: int, cmp: (T, T) -> int)
    requires 0 <= left <= j < i <= right + 1 <= |s1|
    requires Perm(s1, s, left, j + 1) && Before(s1[left..i], s1[j + 1..right + 1], cmp)
    ensures Perm(s1, s, left, right + 1) && Before(s[left..i], s[j + 1..right + 1], cmp)
  {
    PermWiden(s1, s, left, j + 1, left, i);
    PermOutside(s1, s, left, j + 1, j + 1, right + 1);
    SameValues(s[left..i], s1[left..i]);
    BeforeWithin(s1[left..i], s1[j + 1..right + 1], s[left..i], s[j + 1..right + 1], cmp);
    PermWiden(s1, s, left, j + 1, left, right + 1);
  }

  /** The left side [left, j] was sorted: the call goes on with left := i. */
  lemma StepLeft<T>(s0: seq<T>, s1: seq<T>, s: seq<T>, lo: int, left: int, right: int, hi: int,
                    i: int, j: int, cmp: (T, T) -> int)
    requires StepFacts(s0, s1, lo, left, right, hi, i, j, cmp)
    requires Perm(s1, s, left, j + 1) && Sorted(s[left..j + 1], cmp)
    ensures Perm(s0, s, lo, hi + 1)
    ensures Progress(s, lo, i, right, hi, cmp)
  {
    KeepSplitLeft(s1, s, left, right, i, j, cmp);
    PermTrans(s0, s1, s, left, right + 1);
    PermProgress(s0, s, lo, left, right, hi, cmp);
    PermWiden(s0, s, left, right + 1, lo, hi + 1);
    LeftPlaced(s, lo, left, right, hi, i, j, cmp);
  }

  /** Sorting [i, right] keeps the pivot split. */
  lemma KeepSplitRight<T>(s1: seq<T>, s: seq<T>, left: int, right: int, i: int, j: int, cmp: (T, T) -> int)
    requires 0 <= left <= j < i <= right + 1 <= |s1|
    requires Perm(s1, s, i, right + 1) && Before(s1[left..i], s1[j + 1..right + 1], cmp)
    ensures Perm(s1, s, left, right + 1) && Before(s[left..i], s[j + 1..right + 1], cmp)
  {
    PermWiden(s1, s, i, right + 1, j + 1, right + 1);
    PermOutside(s1, s, i, right + 1, left, i);
    SameValues(s[j + 1..right + 1], s1[j + 1..right + 1]);
    BeforeWithin(s1[left..i], s1[j + 1..right + 1], s[left..i], s[j + 1..right + 1], cmp);
    PermWiden(s1, s, i, right + 1, left, right + 1);
  }

  /** The right side [i, right] was sorted: the call goes on with right := j. */
  lemma StepRight<T>(s0: seq<T>, s1: seq<T>, s: seq<T>, lo: int, left: int, right: int, hi: int,
                     i: int, j: int, cmp: (T, T) -> int)
    requires StepFacts(s0, s1, lo, left, right, hi, i, j, cmp)
    requires Perm(s1, s, i, right + 1) && Sorted(s[i..right + 1], cmp)
    ensures Perm(s0, s, lo, hi + 1)
    ensures Progress(s, lo, left, j, hi, cmp)
  {
    KeepSplitRight(s1, s, left, right, i, j, cmp);
    PermTrans(s0, s1, s, left, right + 1);
    PermProgress(s0, s, lo, left, right, hi, cmp);
    PermWiden(s0, s, left, right + 1, lo, hi + 1);
    RightPlaced(s, lo, left, right, hi, i, j, cmp);
  }

  /** The upward scan of the partition pass: i runs over values ordered
    * before the pivot, stopping at the pivot's slot at the latest, or at
    * the first value already known to be ordered after it.
    */
  method ScanUp<T>(a: array<T>, left: int, right: int, i0: int, j: int, x: int, cmp: (T, T) -> int, ghost p: T)
    returns (i: int)
    requires 0 <= left <= i0 <= j <= right < a.Length
    requires left <= x <= right && a[x] == p && cmp(p, p) == 0
    requires i0 <= x || j < right
    requires forall k | left <= k < i0 :: cmp(a[k], p) <= 0
    requires forall k | j < k <= right :: cmp(a[k], p) >= 0
    ensures i0 <= i <= j + 1 && i <= right
    ensures forall k | left <= k < i :: cmp(a[k], p) <= 0
    ensures cmp(a[i], p) >= 0
  {
    i := i0;
    while i != x && cmp(a[i], a[x]) < 0
      invariant i0 <= i <= j + 1 && i <= right
      invariant i <= x || j < right
      invariant forall k | left <= k < i :: cmp(a[k], p) <= 0
      decreases right - i
    {
      i := i + 1;
    }
  }

  /** The downward scan of the partition pass, the mirror of ScanUp. */
  method ScanDown<T>(a: array<T>, left: int, right: int, i: int, j0: int, x: int, cmp: (T, T) -> int, ghost p: T)
    returns (j: int)
    requires 0 <= left <= i <= j0 + 1 && j0 <= right < a.Length && left <= j0
    requires left <= x <= right && a[x] == p && cmp(p, p) == 0
    requires x <= j0 || left < i
    requires forall k | left <= k < i :: cmp(a[k], p) <= 0
    requires forall k | j0 < k <= right :: cmp(a[k], p) >= 0
    ensures left <= j <= j0 && i - 1 <= j
    ensures forall k | j < k <= right :: cmp(a[k], p) >= 0
    ensures cmp(a[j], p) <= 0
  {
    j := j0;
    while j != x && cmp(a[j], a[x]) > 0
      invariant left <= j <= j0 && i - 1 <= j
      invariant x <= j || left < i
      invariant forall k | j < k <= right :: cmp(a[k], p) >= 0
      decreases j
    {
      j := j - 1;
    }
  }

  /** The exchange of the partition pass; x follows the pivot. */
  method ExchangeAt<T>(a: array<T>, left: int, right: int, i: int, j: int, x0: int, ghost p: T)
    returns (x: int)
    requires 0 <= left <= i < j <= right < a.Length
    requires left <= x0 <= right && a[x0] == p
    modifies a
    ensures a[i] == old(a[j]) && a[j] == old(a[i])
    ensures forall k | 0 <= k < a.Length && k != i && k != j :: a[k] == old(a[k])
    ensures multiset(a[left..right + 1]) == multiset(old(a[left..right + 1]))
    ensures left <= x <= right && a[x] == p
  {
    ghost var s := a[..];
    Swap(a, i, j);
    SwapSlice(s, a[..], left, right + 1, i, j);
    x := x0;
    if x == i {
      x := j;
    } else if x == j {
      x := i;
    }
  }

  /** The partition pass of vector_qsort_i over a[left..right]: i runs up
    * over values ordered before the pivot, j runs down over values
    * ordered after it, out-of-place pairs are exchanged, and x follows the
    * pivot's slot so that the scans always stop inside the range. In the
    * end everything up to i - 1 is ordered no later than the pivot and
    * everything from j + 1 on no earlier.
    */
  method Partition<T>(a: array<T>, left: int, right: int, cmp: (T, T) -> int)
    returns (i: int, j: int, ghost p: T)
    requires 0 <= left < right < a.Length
    requires forall y | y in a[left..right + 1] :: cmp(y, y) == 0
    modifies a
    ensures left < i <= right + 1 && left <= j < right && j < i
    ensures Perm(old(a[..]), a[..], left, right + 1)
    ensures p in old(a[left..right + 1])
    ensures forall k | left <= k < i :: cmp(a[k], p) <= 0
    ensures forall k | j < k <= right :: cmp(a[k], p) >= 0
  {
    i, j := left, right;
    var x := (left + right) / 2;
    p := a[x];
    assert p in a[left..right + 1];
    assert cmp(p, p) == 0;
    while i <= j
      invariant left <= i <= right + 1 && left <= j <= right
      invariant left <= x <= right && a[x] == p
      invariant i == left ==> j == right && x <= j
      invariant i > left ==> j < right
      invariant forall k | left <= k < i :: cmp(a[k], p) <= 0
      invariant forall k | j < k <= right :: cmp(a[k], p) >= 0
      invariant forall k | 0 <= k < a.Length && !(left <= k <= right) :: a[k] == old(a[k])
      invariant multiset(a[left..right + 1]) == multiset(old(a[left..right + 1]))
      decreases if i <= j then j - i + 2 else 0
    {
      i := ScanUp(a, left, right, i, j, x, cmp, p);
      j := ScanDown(a, left, right, i, j, x, cmp, p);
      if i < j {
        x := ExchangeAt(a, left, right, i, j, x, p);
      }
      if i <= j {
        i := i + 1;
        if j > left {
          j := j - 1;
        }
      }
    }
    OutsideSame(old(a[..]), a[..], left, right);
  }

  /** Sequences that agree outside [left, right] have the same two ends. */
  lemma OutsideSame<T>(s0: seq<T>, s: seq<T>, left: int, right: int)
    requires |s0| == |s| && 0 <= left <= right < |s|
    requires forall k | 0 <= k < |s| && !(left <= k <= right) :: s[k] == s0[k]
    ensures s[..left] == s0[..left] && s[right + 1..] == s0[right + 1..]
  {
  }

  /** Exchanging two slots of a range keeps its multiset of values. */
  lemma SwapSlice<T>(s0: seq<T>, s1: seq<T>, lo: int, hi: int, i: int, j: int)
    requires 0 <= lo <= i < hi <= |s0| && lo <= j < hi
    requires s1 == s0[i := s0[j]][j := s0[i]]
    ensures multiset(s1[lo..hi]) == multiset(s0[lo..hi])
  {
    assert s1[lo..hi] == s0[lo..hi][i - lo := s0[j]][j - lo := s0[i]];
  }

  /** The loop invariant of vector_qsort_i: a0 rearranged within
    * [lo, hi], with that range's progress and with values from S only.
    */
  ghost predicate SortState<T>(a0: seq<T>, s: seq<T>, lo: int, left: int, right: int, hi: int,
                               cmp: (T, T) -> int, S: seq<T>)
  {
    0 <= lo <= left <= right + 1 <= hi + 1 <= |a0|
    && Perm(a0, s, lo, hi + 1) && Progress(s, lo, left, right, hi, cmp) && Within(s[lo..hi + 1], S)
  }

  /** Before a pass, the comparator is reflexive on the values in range. */
  lemma BeforePass<T>(a0: seq<T>, s0: seq<T>, lo: int, left: int, right: int, hi: int, cmp: (T, T) -> int, S: seq<T>)
    requires Consistent(cmp, S) && SortState(a0, s0, lo, left, right, hi, cmp, S) && left < right
    ensures forall y | y in s0[left..right + 1] :: cmp(y, y) == 0
  {
    SliceWithin(s0, left, right + 1, lo, hi + 1);
    ConsistentReflexive(cmp, S, s0[left..right + 1]);
  }

  /** After a pass that split [left, right] around a pivot p at i and j. */
  lemma AfterPass<T>(a0: seq<T>, s0: seq<T>, s1: seq<T>, lo: int, left: int, right: int, hi: int,
                     i: int, j: int, p: T, cmp: (T, T) -> int, S: seq<T>)
    requires Consistent(cmp, S) && SortState(a0, s0, lo, left, right, hi, cmp, S) && left < right
    requires left < i <= right + 1 && left <= j < right && j < i
    requires Perm(s0, s1, left, right + 1) && p in s0[left..right + 1]
    requires forall k | left <= k < i :: cmp(s1[k], p) <= 0
    requires forall k | j < k <= right :: cmp(s1[k], p) >= 0
    ensures StepFacts(s0, s1, lo, left, right, hi, i, j, cmp)
    ensures Within(s1[left..j + 1], S) && Within(s1[i..right + 1], S)
  {
    SliceWithin(s0, left, right + 1, lo, hi + 1);
    PermWithin(s0, s1, left, right + 1, S);
    PivotSplit(s1, left, right, i, j, p, cmp, S);
    SliceWithin(s1, left, j + 1, left, right + 1);
    SliceWithin(s1, i, right + 1, left, right + 1);
  }

  /** After the recursive sort of [left, j]: the loop goes on from i. */
  lemma AfterLeft<T>(a0: seq<T>, s0: seq<T>, s1: seq<T>, s: seq<T>, lo: int, left: int, right: int, hi: int,
                     i: int, j: int, cmp: (T, T) -> int, S: seq<T>)
    requires SortState(a0, s0, lo, left, right, hi, cmp, S)
    requires StepFacts(s0, s1, lo, left, right, hi, i, j, cmp)
    requires Perm(s1, s, left, j + 1) && Sorted(s[left..j + 1], cmp)
    ensures SortState(a0, s, lo, i, right, hi, cmp, S)
  {
    StepLeft(s0, s1, s, lo, left, right, hi, i, j, cmp);
    PermTrans(a0, s0, s, lo, hi + 1);
    PermWithin(s0, s, lo, hi + 1, S);
  }

  /** After the recursive sort of [i, right]: the loop goes on up to j. */
  lemma AfterRight<T>(a0: seq<T>, s0: seq<T>, s1: seq<T>, s: seq<T>, lo: int, left: int, right: int, hi: int,
                      i: int, j: int, cmp: (T, T) -> int, S: seq<T>)
    requires SortState(a0, s0, lo, left, right, hi, cmp, S)
    requires StepFacts(s0, s1, lo, left, right, hi, i, j, cmp)
    requires Perm(s1, s, i, right + 1) && Sorted(s[i..right + 1], cmp)
    ensures SortState(a0, s, lo, left, j, hi, cmp, S)
  {
    StepRight(s0, s1, s, lo, left, right, hi, i, j, cmp);
    PermTrans(a0, s0, s, lo, hi + 1);
    PermWithin(s0, s, lo, hi + 1, S);
  }

  /** vector_qsort_i: sort a[lo..hi]. Each pass partitions the current
    * range, recurses into the smaller side and goes on with the larger one
    * (the goto); a range of one value needs no pass.
    */
  method SortRange<T>(a: array<T>, lo: int, hi: int, cmp: (T, T) -> int, ghost S: seq<T>)
    requires 0 <= lo <= hi < a.Length
    requires Consistent(cmp, S) && Within(a[lo..hi + 1], S)
    modifies a
    ensures Perm(old(a[..]), a[..], lo, hi + 1)
    ensures Sorted(a[lo..hi + 1], cmp)
    decreases hi - lo
  {
    ghost var a0 := a[..];
    var left, right := lo, hi;
    while left < right
      invariant SortState(a0, a[..], lo, left, right, hi, cmp, S)
      decreases right - left
    {
      ghost var s0 := a[..];
      BeforePass(a0, s0, lo, left, right, hi, cmp, S);
      var i, j, p := Partition(a, left, right, cmp);
      ghost var s1 := a[..];
      AfterPass(a0, s0, s1, lo, left, right, hi, i, j, p, cmp, S);
      if j - left < right - i {
        if left < j {
          SortRange(a, left, j, cmp, S);
        }
        AfterLeft(a0, s0, s1, a[..], lo, left, right, hi, i, j, cmp, S);
        left := i;
      } else {
        if i < right {
          SortRange(a, i, right, cmp, S);
        }
        AfterRight(a0, s0, s1, a[..], lo, left, right, hi, i, j, cmp, S);
        right := j;
      }
    }
    ProgressDone(a[..], lo, left, right, hi, cmp);
  }

  /** The binary search of vector_find_sorted and vector_find_sorted_key:
    * an index whose value compares equal to x, or -1. On a sequence that
    * splits around x, -1 means no value compares equal.
    */
  method BinarySearch<T, U>(s: seq<T>, x: U, cmp: (T, U) -> int) returns (r: int)
    ensures -1 <= r < |s|
    ensures r >= 0 ==> cmp(s[r], x) == 0
    ensures r < 0 && Partitioned(s, x, cmp) ==> forall k | 0 <= k < |s| :: cmp(s[k], x) != 0
  {
    var l, h := 0, |s| - 1;
    while l <= h
      invariant 0 <= l <= h + 1 <= |s|
      invariant Partitioned(s, x, cmp) ==> forall k | 0 <= k < l :: cmp(s[k], x) < 0
      invariant Partitioned(s, x, cmp) ==> forall k | h < k < |s| :: cmp(s[k], x) > 0
    {
      var m := (l + h) / 2;
      var c := cmp(s[m], x);
      if c == 0 {
        return m;
      } else if c < 0 {
        l := m + 1;
      } else {
        h := m - 1;
      }
    }
    return -1;
  }

  /** The search loop of vector_insert_sorted: the slot for x, at a value
    * comparing equal to it or where the search ended. On a sequence that
    * splits around x, everything before the slot is ordered no later than
    * x and everything from it on no earlier.
    */
  method SortedSlot<T>(s: seq<T>, x: T, cmp: (T, T) -> int) returns (m: int)
    ensures 0 <= m <= |s|
    ensures Partitioned(s, x, cmp) ==> forall k | 0 <= k < m :: cmp(s[k], x) <= 0
    ensures Partitioned(s, x, cmp) ==> forall k | m <= k < |s| :: cmp(s[k], x) >= 0
  {
    var l, r := 0, |s| - 1;
    var found := false;
    m := 0;
    while !found && l <= r
      invariant 0 <= l <= r + 1 <= |s| && 0 <= m <= |s|
      invariant found ==> m < |s| && cmp(s[m], x) == 0
      invariant !found ==> l == m + 1 || r == m - 1 || l <= r
      invariant Partitioned(s, x, cmp) && !found ==> forall k | 0 <= k < l :: cmp(s[k], x) < 0
      invariant Partitioned(s, x, cmp) && !found ==> forall k | r < k < |s| :: cmp(s[k], x) > 0
      decreases r - l + 1, if found then 0 else 1
    {
      m := (l + r) / 2;
      var c := cmp(s[m], x);
      if c == 0 {
        found := true;
      } else if c < 0 {
        l := m + 1;
      } else {
        r := m - 1;
      }
    }
    if !found && r == m {
      m := m + 1;
    }
  }

  /* ---------------------------------------------------------------- */
  /* The vector                                                        */

  class Vector<T(0), K> {
    /** The block of slots (C `allocated` is its length, `capacity` here). */
    var data: array<T>
    var size: int
    var capacity: int
    var vmt: Option<Vmt<T, K>>
    /** The items handed to vmt->free so far, oldest first. */
    var freed: seq<T>

    ghost predicate Valid()
      reads this
    {
      0 <= size <= capacity == data.Length
    }

    /** The items, in order. */
    function Items(): seq<T>
      reads this, data
      requires Valid()
    {
      data[..size]
    }

    /** The vector releases the items it drops. */
    predicate Frees()
      reads this
    {
      vmt.Some? && vmt.value.free
    }

    /** What releasing the items drops adds to the log. */
    function Released(items: seq<T>): seq<T>
      reads this
    {
      if Frees() then items else []
    }

    /** What vector_set's release of the item it overwrites adds to the
      * log: nothing for a NULL handle.
      */
    function ReleasedSlot(item: T): seq<T>
      reads this
    {
      if Frees() && !vmt.value.isNull(item) then [item] else []
    }

    /** vector_init: an empty vector without item operations, with room
      * for n items unless the allocation fails.
      */
    constructor Init(n: int, fail: bool)
      requires n <= MAX_ITEMS
      ensures Valid() && size == 0 && vmt.None? && freed == []
      ensures capacity == if fail then 0 else AllocSize(n)
      ensures fresh(data)
    {
      data := new T[0];
      size := 0;
      capacity := 0;
      vmt := None;
      freed := [];
      new;
      var _ := Allocate(n, fail);
    }

    /** vector_clear: every item goes to vmt->free, if there is one, and
      * the vector becomes empty; the block is kept.
      */
    method Clear()
      requires Valid()
      modifies this
      ensures Valid() && size == 0
      ensures freed == old(freed) + Released(old(Items()))
      ensures data == old(data) && capacity == old(capacity) && vmt == old(vmt)
    {
      if Frees() {
        var log := freed;
        var i := 0;
        while i < size
          invariant 0 <= i <= size
          invariant log == freed + data[..i]
        {
          log := log + [data[i]];
          i := i + 1;
        }
        assert data[..size] == Items();
        freed := log;
      }
      size := 0;
    }

    /** vector_done: clear, then give the block back. */
    method Done()
      requires Valid()
      modifies this
      ensures Valid() && size == 0 && capacity == 0
      ensures freed == old(freed) + Released(old(Items()))
      ensures vmt == old(vmt)
    {
      Clear();
      if capacity != 0 {
        data := new T[0];
        capacity := 0;
      }
    }

    /** vector_allocate: make room for n items. The block only grows, to
      * vector_alloc_size(n) slots; if realloc fails the vector is left
      * empty with no block.
      */
    method Allocate(n: int, fail: bool) returns (ok: bool)
      requires Valid() && n <= MAX_ITEMS
      modifies this
      ensures Valid() && vmt == old(vmt) && freed == old(freed)
      ensures ok <==> !(fail && AllocSize(n) > old(capacity))
      ensures ok ==> size == old(size) && Items() == old(Items())
      ensures ok ==> capacity == (if AllocSize(n) > old(capacity) then AllocSize(n) else old(capacity))
      ensures ok ==> n <= capacity
      ensures !ok ==> size == 0 && capacity == 0
      ensures data == old(data) || fresh(data)
    {
      var alloc := AllocSize(n);
      if alloc > capacity {
        if fail {
          data := new T[0];
          size := 0;
          capacity := 0;
          ok := false;
        } else {
          var block := new T[alloc];
          Copy(block, 0, data, 0, capacity);
          assert block[..size] == data[..size] by {
            assert block[..size] == block[..capacity][..size];
          }
          data := block;
          capacity := alloc;
          ok := true;
        }
      } else {
        ok := true;
      }
    }

    /** vector_expand: room for xsize more items; a negative xsize asks
      * for nothing.
      */
    method Expand(xsize: int, fail: bool) returns (ok: bool)
      requires Valid() && size + xsize <= MAX_ITEMS
      modifies this
      ensures Valid() && vmt == old(vmt) && freed == old(freed)
      ensures !fail ==> ok
      ensures xsize < 0 ==> ok && data == old(data) && capacity == old(capacity)
      ensures ok ==> size == old(size) && Items() == old(Items()) && capacity >= old(capacity)
      ensures ok && xsize >= 0 ==> old(size) + xsize <= capacity
      ensures !ok ==> size == 0 && capacity == 0
      ensures data == old(data) || fresh(data)
    {
      if xsize < 0 {
        ok := true;
      } else {
        ok := Allocate(size + xsize, fail);
      }
    }

    /** vector_get: the item at pos, or NULL (None) outside the vector. */
    function Get(pos: int): (r: Option<T>)
      reads this, data
      requires Valid()
      ensures r.Some? <==> 0 <= pos < size
      ensures r.Some? ==> r.value == Items()[pos]
    {
      if 0 <= pos < size then Some(data[pos]) else None
    }

    /** vector_set: replace the item at pos (releasing the old one) or,
      * at pos == size, append; anything else is refused.
      */
    method Set(pos: int, item: T, fail: bool) returns (ok: bool)
      requires Valid() && size < MAX_ITEMS
      modifies this, data
      ensures Valid() && vmt == old(vmt)
      ensures !(0 <= pos <= old(size)) ==>
        !ok && Items() == old(Items()) && capacity == old(capacity) && freed == old(freed)
      ensures 0 <= pos < old(size) ==>
        ok && Items() == old(Items())[pos := item] && capacity == old(capacity)
        && freed == old(freed) + ReleasedSlot(old(Items())[pos])
      ensures pos == old(size) ==> (!fail ==> ok) && freed == old(freed)
      ensures pos == old(size) && ok ==> Items() == old(Items()) + [item]
      ensures pos == old(size) && !ok ==> size == 0 && capacity == 0
      ensures ok ==> Get(pos) == Some(item)
    {
      if pos < 0 || pos > size {
        ok := false;
      } else if pos == size {
        ok := Expand(1, fail);
        if ok {
          data[pos] := item;
          size := pos + 1;
          assert Items() == old(Items()) + [item];
        }
      } else {
        if Frees() && !vmt.value.isNull(data[pos]) {
          freed := freed + [data[pos]];
        }
        data[pos] := item;
        ok := true;
      }
    }

    /** Put items at pos, shifting the tail up; room is there already. */
    method Place(pos: int, items: seq<T>)
      requires Valid() && 0 <= pos <= size && size + |items| <= capacity
      modifies this, data
      ensures Valid() && data == old(data) && capacity == old(capacity)
      ensures vmt == old(vmt) && freed == old(freed)
      ensures Items() == old(Items())[..pos] + items + old(Items())[pos..]
    {
      OpenGap(data, size, pos, items);
      size := size + |items|;
    }

    /** vector_insert_one: insert item at pos in [0, size]. */
    method InsertOne(pos: int, item: T, fail: bool) returns (ok: bool)
      requires Valid() && size < MAX_ITEMS
      modifies this, data
      ensures Valid() && vmt == old(vmt) && freed == old(freed)
      ensures !(0 <= pos <= old(size)) ==> !ok && Items() == old(Items()) && capacity == old(capacity)
      ensures 0 <= pos <= old(size) && !fail ==> ok
      ensures ok ==> Items() == old(Items())[..pos] + [item] + old(Items())[pos..]
      ensures ok ==> capacity >= old(capacity)
      ensures 0 <= pos <= old(size) && !ok ==> size == 0 && capacity == 0
      ensures data == old(data) || fresh(data)
    {
      if pos < 0 || pos > size {
        ok := false;
      } else {
        ok := Expand(1, fail);
        if ok {
          Place(pos, [item]);
        }
      }
    }

    /** vector_append: insert at the end. */
    method Append(item: T, fail: bool) returns (ok: bool)
      requires Valid() && size < MAX_ITEMS
      modifies this, data
      ensures Valid() && vmt == old(vmt) && freed == old(freed)
      ensures !fail ==> ok
      ensures ok ==> Items() == old(Items()) + [item]
      ensures !ok ==> size == 0 && capacity == 0
      ensures data == old(data) || fresh(data)
    {
      ok := InsertOne(size, item, fail);
      assert ok ==> old(Items())[..old(size)] == old(Items());
    }

    /** vector_insert: insert the items of a NULL-terminated argument
      * list at pos in [0, size].
      */
    method Insert(pos: int, items: seq<T>, fail: bool) returns (ok: bool)
      requires Valid() && size + |items| <= MAX_ITEMS
      modifies this, data
      ensures Valid() && vmt == old(vmt) && freed == old(freed)
      ensures !(0 <= pos <= old(size)) ==> !ok && Items() == old(Items()) && capacity == old(capacity)
      ensures 0 <= pos <= old(size) && !fail ==> ok
      ensures ok ==> Items() == old(Items())[..pos] + items + old(Items())[pos..]
      ensures 0 <= pos <= old(size) && !ok ==> size == 0 && capacity == 0
    {
      if pos < 0 || pos > size {
        ok := false;
      } else {
        ok := Expand(|items|, fail);
        if ok {
          Place(pos, items);
        }
      }
    }

    /** vector_pop: take the last item off; it is not released. */
    method Pop() returns (item: T)
      requires Valid() && size > 0
      modifies this
      ensures Valid() && data == old(data) && capacity == old(capacity)
      ensures vmt == old(vmt) && freed == old(freed)
      ensures old(Items()) == Items() + [item]
    {
      item := data[size - 1];
      size := size - 1;
      assert old(Items()) == Items() + [item];
    }

    /** vector_delete: drop count items from pos, releasing them; the
      * range must lie inside the vector and start before its end.
      */
    method Delete(pos: int, count: int) returns (ok: bool)
      requires Valid() && count >= 0
      modifies this, data
      ensures Valid() && data == old(data) && capacity == old(capacity) && vmt == old(vmt)
      ensures ok <==> 0 <= pos < old(size) && pos + count <= old(size)
      ensures ok ==> Items() == old(Items())[..pos] + old(Items())[pos + count..]
      ensures ok ==> freed == old(freed) + Released(old(Items())[pos..pos + count])
      ensures !ok ==> Items() == old(Items()) && freed == old(freed)
    {
      if pos < 0 || pos >= size || pos + count > size {
        ok := false;
      } else {
        ghost var items := Items();
        if Frees() {
          var log := freed;
          var i := 0;
          while i < count
            invariant 0 <= i <= count
            invariant log == freed + items[pos..pos + i]
          {
            log := log + [data[pos + i]];
            i := i + 1;
          }
          freed := log;
        }
        CloseGap(data, size, pos, count);
        size := size - count;
        ok := true;
      }
    }

    /** vector_exchange: swap the items at pos1 and pos2. Only the upper
      * bound is checked.
      */
    method Exchange(pos1: int, pos2: int) returns (ok: bool)
      requires Valid() && 0 <= pos1 && 0 <= pos2
      modifies data
      ensures ok <==> pos1 < size && pos2 < size
      ensures ok ==> Items() == old(Items())[pos1 := old(Items())[pos2]][pos2 := old(Items())[pos1]]
      ensures !ok ==> Items() == old(Items())
    {
      if pos1 >= size || pos2 >= size {
        ok := false;
      } else {
        Swap(data, pos1, pos2);
        ok := true;
      }
    }

    /** vector_join as written: room is made at the end of this vector,
      * but the other vector's items are copied over this vector's first
      * slots and its size is not raised; the other vector is emptied
      * without releasing anything.
      */
    method JoinAsWritten(from: Vector<T, K>, fail: bool) returns (ok: bool)
      requires Valid() && from.Valid() && from != this && from.data != data
      requires size + from.size <= MAX_ITEMS
      modifies this, data, from
      ensures Valid() && from.Valid() && from.data == old(from.data)
      ensures !fail ==> ok
      ensures ok ==> Items() == Overwrite(old(Items()), old(from.Items())) && from.size == 0
      ensures !ok ==> size == 0 && capacity == 0 && from.size == old(from.size)
    {
      ok := Expand(from.size, fail);
      if ok {
        Copy(data, 0, from.data, 0, from.size);
        from.size := 0;
      }
    }

    /** vector_join as documented: this vector's items followed by the
      * other vector's, which is left empty and owns nothing of them.
      */
    method Join(from: Vector<T, K>, fail: bool) returns (ok: bool)
      requires Valid() && from.Valid() && from != this && from.data != data
      requires size + from.size <= MAX_ITEMS
      modifies this, data, from
      ensures Valid() && from.Valid() && from.data == old(from.data)
      ensures !fail ==> ok
      ensures ok ==> Items() == old(Items()) + old(from.Items()) && from.size == 0
      ensures !ok ==> size == 0 && capacity == 0 && from.size == old(from.size)
    {
      ok := Expand(from.size, fail);
      if ok {
        Copy(data, size, from.data, 0, from.size);
        size := size + from.size;
        from.size := 0;
      }
    }

    /** The vector has an item comparator. */
    predicate HasCompare()
      reads this
    {
      vmt.Some? && vmt.value.compare.Some?
    }

    /** The item comparator. */
    function Cmp(): (T, T) -> int
      reads this
      requires HasCompare()
    {
      vmt.value.compare.value
    }

    /** vector_qsort: without a comparator nothing happens and the answer
      * is false; otherwise the items are put in order (the comparator must
      * be a consistent order on them).
      */
    method QSort() returns (ok: bool)
      requires Valid()
      requires HasCompare() ==> Consistent(Cmp(), Items())
      modifies data
      ensures Valid() && ok == HasCompare()
      ensures multiset(Items()) == multiset(old(Items()))
      ensures ok ==> Sorted(Items(), Cmp())
      ensures !ok ==> Items() == old(Items())
    {
      if vmt.None? || vmt.value.compare.None? {
        return false;
      }
      if size > 0 {
        assert data[0..size] == Items();
        SortRange(data, 0, size - 1, Cmp(), Items());
        assert data[..][0..size] == Items();
      }
      return true;
    }

    /** vector_insert_sorted: -1 without a comparator; otherwise the
      * binary search picks a slot m, item is inserted there and m is the
      * answer, even when the insertion itself fails for want of memory.
      */
    method InsertSorted(item: T, fail: bool) returns (m: int)
      requires Valid() && size < MAX_ITEMS
      modifies this, data
      ensures Valid() && vmt == old(vmt) && freed == old(freed)
      ensures !HasCompare() ==> m == -1 && Items() == old(Items())
      ensures HasCompare() ==> 0 <= m <= old(size)
      ensures HasCompare() && Partitioned(old(Items()), item, Cmp()) ==>
                (forall k | 0 <= k < m :: Cmp()(old(Items())[k], item) <= 0)
                && (forall k | m <= k < old(size) :: Cmp()(old(Items())[k], item) >= 0)
      ensures HasCompare() && !fail ==> Items() == old(Items())[..m] + [item] + old(Items())[m..]
      ensures HasCompare() ==> Items() == old(Items())[..m] + [item] + old(Items())[m..] || size == 0
      ensures HasCompare() && Sorted(old(Items()), Cmp()) && Consistent(Cmp(), old(Items()) + [item]) ==>
                Sorted(Items(), Cmp())
    {
      if vmt.None? || vmt.value.compare.None? {
        return -1;
      }
      ghost var s := Items();
      m := SortedSlot(Items(), item, Cmp());
      if Sorted(s, Cmp()) && Consistent(Cmp(), s + [item]) {
        SortedPartitioned(s, item, Cmp());
        InsertKeepsSorted(s, m, item, Cmp());
      }
      var _ := InsertOne(m, item, fail);
    }

    /** vector_find_sorted: the index of an item comparing equal to item,
      * or -1, which on ordered items means there is none.
      */
    method FindSorted(item: T) returns (r: int)
      requires Valid()
      ensures -1 <= r < size
      ensures r >= 0 ==> HasCompare() && Cmp()(Items()[r], item) == 0
      ensures HasCompare() && r < 0 && Partitioned(Items(), item, Cmp()) ==>
                forall k | 0 <= k < size :: Cmp()(Items()[k], item) != 0
      ensures HasCompare() && r < 0 && Sorted(Items(), Cmp()) && Consistent(Cmp(), Items() + [item]) ==>
                forall k | 0 <= k < size :: Cmp()(Items()[k], item) != 0
      ensures !HasCompare() ==> r == -1
    {
      if vmt.None? || vmt.value.compare.None? {
        return -1;
      }
      if Sorted(Items(), Cmp()) && Consistent(Cmp(), Items() + [item]) {
        SortedPartitioned(Items(), item, Cmp());
      }
      r := BinarySearch(Items(), item, Cmp());
    }

    /** vector_find_sorted_key: the same search by key, with compare_key. */
    method FindSortedKey(key: K) returns (r: int)
      requires Valid()
      ensures -1 <= r < size
      ensures r >= 0 ==> vmt.Some? && vmt.value.compareKey.Some? && vmt.value.compareKey.value(Items()[r], key) == 0
      ensures vmt.Some? && vmt.value.compareKey.Some? && r < 0 && Partitioned(Items(), key, vmt.value.compareKey.value) ==>
                forall k | 0 <= k < size :: vmt.value.compareKey.value(Items()[k], key) != 0
      ensures vmt.None? || vmt.value.compareKey.None? ==> r == -1
    {
      if vmt.None? || vmt.value.compareKey.None? {
        return -1;
      }
      r := BinarySearch(Items(), key, vmt.value.compareKey.value);
    }
  }
}
