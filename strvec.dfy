/* The sortable vector of strings of libs/useful/strvec.c: a vector whose
 * items are strings (a NULL item is None), released with str_free and
 * ordered by str_cmp.
 *
 * An item is the view str_cmp reads of a string (its identity, block,
 * offset, size, owned size and bytes), so that the vector's comparator is
 * a plain function of its items. The comparator is the corrected str_cmp,
 * Str.Compare; str_cmp as written is not an order on borrowed strings.
 */
module Strvec {
  import opened Useful
  import opened Str
  import opened Vector
  import Vectors = Vector

  type Item = Option<StrView>

  /** vector_str_vmt: free is str_free, compare and compare_key are both
    * str_cmp.
    */
  const StrVmt: Vmt<Item, Item> := Vmt(true, (x: Item) => x.None?, Some(Compare), Some(Compare))

  /** The strings among the items show the same bytes wherever Compare
    * takes its shortcut (the same string, or one shared block).
    */
  ghost predicate AllCoherent(s: seq<Item>)
  {
    forall i, j | 0 <= i < |s| && 0 <= j < |s| && s[i].Some? && s[j].Some? :: Coherent(s[i].value, s[j].value)
  }

  /** On coherent items the string order compares NULL first and strings
    * by byte order of their contents.
    */
  lemma CompareOnItems(s: seq<Item>, a: Item, b: Item)
    requires AllCoherent(s) && a in s && b in s
    ensures a.None? ==> Compare(a, b) == if b.None? then 0 else -1
    ensures a.Some? && b.None? ==> Compare(a, b) == 1
    ensures a.Some? && b.Some? ==> Compare(a, b) == Order(a.value.bytes, b.value.bytes)
  {
    if a.Some? && b.Some? {
      var i :| 0 <= i < |s| && s[i] == a;
      var j :| 0 <= j < |s| && s[j] == b;
      CompareIsOrder(a.value, b.value);
    }
  }

  /** On coherent items str_cmp is a consistent order, so vector_qsort
    * and the sorted operations work as their contracts promise.
    */
  lemma CompareConsistent(s: seq<Item>)
    requires AllCoherent(s)
    ensures Consistent(Compare, s)
  {
    forall x | x in s
      ensures Compare(x, x) == 0
    {
    }
    forall x, y | x in s && y in s
      ensures Compare(x, y) < 0 <==> Compare(y, x) > 0
    {
      if x.Some? && y.Some? {
        OrderAntisymmetric(x.value.bytes, y.value.bytes);
      }
    }
    forall x, y, z | x in s && y in s && z in s && Le(Compare, x, y) && Le(Compare, y, z)
      ensures Le(Compare, x, z)
    {
      CompareOnItems(s, x, y);
      CompareOnItems(s, y, z);
      CompareOnItems(s, x, z);
      if x.Some? && y.Some? && z.Some? {
        OrderTotal(x.value.bytes, y.value.bytes, z.value.bytes);
      }
    }
  }

  /** vector_str_init: an empty string vector with room for size items
    * unless the allocation fails.
    */
  method Init(size: int, fail: bool) returns (v: Vector<Item, Item>)
    requires size <= MAX_ITEMS
    ensures fresh(v) && fresh(v.data)
    ensures v.Valid() && v.size == 0 && v.vmt == Some(StrVmt) && v.freed == []
    ensures v.capacity == if fail then 0 else Vectors.AllocSize(size)
  {
    v := new Vector.Init(size, fail);
    v.vmt := Some(StrVmt);
  }

  /** vector_str_new: the same on a freshly allocated vector, or NULL
    * when that allocation fails.
    */
  method New(size: int, mallocFails: bool, fail: bool) returns (v: Option<Vector<Item, Item>>)
    requires size <= MAX_ITEMS
    ensures mallocFails <==> v.None?
    ensures v.Some? ==> fresh(v.value) && v.value.Valid() && v.value.size == 0 && v.value.vmt == Some(StrVmt)
    ensures v.Some? ==> v.value.capacity == if fail then 0 else Vectors.AllocSize(size)
  {
    if mallocFails {
      v := None;
    } else {
      var w := Init(size, fail);
      v := Some(w);
    }
  }

  /** A string vector always has a comparator, so vector_qsort answers
    * true, and the items end up in string order.
    */
  method Sort(v: Vector<Item, Item>) returns (ok: bool)
    requires v.Valid() && v.vmt == Some(StrVmt) && AllCoherent(v.Items())
    modifies v.data
    ensures v.Valid() && ok
    ensures multiset(v.Items()) == multiset(old(v.Items()))
    ensures Sorted(v.Items(), Compare)
  {
    CompareConsistent(v.Items());
    ok := v.QSort();
  }

  /** vector_insert_sorted on a string vector never answers -1, and it
    * keeps string order.
    */
  method InsertSorted(v: Vector<Item, Item>, item: Item, fail: bool) returns (m: int)
    requires v.Valid() && v.vmt == Some(StrVmt) && v.size < MAX_ITEMS
    requires AllCoherent(v.Items() + [item])
    modifies v, v.data
    ensures v.Valid() && v.vmt == Some(StrVmt)
    ensures 0 <= m <= old(v.size)
    ensures !fail ==> v.Items() == old(v.Items())[..m] + [item] + old(v.Items())[m..]
    ensures Sorted(old(v.Items()), Compare) ==> Sorted(v.Items(), Compare)
  {
    CompareConsistent(v.Items() + [item]);
    m := v.InsertSorted(item, fail);
  }

  /** What a binary search answer means on ordered coherent strings. */
  lemma SearchMeans(s: seq<Item>, item: StrView, r: int)
    requires AllCoherent(s + [Some(item)]) && Sorted(s, Compare) && -1 <= r < |s|
    requires r >= 0 ==> Compare(s[r], Some(item)) == 0
    requires r < 0 && Partitioned(s, Some(item), Compare) ==> forall k | 0 <= k < |s| :: Compare(s[k], Some(item)) != 0
    ensures r >= 0 ==> s[r].Some? && s[r].value.bytes == item.bytes
    ensures r < 0 <==> forall k | 0 <= k < |s| :: s[k].None? || s[k].value.bytes != item.bytes
  {
    var t := s + [Some(item)];
    assert forall k | 0 <= k < |s| :: t[k] == s[k];
    CompareConsistent(t);
    SortedPartitioned(s, Some(item), Compare);
    if r >= 0 {
      CompareOnItems(t, t[r], Some(item));
      OrderZero(s[r].value.bytes, item.bytes);
    } else {
      forall k | 0 <= k < |s| && s[k].Some?
        ensures s[k].value.bytes != item.bytes
      {
        CompareOnItems(t, t[k], Some(item));
        OrderZero(s[k].value.bytes, item.bytes);
      }
    }
  }

  /** vector_find_sorted on ordered coherent strings: an index holding the
    * same bytes as item, or -1 when no item holds them.
    */
  method Find(v: Vector<Item, Item>, item: StrView) returns (r: int)
    requires v.Valid() && v.vmt == Some(StrVmt)
    requires AllCoherent(v.Items() + [Some(item)]) && Sorted(v.Items(), Compare)
    ensures -1 <= r < v.size
    ensures r >= 0 ==> v.Items()[r].Some? && v.Items()[r].value.bytes == item.bytes
    ensures r < 0 <==> forall k | 0 <= k < v.size :: v.Items()[k].None? || v.Items()[k].value.bytes != item.bytes
  {
    r := v.FindSorted(Some(item));
    SearchMeans(v.Items(), item, r);
  }
}
