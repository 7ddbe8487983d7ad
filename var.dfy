/* Cook variables (libs/cooker/var.c): a variable has a name, a value that
 * is a list of atoms, and fields, a vector of child variables kept in
 * order of their names. The root of the tree is a lazily initialised
 * singleton.
 *
 * A field item is the child together with the view str_cmp reads of its
 * name (the vector's comparators are plain functions of their items); a
 * NULL item is None. The comparators use the corrected str_cmp,
 * Str.Compare.
 */
module Var {
  import opened Useful
  import opened Str
  import opened Vector
  import Atom
  import Strvec

  /** A child variable and the view of its name. */
  datatype Field = Field(name: StrView, node: Var)

  type Item = Option<Field>

  /** What vector_find_sorted_key is given: a string, or NULL. */
  type Key = Option<StrView>

  /** The name a comparator reads of an item. The name is the first
    * member of var_t, so a NULL item gives a NULL name.
    */
  function NameOf(i: Item): (r: Key)
    ensures r.Some? <==> i.Some?
  {
    if i.None? then None else Some(i.value.name)
  }

  /** The names of the items, in order. */
  function Names(s: seq<Item>): (r: seq<Key>)
    ensures |r| == |s|
    ensures forall k | 0 <= k < |s| :: r[k] == NameOf(s[k])
  {
    seq(|s|, k requires 0 <= k < |s| => NameOf(s[k]))
  }

  /** vector_var_compare: str_cmp on the two names. */
  function FieldCompare(a: Item, b: Item): int
  {
    Compare(NameOf(a), NameOf(b))
  }

  /** vector_var_compare_key: str_cmp of the item's name with the key. */
  function FieldCompareKey(a: Item, key: Key): int
  {
    Compare(NameOf(a), key)
  }

  /** vector_var_vmt: children are freed with var_free and ordered by
    * name.
    */
  const FieldVmt: Vmt<Item, Key> := Vmt(true, (x: Item) => x.None?, Some(FieldCompare), Some(FieldCompareKey))

  /** The names show the same bytes wherever str_cmp takes its shortcut. */
  ghost predicate NamesCoherent(s: seq<Item>)
  {
    Strvec.AllCoherent(Names(s))
  }

  /* ---------------------------------------------------------------- */
  /* The fields order                                                  */

  lemma NameIn(s: seq<Item>, x: Item)
    requires x in s
    ensures NameOf(x) in Names(s)
  {
    var k :| 0 <= k < |s| && s[k] == x;
    assert Names(s)[k] == NameOf(x);
  }

  /** With coherent names the by-name comparator is a consistent order,
    * so the vector's sort and sorted insert work as their contracts say.
    */
  lemma FieldConsistent(s: seq<Item>)
    requires NamesCoherent(s)
    ensures Consistent(FieldCompare, s)
  {
    var names := Names(s);
    Strvec.CompareConsistent(names);
    forall x | x in s
      ensures FieldCompare(x, x) == 0
    {
      NameIn(s, x);
    }
    forall x, y | x in s && y in s
      ensures FieldCompare(x, y) < 0 <==> FieldCompare(y, x) > 0
    {
      NameIn(s, x);
      NameIn(s, y);
    }
    forall x, y, z | x in s && y in s && z in s && Le(FieldCompare, x, y) && Le(FieldCompare, y, z)
      ensures Le(FieldCompare, x, z)
    {
      NameIn(s, x);
      NameIn(s, y);
      NameIn(s, z);
      assert Le(Compare, NameOf(x), NameOf(y)) && Le(Compare, NameOf(y), NameOf(z));
    }
  }

  /** Fields in name order split around any coherent key, so binary
    * search with vector_var_compare_key is sound.
    */
  lemma FieldsPartitioned(s: seq<Item>, key: StrView)
    requires Sorted(s, FieldCompare)
    requires Strvec.AllCoherent(Names(s) + [Some(key)])
    ensures Partitioned(s, Some(key), FieldCompareKey)
    ensures Partitioned(Names(s), Some(key), Compare)
  {
    var names := Names(s);
    Strvec.CompareConsistent(names + [Some(key)]);
    assert Sorted(names, Compare) by {
      forall i, j | 0 <= i < j < |names|
        ensures Compare(names[i], names[j]) <= 0
      {
        assert FieldCompare(s[i], s[j]) <= 0;
      }
    }
    SortedPartitioned(names, Some(key), Compare);
    forall i, j | 0 <= i < j < |s|
      ensures FieldCompareKey(s[j], Some(key)) < 0 ==> FieldCompareKey(s[i], Some(key)) < 0
      ensures FieldCompareKey(s[i], Some(key)) > 0 ==> FieldCompareKey(s[j], Some(key)) > 0
    {
      assert names[i] == NameOf(s[i]) && names[j] == NameOf(s[j]);
    }
  }

  /** vector_insert_sorted on a fields vector: the child goes in at the
    * slot the search picks, and name order is kept.
    */
  method InsertField(fields: Vector<Item, Key>, item: Item, fail: bool) returns (m: int)
    requires fields.Valid() && fields.vmt == Some(FieldVmt) && fields.size < MAX_ITEMS
    requires NamesCoherent(fields.Items() + [item])
    modifies fields, fields.data
    ensures fields.Valid() && fields.vmt == Some(FieldVmt) && fields.freed == old(fields.freed)
    ensures 0 <= m <= old(fields.size)
    ensures !fail ==> fields.Items() == old(fields.Items())[..m] + [item] + old(fields.Items())[m..]
    ensures Sorted(old(fields.Items()), FieldCompare) ==> Sorted(fields.Items(), FieldCompare)
  {
    FieldConsistent(fields.Items() + [item]);
    m := fields.InsertSorted(item, fail);
  }

  /** vector_find_sorted_key on fields in name order: the index of a
    * child whose name has the key's bytes, or -1 exactly when no child
    * has that name.
    */
  method FindField(fields: Vector<Item, Key>, key: StrView) returns (r: int)
    requires fields.Valid() && fields.vmt == Some(FieldVmt)
    requires Sorted(fields.Items(), FieldCompare)
    requires Strvec.AllCoherent(Names(fields.Items()) + [Some(key)])
    ensures -1 <= r < fields.size
    ensures r >= 0 ==> fields.Items()[r].Some? && fields.Items()[r].value.name.bytes == key.bytes
    ensures r < 0 <==> forall k | 0 <= k < fields.size ::
              fields.Items()[k].None? || fields.Items()[k].value.name.bytes != key.bytes
  {
    var s := fields.Items();
    FieldsPartitioned(s, key);
    r := fields.FindSortedKey(Some(key));
    Strvec.SearchMeans(Names(s), key, r);
  }

  /* ---------------------------------------------------------------- */
  /* Variables                                                         */

  class Var {
    var name: Str
    var value: Vector<Atom.Atom?, Atom.Atom?>
    var fields: Vector<Item, Key>

    /** An initialised variable: its parts are valid and its vectors
      * carry the atom and the variable tables.
      */
    ghost predicate Valid()
      reads this, name, value, fields
    {
      name.Valid() && value.Valid() && fields.Valid() &&
      value.vmt == Some(Atom.AtomVmt) && fields.vmt == Some(FieldVmt)
    }

    /** A variable as static storage starts: every member zero. */
    ghost predicate Zero()
      reads this, name, value, fields
    {
      name.data == null && name.ofs == 0 && name.size == 0 && name.owned == 0 &&
      name.refcnt == REFCNT_UNUSED &&
      value.size == 0 && value.capacity == 0 && value.vmt.None? &&
      fields.size == 0 && fields.capacity == 0 && fields.vmt.None?
    }

    /** Static storage for a variable, all zero. */
    constructor Static()
      ensures Zero() && name.Valid() && value.Valid() && fields.Valid()
      ensures fresh(name) && fresh(value) && fresh(fields)
    {
      name := new Str.New();
      value := new Vector.Init(0, true);
      fields := new Vector.Init(0, true);
    }

    /** var_init: the name reads the bytes of `from` (str_init_copy), the
      * value is an empty atom vector and the fields an empty variable
      * vector.
      */
    method Init(from: Str, pool: RefPool, fail: bool)
      requires name.ValidIn(pool) && from.ValidIn(pool) && name != from
      modifies this, name, from, pool
      ensures name == old(name) && Valid() && name.ValidIn(pool) && from.ValidIn(pool)
      ensures name.Bytes() == from.Bytes() == old(from.Bytes())
      ensures name.data == from.data
      ensures from.data == old(from.data) && from.ofs == old(from.ofs) && from.size == old(from.size)
      ensures from.owned == old(from.owned) && (from.owned == 0 ==> from.refcnt == old(from.refcnt))
      ensures value.size == 0 && fields.size == 0
      ensures fresh(value) && fresh(fields)
    {
      var _ := name.InitCopy(from, pool);
      value := Atom.VectorInit(fail);
      fields := VectorInit(fail);
    }

    /** var_done: release the name, then every atom of the value and
      * every child (handed to atom_free and var_free) with the vectors'
      * blocks.
      */
    method Done(pool: RefPool)
      requires Valid() && name.ValidIn(pool)
      modifies name, value, fields, pool
      ensures Valid() && name.ValidIn(pool) && name.Bytes() == []
      ensures pool.counts == DoneCounts(old(pool.counts), old(name.owned), old(name.refcnt))
      ensures value.size == 0 && value.capacity == 0 && value.freed == old(value.freed) + old(value.Items())
      ensures fields.size == 0 && fields.capacity == 0 && fields.freed == old(fields.freed) + old(fields.Items())
    {
      ghost var _ := name.Done(pool);
      value.Done();
      fields.Done();
    }

    /** memset of the variable to zero. The stale block pointers are
      * dropped; nothing is released.
      */
    method Clear()
      requires name.Valid() && value.Valid() && fields.Valid()
      modifies name, value, fields
      ensures Zero() && name.Valid() && value.Valid() && fields.Valid()
    {
      name.data, name.ofs, name.size, name.owned, name.refcnt := null, 0, 0, 0, REFCNT_UNUSED;
      ZeroVector(value);
      ZeroVector(fields);
    }
  }

  /** memset of a vector to zero. */
  method ZeroVector<T(0), K>(v: Vector<T, K>)
    modifies v
    ensures v.Valid() && v.size == 0 && v.capacity == 0 && v.vmt.None? && v.freed == old(v.freed)
  {
    v.data := new T[0];
    v.size, v.capacity, v.vmt := 0, 0, None;
  }

  /** vector_var_init: an empty vector of variables, freed with var_free
    * and ordered by name.
    */
  method VectorInit(fail: bool) returns (v: Vector<Item, Key>)
    ensures fresh(v) && v.Valid() && v.size == 0 && v.vmt == Some(FieldVmt) && v.freed == []
  {
    v := new Vector.Init(0, fail);
    v.vmt := Some(FieldVmt);
  }

  /* ---------------------------------------------------------------- */
  /* The root context                                                  */

  /** The static root variable and the literal "" it is named after. */
  class Root {
    var root: Var
    const rootName: Str

    /** The root is initialised exactly when its name has a block; until
      * then it is all zero. Its name is always empty.
      */
    ghost predicate Valid()
      reads this, root, root.name, root.value, root.fields, rootName
    {
      rootName.Valid() && rootName.owned == 0 && rootName.data != null &&
      rootName.size == 0 && rootName.refcnt == REFCNT_UNUSED && root.name != rootName &&
      root.name.size == 0 &&
      root.name.Valid() && root.value.Valid() && root.fields.Valid() &&
      (root.name.data == null ==> root.Zero()) &&
      (root.name.data != null ==> root.Valid())
    }

    constructor ()
      ensures Valid() && root.name.data == null
    {
      root := new Var.Static();
      rootName := new Str.Literal([]);
    }

    /** var_get_root_ctx: the same variable on every call, initialised
      * with the empty name when (and only when) its name has no block.
      */
    method Get(pool: RefPool, fail: bool) returns (v: Var)
      requires Valid() && root.name.ValidIn(pool)
      modifies root, root.name, rootName, pool
      ensures Valid() && v == root && root == old(root) && root.name.data != null
      ensures root.name.Bytes() == []
      ensures old(root.name.data) == null ==> v.value.size == 0 && v.fields.size == 0
      ensures old(root.name.data) != null ==>
        root.name.data == old(root.name.data) && root.value == old(root.value) &&
        root.fields == old(root.fields) && pool.counts == old(pool.counts)
    {
      if root.name.data == null {
        root.Init(rootName, pool, fail);
      }
      v := root;
    }

    /** var_done_root_ctx: tear the root down if it was initialised, then
      * zero it, so that the next Get initialises it again.
      */
    method DoneRoot(pool: RefPool)
      requires Valid() && root.name.ValidIn(pool)
      modifies root.name, root.value, root.fields, pool
      ensures Valid() && root.name.data == null && root.Zero()
      ensures old(root.name.data) == null ==> pool.counts == old(pool.counts)
      ensures old(root.name.data) != null ==>
        pool.counts == DoneCounts(old(pool.counts), old(root.name.owned), old(root.name.refcnt))
    {
      if root.name.data != null {
        root.Done(pool);
      }
      root.Clear();
    }
  }
}
