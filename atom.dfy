/* Atoms, the pieces a Cook list value is made of (libs/cooker/atom.c):
 * a text atom or a code atom, with a flag saying whether it is to be
 * adjoined with the next one.
 *
 * One class stands for atom_t and the two structures that extend it: a
 * text atom's string (the `text` member of atom_text_t) is the field
 * `text`, null for an atom that has none. The virtual method table is
 * named by which table it is, None being the NULL pointer.
 */
module Atom {
  import opened Useful
  import opened Str
  import opened Vector

  /** atom_type_t. */
  datatype Kind = Text | Code

  /** The two atom_vmt_t tables: atom_text_vmt and atom_code_vmt. */
  datatype VmtId = TextVmt | CodeVmt

  class Atom {
    var vmt: Option<VmtId>
    var kind: Kind
    var adjoin: bool
    /** The string of a text atom. */
    var text: Str?

    /** A table, once set, belongs to an atom of its own kind, and a text
      * atom has its string.
      */
    ghost predicate Valid()
      reads this
    {
      match vmt
      case None => true
      case Some(TextVmt) => kind == Text && text != null
      case Some(CodeVmt) => kind == Code
    }

    /** malloc of an atom: the model starts it zeroed and without a
      * string; every caller initialises it at once.
      */
    constructor Alloc()
      ensures vmt.None? && kind == Text && !adjoin && text == null
    {
      vmt, kind, adjoin, text := None, Text, false, null;
    }

    /** atom_init: zero the atom (no table, not adjoined), then set its
      * type. The string of an extended atom is not part of atom_t and is
      * left alone.
      */
    method Init(k: Kind)
      modifies this
      ensures vmt.None? && kind == k && !adjoin && text == old(text)
      ensures Valid()
    {
      vmt := None;
      adjoin := false;
      kind := k;
    }

    /** atom_done as evidently intended: dispatch on the table and release
      * what the atom owns, which is the string of a text atom.
      */
    method Done(pool: RefPool)
      requires Valid() && vmt.Some?
      requires vmt == Some(TextVmt) ==> text.ValidIn(pool)
      modifies if vmt == Some(TextVmt) then {text, pool} else {}
      ensures vmt == Some(TextVmt) ==>
        text.ValidIn(pool) && text.Bytes() == [] && text.owned == 0 &&
        pool.counts == DoneCounts(old(pool.counts), old(text.owned), old(text.refcnt))
    {
      if vmt == Some(TextVmt) {
        ghost var _ := text.Done(pool);
      }
    }
  }

  /** atom_new: a fresh atom as atom_init leaves it, or NULL when malloc
    * fails.
    */
  method New(k: Kind, mallocFails: bool) returns (r: Option<Atom>)
    ensures r.None? <==> mallocFails
    ensures r.Some? ==> fresh(r.value) && r.value.Valid()
    ensures r.Some? ==> r.value.vmt.None? && r.value.kind == k && !r.value.adjoin && r.value.text == null
  {
    if mallocFails {
      r := None;
    } else {
      var a := new Atom.Alloc();
      a.Init(k);
      r := Some(a);
    }
  }

  /** atom_new_copy as written: only the type and the adjoin flag are
    * copied. The copy has no table and, for a text atom, no text.
    */
  method NewCopyAsWritten(src: Atom, mallocFails: bool) returns (r: Option<Atom>)
    ensures r.None? <==> mallocFails
    ensures r.Some? ==> fresh(r.value) && r.value.Valid()
    ensures r.Some? ==> r.value.kind == src.kind && r.value.adjoin == src.adjoin
    ensures r.Some? ==> r.value.vmt.None? && r.value.text == null
  {
    if mallocFails {
      r := None;
    } else {
      var a := new Atom.Alloc();
      a.Init(src.kind);
      a.adjoin := src.adjoin;
      r := Some(a);
    }
  }

  /** atom_new_copy as its documentation promises, an independent copy:
    * the same type, flag and table, and for a text atom a string holding
    * the same bytes (shared the way str_set shares them).
    */
  method NewCopy(src: Atom, pool: RefPool, mallocFails: bool) returns (r: Option<Atom>)
    requires src.Valid() && (src.text != null ==> src.text.ValidIn(pool))
    modifies pool, src.text
    ensures r.None? <==> mallocFails
    ensures r.Some? ==> fresh(r.value) && r.value.Valid()
    ensures r.Some? ==> r.value.kind == src.kind && r.value.adjoin == src.adjoin && r.value.vmt == src.vmt
    ensures r.Some? ==> (r.value.text == null <==> src.text == null)
    ensures r.Some? && src.text != null ==>
      fresh(r.value.text) && r.value.text.ValidIn(pool) && src.text.ValidIn(pool) &&
      r.value.text.Bytes() == src.text.Bytes() == old(src.text.Bytes())
  {
    if mallocFails {
      r := None;
    } else {
      var a := new Atom.Alloc();
      a.Init(src.kind);
      a.adjoin := src.adjoin;
      a.vmt := src.vmt;
      if src.text != null {
        a.text := SharedCopy(src.text, pool);
      }
      r := Some(a);
    }
  }

  /** A new string sharing the bytes of src, as str_init_copy gives. */
  method SharedCopy(src: Str, pool: RefPool) returns (s: Str)
    requires src.ValidIn(pool)
    modifies pool, src
    ensures fresh(s) && s.ValidIn(pool) && src.ValidIn(pool)
    ensures s.Bytes() == src.Bytes() == old(src.Bytes())
  {
    s := new Str.New();
    var _ := s.InitCopy(src, pool);
  }

  /* ---------------------------------------------------------------- */
  /* atom_done as written                                              */

  /** How a call can end: it returns, an assert stops it, or it is still
    * calling itself when the allowed depth runs out.
    */
  datatype Outcome = Returned | AssertFails | TooDeep

  /** atom_done as written, allowed `depth` nested calls. It asserts a
    * table, then calls the table's done on the same atom; atom_text_done
    * and atom_code_done both begin by calling atom_done on that atom
    * again, and only what follows that call (str_done for a text atom)
    * could let them return.
    */
  function DoneAsWritten(vmt: Option<VmtId>, depth: nat): (r: Outcome)
    ensures r != Returned
    ensures r == AssertFails <==> vmt.None?
  {
    if vmt.None? then AssertFails
    else if depth == 0 then TooDeep
    else DoneAsWritten(vmt, depth - 1)
  }

  /** atom_done on an atom with a table never returns, however deep the
    * stack is allowed to grow: the dispatch calls itself forever.
    */
  lemma {:induction false} DoneNeverReturns(vmt: Option<VmtId>, depth: nat)
    requires vmt.Some?
    ensures DoneAsWritten(vmt, depth) == TooDeep
  {
    if depth > 0 {
      DoneNeverReturns(vmt, depth - 1);
    }
  }

  /** The atom_new_copy defect shown on a text atom: the copy has lost
    * its text and its table, so atom_done's assert stops on it, while the
    * corrected copy reads the same text.
    */
  method CopyLosesText(pool: RefPool) returns (original: Atom, asWritten: Atom, corrected: Atom)
    modifies pool
    ensures original.vmt == Some(TextVmt) && original.text != null && original.text.Valid() && original.text.Bytes() == ['a']
    ensures asWritten.text == null && asWritten.vmt.None?
    ensures forall depth: nat :: DoneAsWritten(asWritten.vmt, depth) == AssertFails
    ensures corrected.vmt == Some(TextVmt) && corrected.text != null && corrected.text.Valid() && corrected.text.Bytes() == ['a']
  {
    var s := new Str.Literal(['a']);
    original := new Atom.Alloc();
    original.Init(Text);
    original.vmt := Some(TextVmt);
    original.text := s;
    var w := NewCopyAsWritten(original, false);
    asWritten := w.value;
    var c := NewCopy(original, pool, false);
    corrected := c.value;
  }

  /* ---------------------------------------------------------------- */
  /* Vectors of atoms                                                  */

  /** vector_atom_vmt: items are released with atom_free; there is no
    * comparator of either kind.
    */
  const AtomVmt: Vmt<Atom?, Atom?> := Vmt(true, (a: Atom?) => a == null, None, None)

  /** vector_atom_init: an empty vector whose removed items are freed. */
  method VectorInit(fail: bool) returns (v: Vector<Atom?, Atom?>)
    ensures fresh(v) && v.Valid() && v.size == 0 && v.vmt == Some(AtomVmt) && v.freed == []
    ensures v.Frees() && !v.HasCompare()
  {
    v := new Vector.Init(0, fail);
    v.vmt := Some(AtomVmt);
  }

  /** An atom vector is not sortable: vector_qsort answers false,
    * vector_insert_sorted and vector_find_sorted answer -1, and the items
    * stay as they were.
    */
  method Unsortable(v: Vector<Atom?, Atom?>, item: Atom?) returns (sorted: bool, inserted: int, found: int)
    requires v.Valid() && v.vmt == Some(AtomVmt) && v.size < MAX_ITEMS
    modifies v, v.data
    ensures !sorted && inserted == -1 && found == -1
    ensures v.Valid() && v.Items() == old(v.Items())
  {
    sorted := v.QSort();
    inserted := v.InsertSorted(item, false);
    found := v.FindSorted(item);
  }
}
