/* Code atoms (libs/cooker/atom-code.c): an atom standing for a series of
 * virtual processor instructions. It holds nothing yet, and renders as
 * the empty string.
 */
module AtomCode {
  import opened Useful
  import opened Str
  import opened Atom

  /** atom_code_init: a code atom, not adjoined, with the code table. It
    * always answers true.
    */
  method Init(a: Atom) returns (ok: bool)
    modifies a
    ensures ok
    ensures a.Valid() && a.kind == Code && !a.adjoin && a.vmt == Some(CodeVmt) && a.text == old(a.text)
  {
    a.Init(Code);
    a.vmt := Some(CodeVmt);
    ok := true;
  }

  /** atom_code_new: a fresh code atom, or NULL exactly when malloc
    * fails.
    */
  method New(mallocFails: bool) returns (r: Option<Atom>)
    ensures r.None? <==> mallocFails
    ensures r.Some? ==> fresh(r.value) && r.value.Valid()
    ensures r.Some? ==> r.value.kind == Code && r.value.vmt == Some(CodeVmt) && !r.value.adjoin
  {
    if mallocFails {
      r := None;
    } else {
      var a := new Atom.Alloc();
      var ok := Init(a);
      if !ok {
        r := None;
      } else {
        r := Some(a);
      }
    }
  }

  /** atom_code_text: str_init on the output, which becomes the empty
    * string without giving back what it held: the reference table is
    * not touched, so a handle the output held keeps its count.
    */
  method Render(a: Atom, out: Str, pool: RefPool)
    requires out.ValidIn(pool)
    modifies out
    ensures out.ValidIn(pool) && out.Bytes() == [] && out.owned == 0 && out.refcnt == REFCNT_UNUSED
    ensures old(out.owned) != 0 ==> pool.Get(old(out.refcnt)) == old(pool.Get(out.refcnt))
  {
    out.Init();
  }
}
