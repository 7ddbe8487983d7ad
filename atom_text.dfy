/* Text atoms (libs/cooker/atom-text.c): an atom holding one string. Its
 * table is atom_text_vmt; rendering the atom gives its string.
 */
module AtomText {
  import opened Useful
  import opened Str
  import opened Atom

  /** atom_text_init: a text atom, not adjoined, with the text table,
    * whose string now reads the bytes of `text` as str_set leaves them
    * (a borrowed text is aliased, an owned one shared). The answer is
    * str_set's, which is always true.
    */
  method Init(a: Atom, text: Str, pool: RefPool) returns (ok: bool)
    requires a.text != null && a.text != text
    requires a.text.ValidIn(pool) && text.ValidIn(pool)
    modifies a, a.text, text, pool
    ensures ok
    ensures a.Valid() && a.kind == Text && !a.adjoin && a.vmt == Some(TextVmt) && a.text == old(a.text)
    ensures a.text.ValidIn(pool) && text.ValidIn(pool)
    ensures a.text.Bytes() == text.Bytes() == old(text.Bytes())
    ensures a.text.data == text.data && a.text.ofs == text.ofs && a.text.owned == text.owned
  {
    a.Init(Text);
    a.vmt := Some(TextVmt);
    ok := a.text.Set(text, pool);
  }

  /** atom_text_new: a fresh text atom reading the bytes of `text`, or
    * NULL when malloc fails (initialisation itself never fails). The
    * new atom's string starts empty.
    */
  method New(text: Str, pool: RefPool, mallocFails: bool) returns (r: Option<Atom>)
    requires text.ValidIn(pool)
    modifies text, pool
    ensures r.None? <==> mallocFails
    ensures r.Some? ==> fresh(r.value) && fresh(r.value.text)
    ensures r.Some? ==> r.value.Valid() && r.value.vmt == Some(TextVmt) && !r.value.adjoin
    ensures r.Some? ==> r.value.text.ValidIn(pool) && r.value.text.Bytes() == old(text.Bytes())
  {
    if mallocFails {
      r := None;
    } else {
      var a := new Atom.Alloc();
      a.text := new Str.New();
      var ok := Init(a, text, pool);
      if !ok {
        r := None;
      } else {
        r := Some(a);
      }
    }
  }

  /** atom_text_text: the output string is set to the atom's string, so
    * it reads the same bytes.
    */
  method Render(a: Atom, out: Str, pool: RefPool)
    requires a.text != null && a.text != out
    requires a.text.ValidIn(pool) && out.ValidIn(pool)
    modifies out, a.text, pool
    ensures out.ValidIn(pool) && a.text.ValidIn(pool)
    ensures out.Bytes() == a.text.Bytes() == old(a.text.Bytes())
  {
    var _ := out.Set(a.text, pool);
  }
}
