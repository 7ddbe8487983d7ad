/* The copy-on-write string engine of libs/useful/str.c.
 *
 * A string is a pointer into a byte block (modelled as an array and an
 * offset), a size, the number of bytes the string owns (`allocated`,
 * 0 for a borrowed string that does not own its bytes) and a handle into
 * the process-wide table of shared-buffer reference counts.
 *
 * The table is the class RefPool; its slot i holds the count for handle
 * i + 1, and handle 0 (REFCNT_UNUSED) stands for a string that is the sole
 * owner of its buffer. Allocation failure is not modelled as a heap state:
 * every allocating operation takes a `fail` flag that says whether malloc
 * and realloc return NULL on this call.
 */
module Str {
  import opened Useful
  import opened Mem

  const REFCNT_UNUSED: int := 0

  /** Sizes for which str_alloc_size neither overflows `1 << 31` nor
    * returns 0: size + 1 < 2^30.
    */
  const MAX_SIZE: int := 0x3fff_fffe

  /** The facts about fls32(n) that str_alloc_size relies on. */
  lemma FlsRange(n: int)
    requires 2 <= n <= MAX_SIZE + 1
    ensures Fls32(n) < 30
    ensures Pow2(Fls32(n)) <= n < Pow2(Fls32(n) + 1)
    ensures Fls32(n) < 5 ==> n < 32
    ensures Fls32(n) >= 5 ==> 32 < Pow2(Fls32(n) + 1)
  {
    Pow2Table();
    var f := Fls32(n);
    Fls32Brackets(n);
    if f >= 30 {
      if f > 30 {
        Pow2Monotone(30, f);
      }
    }
    if f < 5 && f + 1 < 5 {
      Pow2Monotone(f + 1, 5);
    }
    if f >= 5 {
      Pow2Monotone(5, f + 1);
    }
  }

  /** str_alloc_size: the block size for a string of `size` bytes, the
    * next power of two above size + 1 (room for the terminator), at
    * least 32; nothing for the empty string.
    */
  function AllocSize(size: int): (r: int)
    requires 0 <= size <= MAX_SIZE
    ensures size == 0 ==> r == 0
    ensures size > 0 ==> 32 <= r && size + 1 < r && IsPow2(r)
    ensures size > 0 ==> r == 32 || r <= 2 * (size + 1)
  {
    if size == 0 then 0
    else
      var fls := Fls32(size + 1);
      FlsRange(size + 1);
      Pow2Table();
      if fls < 5 then 32
      else if fls < 31 then Pow2(fls + 1)
      else 0
  }

  /* ---------------------------------------------------------------- */
  /* The reference-count table                                         */

  /** The index of the first free (zero) slot, or |counts| if none. */
  function FirstFree(counts: seq<int>): (i: nat)
    ensures i <= |counts|
    ensures i < |counts| ==> counts[i] == 0
    ensures forall j :: 0 <= j < i ==> counts[j] != 0
  {
    if |counts| == 0 || counts[0] == 0 then 0
    else 1 + FirstFree(counts[1..])
  }

  /** The table size after str_newref finds no free slot. */
  function Grown(n: nat): (m: nat)
    ensures m > n
  {
    if n < 256 then 256 else 2 * n
  }

  /** The table and the handle str_newref produces: the first free slot,
    * or the first slot of the grown table, now holding 1.
    */
  function AfterNewRef(counts: seq<int>): (seq<int>, int)
  {
    var i := FirstFree(counts);
    if i < |counts| then (counts[i := 1], i + 1)
    else ((counts + seq(Grown(|counts|) - |counts|, _ => 0))[i := 1], i + 1)
  }

  ghost predicate HandleIn(counts: seq<int>, ref: int)
  {
    ref == REFCNT_UNUSED || 1 <= ref <= |counts|
  }

  /** The table and handle after str_incref on handle `ref`: a string
    * without a handle gets a fresh one counting two holders.
    */
  function AfterIncRef(counts: seq<int>, ref: int): (seq<int>, int)
    requires HandleIn(counts, ref)
  {
    if ref == REFCNT_UNUSED then
      var (c, r) := AfterNewRef(counts);
      if 1 <= r <= |c| then (c[r - 1 := 2], r) else (c, r)
    else (counts[ref - 1 := counts[ref - 1] + 1], ref)
  }

  /** The table after str_decref on handle `ref`. */
  function DecAt(counts: seq<int>, ref: int): seq<int>
    requires HandleIn(counts, ref)
  {
    if ref == REFCNT_UNUSED then counts else counts[ref - 1 := counts[ref - 1] - 1]
  }

  /** The table after str_done on a string owning `owned` bytes under
    * handle `ref`: only an owning string gives its count back.
    */
  function DoneCounts(counts: seq<int>, owned: int, ref: int): seq<int>
    requires HandleIn(counts, ref)
  {
    if owned != 0 then DecAt(counts, ref) else counts
  }

  /** str_newref hands out a slot holding 1 and leaves every other slot as
    * it was (new slots read 0); it reuses a free slot when there is one.
    */
  lemma NewRefFresh(counts: seq<int>)
    ensures 1 <= AfterNewRef(counts).1 <= |AfterNewRef(counts).0|
    ensures AfterNewRef(counts).0[AfterNewRef(counts).1 - 1] == 1
    ensures forall j :: 0 <= j < |AfterNewRef(counts).0| && j != AfterNewRef(counts).1 - 1 ==>
      AfterNewRef(counts).0[j] == if j < |counts| then counts[j] else 0
    ensures 0 in counts ==> |AfterNewRef(counts).0| == |counts|
    ensures 0 !in counts ==> |AfterNewRef(counts).0| == Grown(|counts|)
  {
    var i := FirstFree(counts);
    if 0 in counts {
      var j :| 0 <= j < |counts| && counts[j] == 0;
      assert i <= j;
    }
  }

  /** Incrementing an existing handle and decrementing it again gives the
    * table back; a fresh handle is left counting the one remaining holder.
    */
  lemma {:induction false} IncDecRestores(counts: seq<int>, ref: int)
    requires HandleIn(counts, ref)
    ensures HandleIn(AfterIncRef(counts, ref).0, AfterIncRef(counts, ref).1)
    ensures ref != REFCNT_UNUSED ==>
      DecAt(AfterIncRef(counts, ref).0, AfterIncRef(counts, ref).1) == counts
    ensures ref == REFCNT_UNUSED ==>
      var (c, r) := AfterIncRef(counts, ref);
      DecAt(c, r)[r - 1] == 1
  {
    NewRefFresh(counts);
  }

  /** The global str_ref table. */
  class RefPool {
    var counts: seq<int>

    constructor ()
      ensures counts == []
    {
      counts := [];
    }

    /** str_getref: the number of holders of handle ref; a string without
      * a handle is its buffer's only holder.
      */
    function Get(ref: int): int
      reads this
      requires HandleIn(counts, ref)
    {
      if ref == REFCNT_UNUSED then 1 else counts[ref - 1]
    }

    /** str_newref: scan for a free slot, else grow the table. */
    method NewRef() returns (ref: int)
      modifies this
      ensures (counts, ref) == AfterNewRef(old(counts))
    {
      var i := 0;
      while i < |counts|
        invariant 0 <= i <= |counts|
        invariant forall j :: 0 <= j < i ==> counts[j] != 0
      {
        if counts[i] == 0 {
          counts := counts[i := 1];
          return i + 1;
        }
        i := i + 1;
      }
      counts := counts + seq(Grown(|counts|) - |counts|, _ => 0);
      counts := counts[i := 1];
      ref := i + 1;
    }

    /** str_incref: the handle the string holds afterwards (a fresh one if
      * it had none), whose count went up by one.
      */
    method IncRef(ref: int) returns (r: int)
      requires HandleIn(counts, ref)
      modifies this
      ensures (counts, r) == AfterIncRef(old(counts), ref)
      ensures HandleIn(counts, r) && r != REFCNT_UNUSED
    {
      r := ref;
      if r == REFCNT_UNUSED {
        r := NewRef();
      }
      NewRefFresh(old(counts));
      counts := counts[r - 1 := counts[r - 1] + 1];
    }

    /** str_decref: the count left on the handle (0 for no handle). */
    method DecRef(ref: int) returns (v: int)
      requires HandleIn(counts, ref)
      modifies this
      ensures counts == DecAt(old(counts), ref)
      ensures v == if ref == REFCNT_UNUSED then 0 else counts[ref - 1]
    {
      if ref == REFCNT_UNUSED {
        return 0;
      }
      counts := counts[ref - 1 := counts[ref - 1] - 1];
      v := counts[ref - 1];
    }

    /** str_finalize: report the slots still in use, then drop the table. */
    method Finalize() returns (leaked: seq<int>)
      modifies this
      ensures counts == []
      ensures forall j :: j in leaked <==> 0 <= j < |old(counts)| && old(counts)[j] != 0
      ensures forall a, b :: 0 <= a < b < |leaked| ==> leaked[a] < leaked[b]
    {
      leaked := [];
      var ref := 0;
      while ref < |counts|
        invariant 0 <= ref <= |counts|
        invariant forall j :: j in leaked <==> 0 <= j < ref && counts[j] != 0
        invariant forall a, b :: 0 <= a < b < |leaked| ==> leaked[a] < leaked[b]
        invariant forall a :: 0 <= a < |leaked| ==> leaked[a] < ref
      {
        if counts[ref] != 0 {
          leaked := leaked + [ref];
        }
        ref := ref + 1;
      }
      counts := [];
    }
  }

  /* ---------------------------------------------------------------- */
  /* C string arguments                                                */

  /** What the C string arguments (pointer cstr + cofs, size) may be: a
    * null pointer with no explicit size, `size` readable bytes, or (size
    * negative) a NUL-terminated run.
    */
  ghost predicate CArgOk(cstr: array?<Byte>, cofs: int, size: int)
    reads cstr
  {
    if cstr == null then cofs == 0 && size <= 0
    else (0 <= cofs <= cstr.Length &&
      (size >= 0 ==> cofs + size <= cstr.Length) &&
      (size < 0 ==> NUL in cstr[cofs..]))
  }

  /** The bytes such an argument stands for ("" for a null pointer). */
  ghost function CArg(cstr: array?<Byte>, cofs: int, size: int): seq<Byte>
    reads cstr
    requires CArgOk(cstr, cofs, size)
  {
    if cstr == null then []
    else if size >= 0 then cstr[cofs..cofs + size]
    else cstr[cofs..cofs + Len(cstr[cofs..])]
  }

  /** The first n bytes of a non-null C string argument are the bytes
    * at cstr + cofs, and so is its NUL-trimmed form when that is n long.
    */
  lemma CArgPrefix(cstr: array?<Byte>, cofs: int, size: int, n: int)
    requires CArgOk(cstr, cofs, size)
    requires n == |TrimNul(CArg(cstr, cofs, size))| && n > 0
    ensures cstr != null && cofs + n <= cstr.Length
    ensures TrimNul(CArg(cstr, cofs, size)) == cstr[cofs..cofs + n]
  {
    assert TrimNul(CArg(cstr, cofs, size)) == CArg(cstr, cofs, size)[..n];
  }

  /** malloc and memcpy: a fresh block of `alloc` bytes that starts with
    * the n bytes at src + from.
    */
  method NewCopy(src: array<Byte>, from: int, n: int, alloc: int) returns (block: array<Byte>)
    requires 0 <= from && 0 <= n && from + n <= src.Length && n <= alloc
    ensures fresh(block) && block.Length == alloc
    ensures block[..n] == src[from..from + n]
  {
    block := new Byte[alloc];
    Copy(block, 0, src, from, n);
    assert block[..n] == block[0..n];
  }

  /** The bytes without their trailing NULs. */
  function TrimNul(s: seq<Byte>): (r: seq<Byte>)
    ensures r <= s
    ensures |r| == 0 || r[|r| - 1] != NUL
    ensures forall k :: |r| <= k < |s| ==> s[k] == NUL
  {
    if |s| == 0 || s[|s| - 1] != NUL then s
    else TrimNul(s[..|s| - 1])
  }

  /** Bytes without a NUL have nothing to trim. */
  lemma TrimNoNul(s: seq<Byte>)
    requires NUL !in s
    ensures TrimNul(s) == s
  {
  }

  /** str_c_detect: the size of a C string argument without its trailing
    * NULs, and the block size a pre-allocated buffer is taken to have.
    */
  method Detect(cstr: array?<Byte>, cofs: int, size: int) returns (n: int, alloc: int)
    requires CArgOk(cstr, cofs, size)
    ensures n == |TrimNul(CArg(cstr, cofs, size))|
    ensures cstr != null && size < 0 ==> n == Len(cstr[cofs..]) && alloc == n + 1
    ensures cstr == null && size < 0 ==> n == 0 && alloc == 0
    ensures size >= 0 ==> alloc == size
  {
    n := size;
    alloc := size;
    if size < 0 {
      if cstr != null {
        n := Len(cstr[cofs..]);
        alloc := n + 1;
        TrimNoNul(CArg(cstr, cofs, size));
      } else {
        n := 0;
        alloc := 0;
      }
    } else {
      while n > 0 && cstr[cofs + n - 1] == NUL
        invariant 0 <= n <= size
        invariant n > 0 ==> cstr != null
        invariant TrimNul(CArg(cstr, cofs, size)) == TrimNul(CArg(cstr, cofs, n))
      {
        assert CArg(cstr, cofs, n - 1) == CArg(cstr, cofs, n)[..n - 1];
        n := n - 1;
      }
    }
  }

  /** How str_init_substr clamps a length running past the end. */
  function SubSize(size: int, pos: int, n: int): int
  {
    if pos + n > size then size - pos else n
  }

  /** The bytes str_init_substr takes from `b`: [pos, pos + n) cut at the
    * end of b; nothing for a position outside b.
    */
  function Substring(b: seq<Byte>, pos: int, n: int): (r: seq<Byte>)
    requires n >= 0
    ensures 0 <= pos < |b| ==> |r| == if pos + n > |b| then |b| - pos else n
  {
    if 0 <= pos < |b| then b[pos..pos + SubSize(|b|, pos, n)] else []
  }

  /** A slice of a slice is a slice. */
  lemma SliceOfSlice<T>(s: seq<T>, a: int, b: int, c: int, d: int)
    requires 0 <= a <= b <= |s| && 0 <= c <= d <= b - a
    ensures s[a..b][c..d] == s[a + c..a + d]
  {
    var t := s[a..b];
    var u, v := t[c..d], s[a + c..a + d];
    forall k | 0 <= k < |u|
      ensures u[k] == v[k]
    {
      assert u[k] == t[c + k] == s[a + c + k];
    }
  }

  /** The part [pos, pos + n) of the bytes at data + ofs, as a C argument
    * of explicit size.
    */
  lemma SliceArg(data: array?<Byte>, ofs: int, size: int, pos: int, n: int)
    requires data != null && 0 <= ofs && ofs + size <= data.Length
    requires 0 <= pos < size && 0 <= n
    ensures CArgOk(data, ofs + pos, SubSize(size, pos, n))
    ensures CArg(data, ofs + pos, SubSize(size, pos, n)) == Substring(data[ofs..ofs + size], pos, n)
  {
    var m := SubSize(size, pos, n);
    SliceOfSlice(data[..], ofs, ofs + size, pos, pos + m);
  }

  /** A part of NUL-free bytes has no trailing NULs to trim. */
  lemma SliceNoNul(b: seq<Byte>, pos: int, n: int)
    requires 0 <= pos < |b| && 0 <= n
    ensures NUL !in b ==> TrimNul(Substring(b, pos, n)) == Substring(b, pos, n)
  {
    if NUL !in b {
      TrimNoNul(Substring(b, pos, n));
    }
  }

  /** How str_replace clamps the range it replaces: a negative length or
    * one running past the end means "up to the end".
    */
  function Clamp(size: int, pos: int, n: int): int
  {
    if n < 0 || pos + n > size then size - pos else n
  }

  /** What the memmove and memcpy of a splice leave in a block: s0
    * before, s1 after the bytes behind [pos, pos + n) moved to follow the
    * r replacement bytes, s2 after the replacement was copied in.
    */
  lemma SpliceBytes(s0: seq<Byte>, s1: seq<Byte>, s2: seq<Byte>, middle: seq<Byte>, pos: nat, n: nat, len: nat)
    requires |s1| == |s0| && |s2| == |s0|
    requires pos + n <= len <= |s0| && len - n + |middle| <= |s0|
    requires s1[..pos] == s0[..pos]
    requires s1[pos + |middle|..len - n + |middle|] == s0[pos + n..len]
    requires s2[..pos] == s1[..pos] && s2[pos..pos + |middle|] == middle
    requires s2[pos + |middle|..] == s1[pos + |middle|..]
    ensures s2[..len - n + |middle|] == s0[..len][..pos] + middle + s0[..len][pos + n..]
  {
    var r := |middle|;
    var want := s0[..len][..pos] + middle + s0[..len][pos + n..];
    forall k | 0 <= k < len - n + r
      ensures s2[k] == want[k]
    {
      if k < pos {
        assert s2[k] == s2[..pos][k] == s0[..pos][k];
      } else if k < pos + r {
        assert s2[k] == s2[pos..pos + r][k - pos];
      } else {
        assert s2[k] == s2[pos + r..][k - pos - r] == s1[k];
        assert s1[k] == s1[pos + r..len - n + r][k - pos - r];
      }
    }
  }

  /** The memmove of a splice: the bytes [pos + n, len) move to start at
    * pos + r; the bytes before pos stay.
    */
  method ShiftTail(a: array<Byte>, len: int, pos: int, n: int, r: int)
    requires 0 <= pos && 0 <= n && pos + n <= len <= a.Length && 0 <= r && len - n + r <= a.Length
    modifies a
    ensures a[..pos] == old(a[..pos])
    ensures a[pos + r..len - n + r] == old(a[pos + n..len])
    ensures r == n ==> a[..] == old(a[..])
  {
    if n != r {
      Move(a, pos + r, pos + n, len - pos - n);
      assert a[..pos] == old(a[..pos]);
      assert a[pos + r..len - n + r] == old(a[pos + n..len]);
    }
  }

  /** The byte moves of a splice in a block holding `len` bytes: the
    * bytes behind [pos, pos + n) move to follow the r replacement bytes
    * (memmove), those are copied in from src + from (memcpy), and the new
    * length is terminated.
    */
  method SpliceBlock(a: array<Byte>, len: int, pos: int, n: int, src: array<Byte>, from: int, r: int)
    requires 0 <= pos && 0 <= n && pos + n <= len <= a.Length && 0 <= r
    requires len - n + r < a.Length
    requires 0 <= from && from + r <= src.Length && (r > 0 ==> src != a)
    modifies a
    ensures a[..len - n + r] == old(a[..len])[..pos] + old(src[from..from + r]) + old(a[..len])[pos + n..]
    ensures a[len - n + r] == NUL
  {
    ghost var s0 := a[..];
    ghost var middle := src[from..from + r];
    ShiftTail(a, len, pos, n, r);
    ghost var s1 := a[..];
    if r > 0 {
      Copy(a, pos, src, from, r);
    }
    ghost var s2 := a[..];
    assert s1[..pos] == s0[..pos];
    SpliceBytes(s0, s1, s2, middle, pos, n, len);
    a[len - n + r] := NUL;
    assert a[..len - n + r] == s2[..len - n + r];
  }

  /* ---------------------------------------------------------------- */
  /* Strings                                                           */

  /** str_t. `data` + `ofs` is the C pointer, `owned` is the C field
    * `allocated` (the size of the block the string owns, 0 when it only
    * borrows its bytes) and `refcnt` is the handle into the RefPool.
    */
  class Str {
    var data: array?<Byte>
    var ofs: int
    var size: int
    var owned: int
    var refcnt: int

    /** The representation invariant: the bytes lie inside the block, and
      * an owning string points at the start of a block of `owned` bytes.
      */
    ghost predicate Valid()
      reads this
    {
      0 <= ofs && 0 <= size <= MAX_SIZE && 0 <= owned && 0 <= refcnt &&
      (data == null ==> ofs == 0 && size == 0 && owned == 0) &&
      (data != null ==> ofs + size <= data.Length) &&
      (owned > 0 ==> data != null && ofs == 0 && size <= owned <= data.Length)
    }

    ghost predicate ValidIn(pool: RefPool)
      reads this, pool
    {
      Valid() && HandleIn(pool.counts, refcnt)
    }

    /** The string's contents. */
    function Bytes(): (r: seq<Byte>)
      reads this, data
      requires Valid()
      ensures |r| == size
    {
      if data == null then [] else data[ofs..ofs + size]
    }

    /** The string owns its block and no other string holds it: the only
      * case where its bytes may be written in place.
      */
    ghost predicate Private(pool: RefPool)
      reads this, pool
      requires ValidIn(pool)
    {
      owned > 0 && pool.Get(refcnt) <= 1
    }

    /** The block a write may touch without unsharing first. */
    ghost function Writable(pool: RefPool): set<object?>
      reads this, pool
      requires ValidIn(pool)
    {
      if Private(pool) then {data} else {}
    }

    /** A shared string can be copied with its terminator position: what
      * str_unshare_expand reads (size + 1 bytes of the shared block).
      */
    ghost predicate CanUnshare(pool: RefPool)
      reads this, pool
      requires ValidIn(pool)
    {
      pool.Get(refcnt) > 1 ==> owned > size
    }

    ghost predicate Terminated()
      reads this, data
      requires Valid()
    {
      data != null && ofs + size < data.Length && data[ofs + size] == NUL
    }

    /** str_new, without the allocation failure: an empty string. */
    constructor New()
      ensures Valid() && data == null && size == 0 && owned == 0 && refcnt == REFCNT_UNUSED
    {
      data, ofs, size, owned, refcnt := null, 0, 0, 0, REFCNT_UNUSED;
    }

    /** STR_INIT_C: a string borrowing a NUL-terminated literal. */
    constructor Literal(s: seq<Byte>)
      requires |s| <= MAX_SIZE
      ensures Valid() && fresh(data) && Bytes() == s && Terminated()
      ensures owned == 0 && refcnt == REFCNT_UNUSED
    {
      data := new Byte[|s| + 1](i requires 0 <= i <= |s| => if i < |s| then s[i] else NUL);
      ofs, size, owned, refcnt := 0, |s|, 0, REFCNT_UNUSED;
    }

    /** str_init: the empty string, owning nothing. */
    method Init()
      modifies this
      ensures Valid() && data == null && ofs == 0 && size == 0 && owned == 0 && refcnt == REFCNT_UNUSED
      ensures Bytes() == []
    {
      data, ofs, size, owned, refcnt := null, 0, 0, 0, REFCNT_UNUSED;
    }

    /** str_init_c_const: borrow the bytes of a C string (all of them up to
      * the NUL when csize is negative).
      */
    method InitCConst(cstr: array?<Byte>, cofs: int, csize: int)
      requires CArgOk(cstr, cofs, csize) && |CArg(cstr, cofs, csize)| <= MAX_SIZE
      modifies this
      ensures Valid() && Bytes() == CArg(cstr, cofs, csize)
      ensures data == cstr && ofs == cofs && owned == 0 && refcnt == REFCNT_UNUSED
    {
      size := if csize >= 0 then csize else if cstr != null then Len(cstr[cofs..]) else 0;
      owned := 0;
      data, ofs := cstr, cofs;
      refcnt := REFCNT_UNUSED;
    }

    /** str_init_c_prealloc: take ownership of a malloc'ed block holding a
      * C string; trailing NULs of an explicit size are not content, and
      * the block is taken to be `csize` bytes (or the string and its NUL).
      */
    method InitCPrealloc(cstr: array?<Byte>, csize: int)
      requires CArgOk(cstr, 0, csize) && |CArg(cstr, 0, csize)| <= MAX_SIZE
      modifies this
      ensures Valid() && Bytes() == TrimNul(CArg(cstr, 0, csize))
      ensures data == cstr && refcnt == REFCNT_UNUSED
      ensures owned == if csize >= 0 then csize else if cstr != null then size + 1 else 0
    {
      var n, alloc := Detect(cstr, 0, csize);
      size, owned := n, alloc;
      data, ofs := cstr, 0;
      refcnt := REFCNT_UNUSED;
    }

    /** str_init_c_copy: an owned, NUL-terminated copy of a C string without
      * its trailing NULs. When malloc fails the string is left with its
      * size and block size set but no block.
      */
    method InitCCopy(cstr: array?<Byte>, cofs: int, csize: int, fail: bool) returns (ok: bool)
      requires CArgOk(cstr, cofs, csize)
      requires |TrimNul(CArg(cstr, cofs, csize))| <= MAX_SIZE
      modifies this
      ensures size == |TrimNul(CArg(cstr, cofs, csize))| && owned == AllocSize(size)
      ensures ok <==> !fail || size == 0
      ensures ok ==> Valid() && Bytes() == TrimNul(CArg(cstr, cofs, csize))
      ensures ok ==> refcnt == REFCNT_UNUSED
      ensures ok && size > 0 ==> fresh(data) && Terminated()
      ensures ok && size == 0 ==> data == null
      ensures !ok ==> data == null && refcnt == old(refcnt)
    {
      var n, _ := Detect(cstr, cofs, csize);
      ghost var arg := TrimNul(CArg(cstr, cofs, csize));
      if n > 0 {
        CArgPrefix(cstr, cofs, csize, n);
      }
      ok := InitBytes(cstr, cofs, n, arg, fail);
    }

    /** str_init_c_copy once the size is known: an owned copy of the n
      * bytes at src + from, or no block at all for the empty string.
      */
    method InitBytes(src: array?<Byte>, from: int, n: int, ghost arg: seq<Byte>, fail: bool) returns (ok: bool)
      requires 0 <= n <= MAX_SIZE && |arg| == n
      requires n > 0 ==> src != null && 0 <= from && from + n <= src.Length && src[from..from + n] == arg
      modifies this
      ensures size == n && owned == AllocSize(n)
      ensures ok <==> !fail || n == 0
      ensures ok ==> Valid() && Bytes() == arg && refcnt == REFCNT_UNUSED
      ensures ok && n > 0 ==> fresh(data) && Terminated()
      ensures ok && n == 0 ==> data == null
      ensures !ok ==> data == null && refcnt == old(refcnt)
    {
      var alloc := AllocSize(n);
      if alloc == 0 {
        data, ofs, size, owned, refcnt := null, 0, n, alloc, REFCNT_UNUSED;
        ok := true;
      } else if fail {
        data, size, owned := null, n, alloc;
        ok := false;
      } else {
        OwnCopy(src, from, n, alloc);
        ok := true;
      }
    }

    /** The successful end of str_init_c_copy: the string owns a fresh
      * block of `alloc` bytes holding the n bytes at cstr + cofs and a NUL.
      */
    method OwnCopy(cstr: array<Byte>, cofs: int, n: int, alloc: int)
      requires 0 <= cofs && 0 < n <= MAX_SIZE && cofs + n <= cstr.Length && n < alloc
      modifies this
      ensures Valid() && fresh(data) && Terminated()
      ensures Bytes() == cstr[cofs..cofs + n]
      ensures size == n && owned == alloc && refcnt == REFCNT_UNUSED
    {
      var block := NewCopy(cstr, cofs, n, alloc);
      block[n] := NUL;
      data, ofs, size, owned, refcnt := block, 0, n, alloc, REFCNT_UNUSED;
    }

    /** str_done: give the block back (it is freed when no other holder is
      * left) and become the empty string; the stale pointer is kept.
      */
    method Done(pool: RefPool) returns (ghost freed: bool)
      requires ValidIn(pool)
      modifies this, pool
      ensures ValidIn(pool) && Bytes() == []
      ensures size == 0 && owned == 0 && refcnt == REFCNT_UNUSED
      ensures data == old(data) && ofs == old(ofs)
      ensures pool.counts == DoneCounts(old(pool.counts), old(owned), old(refcnt))
      ensures freed <==> old(owned) != 0 && old(pool.Get(refcnt)) == 1
    {
      freed := false;
      if owned != 0 {
        var refs := pool.DecRef(refcnt);
        freed := refs == 0;
        owned := 0;
      }
      size := 0;
      refcnt := REFCNT_UNUSED;
    }

    /** str_c: the contents as a C string. The block is returned only when
      * a NUL already follows the contents; otherwise the result is "".
      */
    function CStr(): (r: seq<Byte>)
      reads this, data
      requires Valid()
      requires size > 0 && (owned == 0 || owned > size) ==> ofs + size < data.Length
      ensures r == [] || r == Bytes()
      ensures Terminated() && (owned == 0 || owned > size) ==> r == Bytes()
      ensures r != [] ==> Terminated()
    {
      if size == 0 then []
      else if (owned == 0 || owned > size) && data[ofs + size] == NUL then Bytes()
      else []
    }

    /** str_set: release this string, then read the same bytes as `from`.
      * A borrowed source is aliased; an owned one is shared, its count
      * going up by one (a fresh handle starts at two holders).
      */
    method Set(from: Str, pool: RefPool) returns (ok: bool)
      requires ValidIn(pool) && from.ValidIn(pool) && this != from
      modifies this, from, pool
      ensures ok
      ensures ValidIn(pool) && from.ValidIn(pool)
      ensures from.data == old(from.data) && from.ofs == old(from.ofs)
      ensures from.size == old(from.size) && from.owned == old(from.owned)
      ensures Bytes() == from.Bytes() == old(from.Bytes())
      ensures data == from.data && ofs == from.ofs && size == from.size && owned == from.owned
      ensures from.owned == 0 ==>
        refcnt == REFCNT_UNUSED && from.refcnt == old(from.refcnt) &&
        pool.counts == DoneCounts(old(pool.counts), old(owned), old(refcnt))
      ensures from.owned != 0 ==>
        refcnt == from.refcnt && refcnt != REFCNT_UNUSED &&
        (pool.counts, refcnt) == AfterIncRef(DoneCounts(old(pool.counts), old(owned), old(refcnt)), old(from.refcnt))
    {
      ghost var bytes := from.Bytes();
      ghost var _ := Done(pool);
      assert from.ValidIn(pool) && from.Bytes() == bytes && from.refcnt == old(from.refcnt);
      ghost var counts := pool.counts;
      assert counts == DoneCounts(old(pool.counts), old(owned), old(refcnt));
      if from.owned == 0 {
        Borrow(from, pool);
      } else {
        ShareBlock(from, pool);
      }
      ok := true;
    }

    /** The borrowing case of str_set: this string points at the bytes
      * of `from` and, like it, owns nothing.
      */
    method Borrow(from: Str, pool: RefPool)
      requires Valid() && from.ValidIn(pool) && this != from && from.owned == 0
      modifies this
      ensures ValidIn(pool)
      ensures data == from.data && ofs == from.ofs && size == from.size && owned == from.owned
      ensures refcnt == REFCNT_UNUSED
    {
      refcnt := REFCNT_UNUSED;
      data, ofs, size, owned := from.data, from.ofs, from.size, 0;
    }

    /** The owning case of str_set: the block of `from` gets one more
      * holder (a handle of its own, if it had none) and this string
      * points at the same bytes.
      */
    method ShareBlock(from: Str, pool: RefPool)
      requires Valid() && from.ValidIn(pool) && this != from && from.owned != 0
      modifies this, from, pool
      ensures ValidIn(pool) && from.ValidIn(pool)
      ensures from.data == old(from.data) && from.ofs == old(from.ofs)
      ensures from.size == old(from.size) && from.owned == old(from.owned)
      ensures data == from.data && ofs == from.ofs && size == from.size && owned == from.owned
      ensures refcnt == from.refcnt && refcnt != REFCNT_UNUSED
      ensures (pool.counts, refcnt) == AfterIncRef(old(pool.counts), old(from.refcnt))
    {
      var r := pool.IncRef(from.refcnt);
      from.refcnt := r;
      refcnt := r;
      data, ofs, size, owned := from.data, from.ofs, from.size, from.owned;
    }

    /** str_init_copy: str_set on a string that holds nothing yet. */
    method InitCopy(from: Str, pool: RefPool) returns (ok: bool)
      requires ValidIn(pool) && from.ValidIn(pool) && this != from
      modifies this, from, pool
      ensures ok
      ensures ValidIn(pool) && from.ValidIn(pool)
      ensures from.data == old(from.data) && from.ofs == old(from.ofs)
      ensures from.size == old(from.size) && from.owned == old(from.owned)
      ensures Bytes() == from.Bytes() == old(from.Bytes())
      ensures data == from.data && ofs == from.ofs && size == from.size && owned == from.owned
      ensures from.owned == 0 ==>
        refcnt == REFCNT_UNUSED && from.refcnt == old(from.refcnt) && pool.counts == old(pool.counts)
      ensures from.owned != 0 ==>
        refcnt == from.refcnt && refcnt != REFCNT_UNUSED &&
        (pool.counts, refcnt) == AfterIncRef(old(pool.counts), old(from.refcnt))
    {
      owned := 0;
      ok := Set(from, pool);
    }

    /** str_init_substr: the bytes [pos, pos + n) of src, clamped to its
      * end. A position outside src gives the empty string; a borrowed
      * source gives a borrowed slice; the whole of an owned source is
      * shared; any other range of an owned source is copied.
      */
    method InitSubstr(src: Str, pos: int, n: int, pool: RefPool, fail: bool) returns (ok: bool)
      requires ValidIn(pool) && src.ValidIn(pool) && this != src
      requires n >= 0
      modifies this, src, pool
      ensures !fail ==> ok
      ensures src.ValidIn(pool) && src.Bytes() == old(src.Bytes())
      ensures ok ==> Valid()
      ensures !(0 <= pos < old(src.size)) ==> ok && Valid() && data == null && Bytes() == []
      ensures 0 <= pos < old(src.size) && old(src.owned) == 0 ==>
        ok && Valid() && data == src.data && ofs == src.ofs + pos && owned == 0 &&
        Bytes() == Substring(old(src.Bytes()), pos, n)
      ensures 0 <= pos < old(src.size) && old(src.owned) != 0 && pos == 0 && n >= old(src.size) ==>
        ok && Valid() && data == src.data && refcnt == src.refcnt != REFCNT_UNUSED &&
        Bytes() == old(src.Bytes())
      ensures ok && 0 <= pos < old(src.size) && old(src.owned) != 0 && !(pos == 0 && n >= old(src.size)) ==>
        (data == null || fresh(data)) && Bytes() == TrimNul(Substring(old(src.Bytes()), pos, n))
      ensures ok && NUL !in old(src.Bytes()) ==> Bytes() == Substring(old(src.Bytes()), pos, n)
    {
      if pos < 0 || pos >= src.size {
        Init();
        ok := true;
      } else if src.owned == 0 {
        BorrowSubstr(src, pos, n);
        ok := true;
      } else {
        ok := InitOwnedSubstr(src, pos, n, pool, fail);
      }
    }

    /** The borrowed-source case of str_init_substr: a slice of the same
      * bytes, owning nothing.
      */
    method BorrowSubstr(src: Str, pos: int, n: int)
      requires src.Valid() && this != src
      requires src.owned == 0 && 0 <= pos < src.size && n >= 0
      modifies this
      ensures Valid() && data == src.data && ofs == src.ofs + pos && owned == 0
      ensures refcnt == REFCNT_UNUSED
      ensures Bytes() == Substring(src.Bytes(), pos, n)
    {
      owned := 0;
      size := SubSize(src.size, pos, n);
      data, ofs := src.data, src.ofs + pos;
      refcnt := REFCNT_UNUSED;
      ghost var whole := src.data[src.ofs..src.ofs + src.size];
      assert src.Bytes() == whole;
      forall k | pos <= k < pos + size
        ensures whole[k] == data[src.ofs + k]
      {
      }
      assert Substring(src.Bytes(), pos, n) == whole[pos..pos + size] == data[ofs..ofs + size];
    }

    /** The owned-source case of str_init_substr: share the whole, copy
      * any part.
      */
    method InitOwnedSubstr(src: Str, pos: int, n: int, pool: RefPool, fail: bool) returns (ok: bool)
      requires ValidIn(pool) && src.ValidIn(pool) && this != src
      requires src.owned != 0 && 0 <= pos < src.size && 0 <= n
      modifies this, src, pool
      ensures !fail ==> ok
      ensures src.ValidIn(pool) && src.Bytes() == old(src.Bytes())
      ensures ok ==> Valid()
      ensures pos == 0 && n >= old(src.size) ==>
        ok && data == src.data && refcnt == src.refcnt != REFCNT_UNUSED && Bytes() == old(src.Bytes())
      ensures ok && !(pos == 0 && n >= old(src.size)) ==>
        (data == null || fresh(data)) && Bytes() == TrimNul(Substring(old(src.Bytes()), pos, n))
      ensures ok && NUL !in old(src.Bytes()) ==> Bytes() == Substring(old(src.Bytes()), pos, n)
    {
      if pos == 0 && n >= src.size {
        ok := InitCopy(src, pool);
      } else {
        ok := CopySubstr(src, pos, n, fail);
      }
    }

    /** A part of an owned source: a fresh copy (str_init_c_copy), without
      * the trailing NULs of that part.
      */
    method CopySubstr(src: Str, pos: int, n: int, fail: bool) returns (ok: bool)
      requires src.Valid() && this != src
      requires src.owned != 0 && 0 <= pos < src.size && 0 <= n
      modifies this
      ensures !fail ==> ok
      ensures ok ==> Valid() && (data == null || fresh(data))
      ensures ok ==> Bytes() == TrimNul(Substring(src.Bytes(), pos, n))
      ensures ok && NUL !in src.Bytes() ==> Bytes() == Substring(src.Bytes(), pos, n)
    {
      ok := CopyRange(src.data, src.ofs, src.size, pos, n, fail);
    }

    /** The copy of CopySubstr, on the bytes [from, from + len) of a block. */
    method CopyRange(block: array<Byte>, from: int, len: int, pos: int, n: int, fail: bool) returns (ok: bool)
      requires 0 <= from && from + len <= block.Length && len <= MAX_SIZE
      requires 0 <= pos < len && 0 <= n
      modifies this
      ensures !fail ==> ok
      ensures ok ==> Valid() && (data == null || fresh(data))
      ensures ok ==> Bytes() == TrimNul(Substring(block[from..from + len], pos, n))
      ensures ok && NUL !in block[from..from + len] ==> Bytes() == Substring(block[from..from + len], pos, n)
    {
      var m := SubSize(len, pos, n);
      ghost var bytes := block[from..from + len];
      SliceArg(block, from, len, pos, n);
      ghost var arg := CArg(block, from + pos, m);
      assert arg == Substring(bytes, pos, n);
      ok := InitCCopy(block, from + pos, m, fail);
      assert block[from..from + len] == bytes && CArg(block, from + pos, m) == arg;
      if ok {
        assert Bytes() == TrimNul(arg);
      }
      SliceNoNul(bytes, pos, n);
    }

    /** str_unshare_expand: a string whose block has other holders gets a
      * block of its own, sized for size + xsize bytes, holding a copy of
      * its bytes and of the byte after them, and gives its share back.
      * A negative xsize is refused.
      */
    method UnshareExpand(xsize: int, pool: RefPool, fail: bool) returns (ok: bool)
      requires ValidIn(pool) && CanUnshare(pool) && size + xsize <= MAX_SIZE
      modifies this, pool
      ensures ValidIn(pool) && size == old(size) && Bytes() == old(Bytes())
      ensures ok <==> xsize >= 0 && (old(pool.Get(refcnt)) <= 1 || !fail || size + xsize == 0)
      ensures !ok || old(pool.Get(refcnt)) <= 1 ==>
        data == old(data) && owned == old(owned) && refcnt == old(refcnt) && pool.counts == old(pool.counts)
      ensures ok && old(pool.Get(refcnt)) > 1 ==>
        refcnt == REFCNT_UNUSED && pool.counts == DecAt(old(pool.counts), old(refcnt)) &&
        owned == AllocSize(size + xsize) &&
        (owned > 0 ==> fresh(data)) && (owned == 0 ==> data == old(data))
    {
      ok := xsize >= 0;
      if ok && pool.Get(refcnt) > 1 {
        var alloc := AllocSize(size + xsize);
        if alloc != 0 && fail {
          ok := false;
        } else {
          Detach(alloc);
          var _ := pool.DecRef(refcnt);
          refcnt := REFCNT_UNUSED;
        }
      }
    }

    /** The copy step of str_unshare_expand: a fresh block of `alloc`
      * bytes holding the string and the byte after it (none if alloc is 0).
      */
    method Detach(alloc: int)
      requires Valid() && owned > size && (alloc == 0 || size < alloc)
      modifies this
      ensures Valid() && size == old(size) && Bytes() == old(Bytes()) && refcnt == old(refcnt)
      ensures owned == alloc
      ensures alloc > 0 ==> fresh(data)
      ensures alloc == 0 ==> data == old(data)
    {
      ghost var bytes := Bytes();
      if alloc != 0 {
        var block := NewCopy(data, 0, size + 1, alloc);
        assert block[..size] == bytes;
        data := block;
      }
      owned := alloc;
    }

    /** str_unshare: str_unshare_expand with nothing to add. */
    method Unshare(pool: RefPool, fail: bool) returns (ok: bool)
      requires ValidIn(pool) && CanUnshare(pool)
      modifies this, pool
      ensures ValidIn(pool) && size == old(size) && Bytes() == old(Bytes())
      ensures ok <==> old(pool.Get(refcnt)) <= 1 || !fail || size == 0
      ensures ok ==> pool.Get(refcnt) <= 1
      ensures ok && old(owned) > 0 && size > 0 ==> Private(pool)
      ensures ok && old(pool.Get(refcnt)) > 1 ==> pool.counts == DecAt(old(pool.counts), old(refcnt))
      ensures !ok || old(pool.Get(refcnt)) <= 1 ==> pool.counts == old(pool.counts)
    {
      ok := UnshareExpand(0, pool, fail);
    }

    /** str_expand: make the string private (unsharing it) with room for
      * xsize more bytes and a terminator. A borrowed string is copied into
      * a fresh block (and terminated); an owned one too small is moved by
      * realloc, and if that fails the string is left empty without a
      * block. A negative xsize is refused.
      */
    method Expand(xsize: int, pool: RefPool, fail: bool) returns (ok: bool)
      requires ValidIn(pool) && CanUnshare(pool) && size + xsize <= MAX_SIZE
      modifies this, pool
      ensures ValidIn(pool)
      ensures xsize < 0 ==> !ok && data == old(data) && size == old(size) && owned == old(owned) && refcnt == old(refcnt)
      ensures xsize < 0 ==> Bytes() == old(Bytes())
      ensures !fail && xsize >= 0 ==> ok
      ensures ok ==> size == old(size) && Bytes() == old(Bytes())
      ensures ok && size + xsize > 0 ==>
        Private(pool) && size + xsize < owned &&
        (fresh(data) || (data == old(data) && old(Private(pool))))
      ensures ok && old(pool.Get(refcnt)) > 1 ==> pool.counts == DecAt(old(pool.counts), old(refcnt))
      ensures !ok || old(pool.Get(refcnt)) <= 1 ==> pool.counts == old(pool.counts)
      ensures !ok && xsize >= 0 ==> (fail &&
        ((data == old(data) && size == old(size) && owned == old(owned) && Bytes() == old(Bytes())) ||
         (data == null && size == 0 && owned == 0 && old(owned) > 0)))
    {
      ok := UnshareExpand(xsize, pool, fail);
      if ok {
        var alloc := AllocSize(size + xsize);
        if alloc > owned {
          ok := Grow(alloc, fail);
        }
      }
    }

    /** The allocating step of str_expand: malloc, copy and terminate for a
      * borrowed string; realloc (a fresh block holding the old block's
      * bytes) for an owned one, which is emptied when realloc fails.
      */
    method Grow(alloc: int, fail: bool) returns (ok: bool)
      requires Valid() && size < alloc && owned < alloc
      modifies this
      ensures ok <==> !fail
      ensures refcnt == old(refcnt)
      ensures ok ==> Valid() && fresh(data) && owned == alloc && size == old(size) && Bytes() == old(Bytes())
      ensures !ok && old(owned) == 0 ==>
        data == old(data) && ofs == old(ofs) && size == old(size) && owned == 0
      ensures !ok && old(owned) > 0 ==> Valid() && data == null && size == 0 && owned == 0
    {
      ghost var bytes := Bytes();
      ok := !fail;
      if owned == 0 {
        if ok {
          var block;
          if data == null {
            block := new Byte[alloc];
          } else {
            block := NewCopy(data, ofs, size, alloc);
          }
          block[size] := NUL;
          data, ofs, owned := block, 0, alloc;
        }
      } else if ok {
        var block := NewCopy(data, 0, owned, alloc);
        assert block[..size] == bytes;
        data, owned := block, alloc;
      } else {
        data, size, owned := null, 0, 0;
      }
    }

    /** The byte moves of str_insert and str_replace on a private block:
      * the bytes after [pos, pos + n) move to follow the replacement
      * (memmove), the replacement is copied in (memcpy) and the new size
      * is terminated.
      */
    method Splice(pos: int, n: int, repl: Str)
      requires Valid() && repl.Valid() && repl != this
      requires data != null && ofs == 0 && (repl.size > 0 ==> repl.data != data)
      requires 0 <= pos && 0 <= n && pos + n <= size
      requires size - n + repl.size < owned && size - n + repl.size <= MAX_SIZE
      modifies this, data
      ensures data == old(data) && ofs == 0 && owned == old(owned) && refcnt == old(refcnt)
      ensures size == old(size) - n + repl.size
      ensures Valid() && Terminated()
      ensures Bytes() == old(Bytes()[..pos] + repl.Bytes() + Bytes()[pos + n..])
    {
      ghost var b0 := Bytes();
      assert b0 == data[..size];
      ghost var middle := repl.Bytes();
      var len := size - n + repl.size;
      var src, from := data, 0;
      if repl.size > 0 {
        src, from := repl.data, repl.ofs;
      }
      assert middle == src[from..from + repl.size];
      SpliceBlock(data, size, pos, n, src, from, repl.size);
      assert data[..len] == b0[..pos] + middle + b0[pos + n..] && data[len] == NUL;
      size := len;
      assert Bytes() == data[..size];
    }

    /** str_insert: the bytes of ins placed at pos. A borrowed string that
      * ins directly follows in memory just grows over it; otherwise the
      * string is expanded (unshared) and the bytes are moved in place.
      * A position past the end is refused.
      */
    method Insert(pos: int, ins: Str, pool: RefPool, fail: bool) returns (ok: bool)
      requires ValidIn(pool) && ins.ValidIn(pool) && CanUnshare(pool) && ins != this
      requires 0 <= pos && size + ins.size <= MAX_SIZE
      requires ins.size > 0 && ins.data == data ==> !Private(pool)
      modifies this, pool, Writable(pool)
      ensures ValidIn(pool) && ins.ValidIn(pool) && ins.Bytes() == old(ins.Bytes())
      ensures pos > old(size) ==> !ok && data == old(data) && size == old(size) && pool.counts == old(pool.counts)
      ensures !fail && pos <= old(size) ==> ok
      ensures ok ==> pos <= old(size) && Bytes() == old(Bytes()[..pos] + ins.Bytes() + Bytes()[pos..])
      ensures ok && old(ins.size) > 0 && !old(Adjoins(pos, ins)) ==> Private(pool) && Terminated()
      ensures !ok && pos <= old(size) ==> (fail &&
        (Bytes() == old(Bytes()) || (data == null && size == 0 && owned == 0)))
      ensures pool.counts == old(pool.counts) ||
        (old(pool.Get(refcnt)) > 1 && pool.counts == DecAt(old(pool.counts), old(refcnt)))
    {
      if pos > size {
        ok := false;
      } else if ins.size == 0 {
        assert Bytes()[..pos] + ins.Bytes() + Bytes()[pos..] == Bytes();
        ok := true;
      } else if Adjoins(pos, ins) {
        ghost var bytes := Bytes();
        assert bytes[..pos] == bytes && bytes[pos..] == [];
        AdjoinGrow(ins);
        ok := true;
      } else {
        ok := ExpandSplice(pos, 0, ins, ins.size, pool, fail);
      }
    }

    /** The shortcut of str_insert: a borrowed string that ins directly
      * follows in memory grows over it.
      */
    method AdjoinGrow(ins: Str)
      requires Valid() && ins.Valid() && ins != this && Adjoins(size, ins) && size + ins.size <= MAX_SIZE
      modifies this
      ensures Valid() && data == old(data) && ofs == old(ofs) && owned == 0 && refcnt == old(refcnt)
      ensures size == old(size) + ins.size
      ensures Bytes() == old(Bytes()) + ins.Bytes()
    {
      ghost var bytes := Bytes();
      size := size + ins.size;
      assert Bytes() == bytes + ins.Bytes();
    }

    /** str_expand by xsize followed by the byte moves that put repl in
      * place of [pos, pos + n): the common part of str_insert and
      * str_replace.
      */
    method ExpandSplice(pos: int, n: int, repl: Str, xsize: int, pool: RefPool, fail: bool) returns (ok: bool)
      requires ValidIn(pool) && repl.ValidIn(pool) && CanUnshare(pool) && repl != this
      requires 0 <= pos && 0 <= n && pos + n <= size
      requires 0 <= xsize && repl.size - n <= xsize && size + xsize <= MAX_SIZE && size + xsize > 0
      requires repl.size > 0 && repl.data == data ==> !Private(pool)
      modifies this, pool, Writable(pool)
      ensures ValidIn(pool) && repl.ValidIn(pool) && repl.Bytes() == old(repl.Bytes())
      ensures !fail ==> ok
      ensures ok ==> (Private(pool) && Terminated() &&
        Bytes() == old(Bytes()[..pos] + repl.Bytes() + Bytes()[pos + n..]))
      ensures !ok ==> (fail && (Bytes() == old(Bytes()) || (data == null && size == 0 && owned == 0)))
      ensures pool.counts == old(pool.counts) ||
        (old(pool.Get(refcnt)) > 1 && pool.counts == DecAt(old(pool.counts), old(refcnt)))
    {
      ghost var middle := repl.Bytes();
      ok := Expand(xsize, pool, fail);
      assert repl.Bytes() == middle;
      if ok {
        assert repl.size > 0 ==> repl.data != data;
        Splice(pos, n, repl);
        assert repl.Bytes() == middle;
      }
    }

    /** The pointer test of str_insert's shortcut: both strings borrow,
      * the insertion is at the end and ins starts where this string ends.
      */
    predicate Adjoins(pos: int, ins: Str)
      reads this, ins
    {
      owned == 0 && ins.owned == 0 && pos == size && data == ins.data && ofs + size == ins.ofs
    }

    /** str_append: str_insert at the end. */
    method Append(tail: Str, pool: RefPool, fail: bool) returns (ok: bool)
      requires ValidIn(pool) && tail.ValidIn(pool) && CanUnshare(pool) && tail != this
      requires size + tail.size <= MAX_SIZE
      requires tail.size > 0 && tail.data == data ==> !Private(pool)
      modifies this, pool, Writable(pool)
      ensures ValidIn(pool) && tail.ValidIn(pool) && tail.Bytes() == old(tail.Bytes())
      ensures !fail ==> ok
      ensures ok ==> Bytes() == old(Bytes() + tail.Bytes())
      ensures ok && old(tail.size) > 0 && !old(Adjoins(size, tail)) ==> Private(pool) && Terminated()
      ensures !ok ==> (fail && (Bytes() == old(Bytes()) || (data == null && size == 0 && owned == 0)))
      ensures pool.counts == old(pool.counts) ||
        (old(pool.Get(refcnt)) > 1 && pool.counts == DecAt(old(pool.counts), old(refcnt)))
    {
      ghost var bytes := Bytes();
      assert bytes[size..] == [] && bytes[..size] == bytes;
      ok := Insert(size, tail, pool, fail);
    }

    /** str_append_c_const: append the bytes of a C string. An empty string
      * simply borrows the argument (all of it, trailing NULs included);
      * a borrowed string that the argument directly follows in memory
      * grows over it; otherwise the string is expanded and the argument,
      * without its trailing NULs, is copied behind it.
      */
    method AppendCConst(cstr: array?<Byte>, cofs: int, csize: int, pool: RefPool, fail: bool) returns (ok: bool)
      requires ValidIn(pool) && CanUnshare(pool) && CArgOk(cstr, cofs, csize)
      requires size + |CArg(cstr, cofs, csize)| <= MAX_SIZE
      requires cstr != null && cstr == data ==> owned == 0
      modifies this, pool, Writable(pool)
      ensures ValidIn(pool)
      ensures !fail ==> ok
      ensures ok && old(size) == 0 ==>
        Bytes() == old(CArg(cstr, cofs, csize)) && data == cstr && owned == 0 && refcnt == REFCNT_UNUSED &&
        pool.counts == DoneCounts(old(pool.counts), old(owned), old(refcnt))
      ensures ok && old(size) > 0 ==> Bytes() == old(Bytes() + TrimNul(CArg(cstr, cofs, csize)))
      ensures !ok ==> (fail && (Bytes() == old(Bytes()) || (data == null && size == 0 && owned == 0)))
      ensures old(size) > 0 ==> (pool.counts == old(pool.counts) ||
        (old(pool.Get(refcnt)) > 1 && pool.counts == DecAt(old(pool.counts), old(refcnt))))
    {
      if size == 0 {
        ghost var _ := Done(pool);
        InitCConst(cstr, cofs, csize);
        ok := true;
      } else {
        ok := AppendTrimmed(cstr, cofs, csize, pool, fail);
      }
    }

    /** str_append_c_const on a non-empty string: the argument without its
      * trailing NULs is taken in place or copied behind the string.
      */
    method AppendTrimmed(cstr: array?<Byte>, cofs: int, csize: int, pool: RefPool, fail: bool) returns (ok: bool)
      requires ValidIn(pool) && CanUnshare(pool) && CArgOk(cstr, cofs, csize) && size > 0
      requires size + |CArg(cstr, cofs, csize)| <= MAX_SIZE
      requires cstr != null && cstr == data ==> owned == 0
      modifies this, pool, Writable(pool)
      ensures ValidIn(pool)
      ensures !fail ==> ok
      ensures ok ==> Bytes() == old(Bytes() + TrimNul(CArg(cstr, cofs, csize)))
      ensures !ok ==> (fail && (Bytes() == old(Bytes()) || (data == null && size == 0 && owned == 0)))
      ensures pool.counts == old(pool.counts) ||
        (old(pool.Get(refcnt)) > 1 && pool.counts == DecAt(old(pool.counts), old(refcnt)))
    {
      var n, _ := Detect(cstr, cofs, csize);
      ghost var arg := TrimNul(CArg(cstr, cofs, csize));
      if n > 0 {
        CArgPrefix(cstr, cofs, csize, n);
      }
      ok := AppendBytes(cstr, cofs, n, arg, pool, fail);
    }

    /** The n bytes at src + from appended: in place when they directly
      * follow a borrowed string in its block, else copied behind it.
      */
    method AppendBytes(src: array?<Byte>, from: int, n: int, ghost arg: seq<Byte>, pool: RefPool, fail: bool) returns (ok: bool)
      requires ValidIn(pool) && CanUnshare(pool) && size > 0 && size + n <= MAX_SIZE
      requires |arg| == n && (n > 0 ==> src != null && 0 <= from && from + n <= src.Length && src[from..from + n] == arg)
      requires src != null && src == data ==> owned == 0
      modifies this, pool, Writable(pool)
      ensures ValidIn(pool)
      ensures !fail ==> ok
      ensures ok ==> Bytes() == old(Bytes()) + arg
      ensures !ok ==> (fail && (Bytes() == old(Bytes()) || (data == null && size == 0 && owned == 0)))
      ensures pool.counts == old(pool.counts) ||
        (old(pool.Get(refcnt)) > 1 && pool.counts == DecAt(old(pool.counts), old(refcnt)))
    {
      if src == data && from == ofs + size {
        GrowOver(n, arg);
        ok := true;
      } else {
        ok := ExpandCopy(src, from, n, arg, pool, fail);
      }
    }

    /** The in-place shortcut of str_append_c_const: a borrowed string
      * takes in the n bytes that directly follow it in its block.
      */
    method GrowOver(n: int, ghost arg: seq<Byte>)
      requires Valid() && size > 0 && owned == 0 && size + n <= MAX_SIZE
      requires |arg| == n && ofs + size + n <= data.Length && data[ofs + size..ofs + size + n] == arg
      modifies this
      ensures Valid() && data == old(data) && ofs == old(ofs) && owned == 0 && refcnt == old(refcnt)
      ensures Bytes() == old(Bytes()) + arg
    {
      ghost var bytes := Bytes();
      size := size + n;
      assert Bytes() == bytes + arg;
    }

    /** The copying path of str_append_c_const: str_expand by n, then the
      * n bytes at src + from and a terminator behind the string.
      */
    method ExpandCopy(src: array?<Byte>, from: int, n: int, ghost arg: seq<Byte>, pool: RefPool, fail: bool) returns (ok: bool)
      requires ValidIn(pool) && CanUnshare(pool) && size > 0 && size + n <= MAX_SIZE
      requires |arg| == n && (n > 0 ==> src != null && 0 <= from && from + n <= src.Length && src[from..from + n] == arg)
      requires src != null && src == data ==> owned == 0
      modifies this, pool, Writable(pool)
      ensures ValidIn(pool)
      ensures !fail ==> ok
      ensures ok ==> Private(pool) && Terminated() && Bytes() == old(Bytes()) + arg
      ensures !ok ==> (fail && (Bytes() == old(Bytes()) || (data == null && size == 0 && owned == 0)))
      ensures pool.counts == old(pool.counts) ||
        (old(pool.Get(refcnt)) > 1 && pool.counts == DecAt(old(pool.counts), old(refcnt)))
    {
      ok := Expand(n, pool, fail);
      if ok {
        PutTail(src, from, n, arg);
      }
    }

    /** memcpy of n bytes from src + from behind the string, then the
      * terminator, in its private block.
      */
    method PutTail(src: array?<Byte>, from: int, n: int, ghost arg: seq<Byte>)
      requires Valid() && data != null && ofs == 0 && size + n < owned && size + n <= MAX_SIZE
      requires |arg| == n && (n > 0 ==> src != null && src != data && 0 <= from && from + n <= src.Length && src[from..from + n] == arg)
      modifies this, data
      ensures Valid() && Terminated() && Bytes() == old(Bytes()) + arg
      ensures data == old(data) && owned == old(owned) && refcnt == old(refcnt)
    {
      ghost var bytes := Bytes();
      assert bytes == data[..size];
      if n > 0 {
        SpliceBlock(data, size, size, 0, src, from, n);
      } else {
        data[size] := NUL;
      }
      size := size + n;
      assert Bytes() == data[..size] == bytes + arg;
    }

    /** The empty case of str_replace: nothing replaced by nothing at the
      * start of an empty string. str_expand(str, 0) has nothing to
      * allocate, so it only unshares (a shared string gives its share back
      * and goes on borrowing the block); then the terminator is written at
      * data[0]. That is the string's own block when it owns one; otherwise
      * the write goes through NULL or into a block the string only
      * borrows, which `stray` reports and the model does not perform.
      */
    method TerminateEmpty(pool: RefPool) returns (stray: bool)
      requires ValidIn(pool) && CanUnshare(pool) && size == 0
      modifies this, pool, Writable(pool)
      ensures ValidIn(pool) && size == 0 && Bytes() == [] && data == old(data)
      ensures stray <==> old(owned) == 0 || old(pool.Get(refcnt)) > 1
      ensures !stray ==> Private(pool) && Terminated() && pool.counts == old(pool.counts)
      ensures stray ==> owned == 0
      ensures old(pool.Get(refcnt)) > 1 ==> pool.counts == DecAt(old(pool.counts), old(refcnt))
      ensures old(pool.Get(refcnt)) <= 1 ==> pool.counts == old(pool.counts)
    {
      var _ := UnshareExpand(0, pool, false);
      if owned > 0 {
        data[0] := NUL;
        stray := false;
      } else {
        stray := true;
      }
    }

    /** str_replace as written: [pos, pos + n) (clamped to the end) becomes
      * the bytes of repl. The string is expanded by repl.size - n, which
      * str_expand refuses when negative: a replacement shorter than the
      * range it replaces always fails and leaves the string as it was.
      */
    method ReplaceAsWritten(pos: int, n: int, repl: Str, pool: RefPool, fail: bool) returns (ok: bool, stray: bool)
      requires ValidIn(pool) && repl.ValidIn(pool) && CanUnshare(pool) && repl != this
      requires 0 <= pos && size + repl.size <= MAX_SIZE
      requires repl.size > 0 && repl.data == data ==> !Private(pool)
      modifies this, pool, Writable(pool)
      ensures ValidIn(pool) && repl.ValidIn(pool) && repl.Bytes() == old(repl.Bytes())
      ensures stray <==> pos == 0 && old(size) == 0 && repl.size == 0 && (old(owned) == 0 || old(pool.Get(refcnt)) > 1)
      ensures pos > old(size) || repl.size < Clamp(old(size), pos, n) ==>
        !ok && data == old(data) && size == old(size) && owned == old(owned) && pool.counts == old(pool.counts)
      ensures !fail && pos <= old(size) && Clamp(old(size), pos, n) <= repl.size ==> ok
      ensures ok ==> (pos <= old(size) &&
        Bytes() == old(Bytes()[..pos] + repl.Bytes() + Bytes()[pos + Clamp(size, pos, n)..]))
      ensures ok && !stray ==> Private(pool) && Terminated()
      ensures !ok ==> (Bytes() == old(Bytes()) || (data == null && size == 0 && owned == 0))
    {
      stray := false;
      if pos > size {
        ok := false;
      } else {
        var m := Clamp(size, pos, n);
        if repl.size - m < 0 {
          ok := Expand(repl.size - m, pool, fail);
        } else if size + (repl.size - m) == 0 {
          stray := TerminateEmpty(pool);
          ok := true;
        } else {
          ok := ExpandSplice(pos, m, repl, repl.size - m, pool, fail);
        }
      }
    }

    /** str_replace with the expansion it evidently intends: room for the
      * bytes the string gains, none when it shrinks. A position past the
      * end is refused; the replacement otherwise fails only when memory
      * does.
      */
    method Replace(pos: int, n: int, repl: Str, pool: RefPool, fail: bool) returns (ok: bool, stray: bool)
      requires ValidIn(pool) && repl.ValidIn(pool) && CanUnshare(pool) && repl != this
      requires 0 <= pos && size + repl.size <= MAX_SIZE
      requires repl.size > 0 && repl.data == data ==> !Private(pool)
      modifies this, pool, Writable(pool)
      ensures ValidIn(pool) && repl.ValidIn(pool) && repl.Bytes() == old(repl.Bytes())
      ensures stray <==> pos == 0 && old(size) == 0 && repl.size == 0 && (old(owned) == 0 || old(pool.Get(refcnt)) > 1)
      ensures pos > old(size) ==> !ok && data == old(data) && size == old(size) && pool.counts == old(pool.counts)
      ensures !fail && pos <= old(size) ==> ok
      ensures ok ==> (pos <= old(size) &&
        Bytes() == old(Bytes()[..pos] + repl.Bytes() + Bytes()[pos + Clamp(size, pos, n)..]))
      ensures ok && !stray ==> Private(pool) && Terminated()
      ensures !ok && pos <= old(size) ==> (fail && (Bytes() == old(Bytes()) || (data == null && size == 0 && owned == 0)))
    {
      stray := false;
      if pos > size {
        ok := false;
      } else {
        var m := Clamp(size, pos, n);
        var grow := if repl.size > m then repl.size - m else 0;
        if size + grow == 0 {
          stray := TerminateEmpty(pool);
          ok := true;
        } else {
          ok := ExpandSplice(pos, m, repl, grow, pool, fail);
        }
      }
    }

    /** str_delete as written: str_replace of [pos, pos + n) with the empty
      * string, which fails whenever that range is not empty.
      */
    method DeleteAsWritten(pos: int, n: int, pool: RefPool, fail: bool) returns (ok: bool, stray: bool)
      requires ValidIn(pool) && CanUnshare(pool)
      requires 0 <= pos
      modifies this, pool, Writable(pool)
      ensures ValidIn(pool)
      ensures stray <==> pos == 0 && old(size) == 0 && (old(owned) == 0 || old(pool.Get(refcnt)) > 1)
      ensures pos > old(size) || Clamp(old(size), pos, n) > 0 ==>
        !ok && data == old(data) && size == old(size) && owned == old(owned) && pool.counts == old(pool.counts)
      ensures pos > old(size) || Clamp(old(size), pos, n) > 0 ==> Bytes() == old(Bytes())
      ensures ok ==> Bytes() == old(Bytes())
    {
      ghost var before := Bytes();
      ghost var m := if pos > size then 0 else Clamp(size, pos, n);
      var empty := new Str.Literal([]);
      ok, stray := ReplaceAsWritten(pos, n, empty, pool, fail);
      if ok {
        assert m == 0 && before[..pos] + [] + before[pos..] == before;
      } else if pos > old(size) || m > 0 {
        assert Bytes() == before;
      }
    }

    /** str_delete on the corrected str_replace: the bytes [pos, pos + n)
      * (to the end when n is negative or runs past it) are removed.
      */
    method Delete(pos: int, n: int, pool: RefPool, fail: bool) returns (ok: bool, stray: bool)
      requires ValidIn(pool) && CanUnshare(pool)
      requires 0 <= pos
      modifies this, pool, Writable(pool)
      ensures ValidIn(pool)
      ensures stray <==> pos == 0 && old(size) == 0 && (old(owned) == 0 || old(pool.Get(refcnt)) > 1)
      ensures pos > old(size) ==> !ok && data == old(data) && size == old(size)
      ensures !fail && pos <= old(size) ==> ok
      ensures ok ==> (pos <= old(size) && Bytes() == old(Bytes()[..pos] + Bytes()[pos + Clamp(size, pos, n)..]))
      ensures ok && !stray ==> Private(pool) && Terminated()
    {
      ghost var before := Bytes();
      var empty := new Str.Literal([]);
      ok, stray := Replace(pos, n, empty, pool, fail);
      if ok {
        assert before[..pos] + [] == before[..pos];
      }
    }

    /** str_find_char: the first position at or after pos holding c; when
      * there is none, the result is the size and `found` is false.
      */
    method FindChar(pos: int, c: Byte) returns (found: bool, at: int)
      requires Valid() && 0 <= pos <= size
      ensures found ==> pos <= at < size && Bytes()[at] == c && c !in Bytes()[pos..at]
      ensures !found ==> at == size && c !in Bytes()[pos..]
    {
      if data == null {
        found, at := false, size;
      } else {
        var k;
        found, k := Chr(data, ofs + pos, size - pos, c);
        at := if found then k - ofs else size;
      }
    }
  }

  /* ---------------------------------------------------------------- */
  /* Comparison                                                        */

  /** What str_cmp reads of a string: its identity (the pointer), its
    * block, offset, size, owned block size, and its bytes.
    */
  datatype StrView = StrView(obj: Str, data: array?<Byte>, ofs: int, size: int, owned: int, bytes: seq<Byte>)

  /** A view taken of a valid string. */
  function Snapshot(s: Str): StrView
    reads s, s.data
    requires s.Valid()
  {
    StrView(s, s.data, s.ofs, s.size, s.owned, s.Bytes())
  }

  /** The order str_cmp is built on: memcmp over the common length, then
    * the difference of the sizes.
    */
  function Order(x: seq<Byte>, y: seq<Byte>): int
  {
    var ml := if |x| <= |y| then |x| else |y|;
    var c := Cmp(x, y, ml);
    if c != 0 then c else |x| - |y|
  }

  /** Lexicographic byte order: x comes first or equals y. */
  predicate LexLe(x: seq<Byte>, y: seq<Byte>)
  {
    |x| == 0 || (|y| > 0 && (x[0] < y[0] || (x[0] == y[0] && LexLe(x[1..], y[1..]))))
  }

  /** Order sees past a common first byte. */
  lemma OrderTail(x: seq<Byte>, y: seq<Byte>)
    requires |x| > 0 && |y| > 0 && x[0] == y[0]
    ensures Order(x, y) == Order(x[1..], y[1..])
  {
  }

  /** Order is non-positive exactly when x comes first in byte order. */
  lemma {:induction false} OrderLe(x: seq<Byte>, y: seq<Byte>)
    ensures Order(x, y) <= 0 <==> LexLe(x, y)
  {
    if |x| > 0 && |y| > 0 && x[0] == y[0] {
      OrderTail(x, y);
      OrderLe(x[1..], y[1..]);
    }
  }

  /** Order is zero exactly on equal strings. */
  lemma {:induction false} OrderZero(x: seq<Byte>, y: seq<Byte>)
    ensures Order(x, y) == 0 <==> x == y
  {
    if |x| > 0 && |y| > 0 && x[0] == y[0] {
      OrderTail(x, y);
      OrderZero(x[1..], y[1..]);
      assert x == [x[0]] + x[1..] && y == [y[0]] + y[1..];
    }
  }

  /** Swapping the operands negates Order. */
  lemma OrderAntisymmetric(x: seq<Byte>, y: seq<Byte>)
    ensures Order(y, x) == -Order(x, y)
  {
    var ml := if |x| <= |y| then |x| else |y|;
    CmpAntisymmetric(x, y, ml);
  }

  /** Byte order is transitive. */
  lemma {:induction false} LexTransitive(x: seq<Byte>, y: seq<Byte>, z: seq<Byte>)
    requires LexLe(x, y) && LexLe(y, z)
    ensures LexLe(x, z)
  {
    if |x| > 0 && x[0] == y[0] && y[0] == z[0] {
      LexTransitive(x[1..], y[1..], z[1..]);
    }
  }

  /** Order is a total order: transitive, and any two strings compare. */
  lemma OrderTotal(x: seq<Byte>, y: seq<Byte>, z: seq<Byte>)
    ensures Order(x, y) <= 0 || Order(y, x) <= 0
    ensures Order(x, y) <= 0 && Order(y, z) <= 0 ==> Order(x, z) <= 0
  {
    OrderAntisymmetric(x, y);
    OrderLe(x, y);
    OrderLe(y, z);
    OrderLe(x, z);
    if LexLe(x, y) && LexLe(y, z) {
      LexTransitive(x, y, z);
    }
  }

  /** str_cmp as written (None is a NULL pointer). The same pointer, or
    * two strings with the same owned block size that are either both
    * borrowed or on the same block, compare equal without looking at
    * their bytes.
    */
  function CmpAsWritten(a: Option<StrView>, b: Option<StrView>): (r: int)
  {
    if a.None? && b.None? then 0
    else if a.None? then -1
    else if b.None? then 1
    else
      var x, y := a.value, b.value;
      if x.obj == y.obj then 0
      else if x.owned == y.owned && (x.owned == 0 || x.data == y.data) then 0
      else Order(x.bytes, y.bytes)
  }

  /** str_cmp as evidently intended: the shortcut for two strings sharing
    * one block is kept, the one that makes any two borrowed strings equal
    * is dropped.
    */
  function Compare(a: Option<StrView>, b: Option<StrView>): (r: int)
  {
    if a.None? && b.None? then 0
    else if a.None? then -1
    else if b.None? then 1
    else
      var x, y := a.value, b.value;
      if x.obj == y.obj then 0
      else if x.owned == y.owned && x.owned != 0 && x.data == y.data then 0
      else Order(x.bytes, y.bytes)
  }

  /** Two views are coherent when the same string, or two strings on the
    * same owned block, show the same bytes: true of views taken together
    * of strings whose shared blocks are never written.
    */
  predicate Coherent(x: StrView, y: StrView)
  {
    (x.obj == y.obj || (x.owned == y.owned && x.owned != 0 && x.data == y.data)) ==> x.bytes == y.bytes
  }

  /** On coherent views Compare is the byte order of the contents, so it
    * is zero exactly on equal contents; a NULL string comes first.
    */
  lemma CompareIsOrder(x: StrView, y: StrView)
    requires Coherent(x, y)
    ensures Compare(Some(x), Some(y)) == Order(x.bytes, y.bytes)
    ensures Compare(Some(x), Some(y)) == 0 <==> x.bytes == y.bytes
    ensures Compare(None, Some(x)) < 0 && Compare(Some(x), None) > 0
  {
    OrderZero(x.bytes, y.bytes);
  }

  /** The str_cmp defect: two different borrowed strings compare equal
    * whatever their bytes.
    */
  lemma CmpAsWrittenBorrowed(x: StrView, y: StrView)
    requires x.obj != y.obj && x.owned == 0 && y.owned == 0 && x.bytes != y.bytes
    ensures CmpAsWritten(Some(x), Some(y)) == 0
    ensures Compare(Some(x), Some(y)) != 0
  {
    OrderZero(x.bytes, y.bytes);
  }

  /** "abc" and "xyz" borrowed from two literals: str_cmp says equal. */
  method CmpLiterals() returns (asWritten: int, intended: int)
    ensures asWritten == 0 && intended < 0
  {
    var a := new Str.Literal(['a', 'b', 'c']);
    var b := new Str.Literal(['x', 'y', 'z']);
    asWritten := CmpAsWritten(Some(Snapshot(a)), Some(Snapshot(b)));
    intended := Compare(Some(Snapshot(a)), Some(Snapshot(b)));
    OrderLe(a.Bytes(), b.Bytes());
    OrderZero(a.Bytes(), b.Bytes());
  }

  /** Copy-on-write: a string initialised as a copy of a and then
    * appended to leaves a's bytes as they were.
    */
  method CopyThenAppend(a: Str, b: Str, tail: Str, pool: RefPool, fail: bool) returns (ok: bool)
    requires a.ValidIn(pool) && b.ValidIn(pool) && tail.ValidIn(pool)
    requires a != b && b != tail && a != tail
    requires a.owned > 0 ==> a.owned > a.size && pool.Get(a.refcnt) >= 1
    requires a.size + tail.size <= MAX_SIZE
    modifies a, b, pool
    ensures a.ValidIn(pool) && b.ValidIn(pool)
    ensures a.Bytes() == old(a.Bytes())
    ensures !fail ==> ok
    ensures ok ==> b.Bytes() == old(a.Bytes() + tail.Bytes())
  {
    var _ := b.InitCopy(a, pool);
    ok := b.Append(tail, pool, fail);
  }
}
