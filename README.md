# Cook front end: strings, vectors, lexer, atoms and variables in Dafny

Cook is a build tool that reads scripts in its own language. This project models the
sequential core of its C front end and proves properties of that model:

- **The string engine** (`libs/useful/str.c`) works as follows:
  - A string is a pointer into a byte block, a size and an `allocated` count; 0 means a borrowed string.
  - It also holds a handle into a process-wide table of reference counts.
  - Owned blocks are shared on copy and unshared before any write (copy on write).
  - The model is the class `Str.Str`, over an `array` of bytes and an offset.
  - The table is the class `Str.RefPool`.
  - `Str.CopyThenAppend` proves the isolation theorem: appending to a copy never changes the original.
- **The generic vector** (`libs/useful/vector.c`):
  - handle arrays with power-of-two growth;
  - in-place shifting insert and delete;
  - an optional table of free, compare and compare-key functions;
  - a Hoare-style quicksort that recurses into the smaller part and loops on the larger;
  - binary-search insert and lookup.
  - The model is the class `Vector.Vector` over an `array`. The items handed to the free function are recorded in a ghost log `freed`.
- **The vector of strings** (`libs/useful/strvec.c`), ordered by the string comparison.
- **The lexer**, which has three parts:
  - the input cursor (`libs/cooker/input.c`): offset, line, column, indent, and a stack of statement indent thresholds;
  - the token (`libs/cooker/token.c`);
  - the tokenizer (`libs/cooker/tokenizer.c`).

  The tokenizer is specified by pure functions (`Tokenizer.Lex`, `Tokenizer.Scan`, `Tokenizer.Operator`, …). The imperative scanner is proved against them.
- **Atoms and variables** (`libs/cooker/atom.c`, `atom-text.c`, `atom-code.c`, `var.c`):
  - a text or code atom with its adjoin flag;
  - variables whose fields are kept sorted by name;
  - the lazily created root variable.
- **Small helpers**: `fls32`, `imin`/`imax`/`umin`/`umax` (`libs/useful/useful.c`, `useful.h`), and the xorwow generator of `libs/useful/rand.c`.

Each source file has one module:

| file | module |
|---|---|
| `useful.dfy` | `Useful` |
| `mem.dfy` | `Mem` |
| `rand.dfy` | `Rand` |
| `str.dfy` | `Str` |
| `vector.dfy` | `Vector` |
| `strvec.dfy` | `Strvec` |
| `input.dfy` | `Input` |
| `token.dfy` | `Token` |
| `tokenizer.dfy` | `Tokenizer` |
| `atom.dfy` | `Atom` |
| `atom_text.dfy` | `AtomText` |
| `atom_code.dfy` | `AtomCode` |
| `var.dfy` | `Var` |

`Mem` models the C library calls the sources make: `memmove`, `memcpy`, `memchr`, `memcmp` and `strlen`.

Conventions:

- Bytes are `Mem.Byte`, the characters below 256. `memcmp` compares them unsigned.
- `malloc` and `realloc` failure is a boolean parameter (`fail`, `mallocFails`). It says whether this call's allocation returns NULL.
- Integers are unbounded. Sizes are bounded where the source's `int` arithmetic would overflow: `Str.MAX_SIZE`, `Vector.MAX_ITEMS`. 32-bit words are written out with explicit `% 2^32`.

## Model

| member | source | states |
|---|---|---|
| Useful.Fls32 | libs/useful/useful.c:10-19 | the index of the highest set bit is at most 31, and is 0 for 0 and 1 |
| Useful.Fls32Brackets | libs/useful/useful.c:10-19 | for bits > 0, 2^fls32(bits) <= bits < 2^(fls32(bits)+1) |
| Useful.Fls32OfPow2 | libs/useful/useful.c:13-17 | fls32(2^k) == k for every k in 0..31 |
| Useful.IMin | libs/useful/useful.h:36-37 | the result is one of the arguments, no larger than either, and x when x <= y |
| Useful.IMax | libs/useful/useful.h:45-46 | the result is one of the arguments, no smaller than either, and x when x >= y: the larger value, as the code computes, although its doc comment says "smallest" |
| Useful.UMin | libs/useful/useful.h:54-55 | the same as IMin on unsigned 32-bit values |
| Useful.UMax | libs/useful/useful.h:63-64 | the same as IMax on unsigned 32-bit values |
| Rand.Seeded | libs/useful/rand.c:18-22 | srand's state: word i is seed + i modulo 2^32, for i in 0..4 |
| Rand.Xorwow.constructor | libs/useful/rand.c:16 | the static state starts as five zero words |
| Rand.Xorwow.Srand | libs/useful/rand.c:18-22 | the seeding loop leaves exactly Seeded(seed) in the state array |
| Rand.Xorwow.Rand | libs/useful/rand.c:24-41 | the state becomes Step(old state): the xorshift mix into word 0, the delay line in words 1..3, and the Weyl counter in word 4. The result is new word 0 plus new word 4 modulo 2^32 |
| Rand.Xorwow.SeedAndDraw | libs/useful/rand.c:16-41 | after srand(seed), the k-th rand() is Draw(seed, k), so the same seed gives the same sequence, and the state is the seed state stepped n times |
| Rand.CounterAdvances | libs/useful/rand.c:40 | after n calls, word 4 has grown by n * 362437 modulo 2^32 |
| Rand.DelayLine | libs/useful/rand.c:33-35 | k calls after a state, word k holds that state's word 0 (k = 1, 2, 3) |
| Rand.XorBelow | libs/useful/rand.c:30-38 | the xor of two n-bit words is an n-bit word, so the mix stays within 32 bits |
| Str.AllocSize | libs/useful/str.c:28-41 | 0 for size 0. Otherwise a power of two of at least 32 and above size + 1, and at most twice size + 1 unless it is the minimum 32 |
| Str.FirstFree | libs/useful/str.c:66-91 | str_newref's scan finds the first zero slot, or the end of the table |
| Str.Grown | libs/useful/str.c:66-91 | the table grown by str_newref is larger than before |
| Str.NewRefFresh | libs/useful/str.c:66-91 | the new handle is 1-based and its slot is 1. Every other slot is kept, and new slots are 0. The table keeps its length when a zero slot existed, and grows otherwise |
| Str.IncDecRestores | libs/useful/str.c:99-129 | str_decref after str_incref restores the table. On an UNUSED handle, incref makes a fresh handle, which is left at 1 after a decref |
| Str.RefPool.constructor | libs/useful/str.c:50-51 | the table starts empty |
| Str.RefPool.NewRef | libs/useful/str.c:66-91 | the scan-and-grow loop computes AfterNewRef of the old table |
| Str.RefPool.IncRef | libs/useful/str.c:99-114 | a used handle's slot rises by 1. An UNUSED handle becomes a fresh handle whose slot is 2. The result is never UNUSED |
| Str.RefPool.DecRef | libs/useful/str.c:121-129 | the handle's slot falls by 1 (UNUSED is ignored), and the new count is returned, or 0 for UNUSED |
| Str.RefPool.Finalize | libs/useful/str.c:131-141 | the table is reset. The handles still in use are reported in increasing order |
| Str.Detect | libs/useful/str.c:186-207 | str_c_detect: a negative size means strlen, with strlen + 1 allocated, or 0 for NULL. A given size drops the trailing NUL bytes, and allocated is the given size |
| Str.TrimNul | libs/useful/str.c:200-201 | dropping trailing NULs gives a prefix that does not end in NUL, and only NULs were dropped |
| Str.Substring | libs/useful/str.c:290-300 | a range starting inside the string is clamped to its end |
| Str.NewCopy | libs/useful/str.c:231-251 | a fresh block of the given size whose first n bytes are the copied range |
| Str.ShiftTail | libs/useful/str.c:515-517 | the memmove of str_insert and str_replace keeps the head and moves the tail from pos + n to pos + r |
| Str.SpliceBlock | libs/useful/str.c:576-583 | after the move, the copy and the terminator, the block reads head ++ replacement ++ tail, followed by NUL |
| Str.Str.New | libs/useful/str.c:145-153 | a zero string: no data, size 0, borrowed, UNUSED handle |
| Str.Str.Literal | libs/useful/str.c:23 | STR_INIT_C: a borrowed string over a NUL-terminated literal |
| Str.Str.Init | libs/useful/str.c:145-153 | str_init: empty, borrowed, no data, UNUSED handle |
| Str.Str.InitCConst | libs/useful/str.c:166-173 | str_init_c_const borrows the argument: the same block and offset, reading the given bytes |
| Str.Str.InitCPrealloc | libs/useful/str.c:209-218 | str_init_c_prealloc takes over the buffer. It reads the argument without trailing NULs, and allocated is the detected size |
| Str.Str.InitCCopy | libs/useful/str.c:231-251 | str_init_c_copy: a fresh terminated block with the argument's bytes, owned with AllocSize(size). An empty argument gives no block. It fails only when malloc does |
| Str.Str.InitBytes | libs/useful/str.c:238-250 | the copying part of str_init_c_copy, on bytes whose size is already known |
| Str.Str.OwnCopy | libs/useful/str.c:243-248 | a fresh terminated block owned by the string, with the given bytes |
| Str.Str.Done | libs/useful/str.c:334-347 | str_done empties the string, makes it borrowed and UNUSED, and decrements the handle of an owned string. The block is freed exactly when that count was 1 |
| Str.Str.CStr | libs/useful/str.c:358-372 | str_c gives "" or the string's bytes. It gives the bytes whenever the string is terminated and its terminator is inside the owned size |
| Str.Str.Set | libs/useful/str.c:440-465 | str_set releases the target, then reads the same bytes as the source. A borrowed source is aliased with an UNUSED handle. An owned source is shared and its count rises by one (a fresh handle starts at 2). The result is always true |
| Str.Str.ShareBlock | libs/useful/str.c:453-462 | the owned branch of str_set: both strings hold the incremented handle and the same block |
| Str.Str.InitCopy | libs/useful/str.c:268-273 | str_init_copy: str_set without releasing anything first. The pool changes only by the shared count |
| Str.Str.InitSubstr | libs/useful/str.c:290-317 | str_init_substr: a position outside the string gives an empty string. A borrowed source gives a zero-copy slice. The whole range of an owned source gives a shared copy. Any other range gives an owned copy. The source never changes |
| Str.Str.BorrowSubstr | libs/useful/str.c:302-309 | the zero-copy slice of a borrowed source |
| Str.Str.InitOwnedSubstr | libs/useful/str.c:311-316 | an owned source: the whole range is shared, any other range is copied |
| Str.Str.CopySubstr | libs/useful/str.c:316 | an owned copy of a range of an owned string |
| Str.Str.CopyRange | libs/useful/str.c:316 | the range, without trailing NULs, copied into a fresh block |
| Str.Str.UnshareExpand | libs/useful/str.c:374-398 | a negative growth fails. A string shared more than once gives its old handle back (decremented) and takes an UNUSED one. When it needs room, it moves to a fresh block of AllocSize(size + growth) bytes with the same bytes. An empty string with no growth keeps pointing at the old block with allocated 0. Otherwise nothing changes |
| Str.Str.Detach | libs/useful/str.c:384-393 | the copy to a private block keeps the bytes and sets the owned size |
| Str.Str.Unshare | libs/useful/str.c:400-403 | after str_unshare the string is not shared, its bytes are unchanged, and an owned non-empty string is private |
| Str.Str.Expand | libs/useful/str.c:405-438 | a negative growth fails with no change. On success the bytes are unchanged, the string is private and the owned size exceeds size + growth. On failure either nothing changed or realloc lost the block (size and allocated 0) |
| Str.Str.Grow | libs/useful/str.c:413-437 | a borrowed string gets an owned copy. An owned one is reallocated. A failed realloc empties it |
| Str.Str.Splice | libs/useful/str.c:576-584 | in a private block: the bytes become head ++ replacement ++ tail, terminated by NUL |
| Str.Str.Insert | libs/useful/str.c:495-525 | str_insert: a position past the end fails with no change. Otherwise the bytes become s[..pos] ++ ins ++ s[pos..]. An empty insert changes nothing. An adjoining borrowed insert at the end grows in place. It fails only when memory does |
| Str.Str.AdjoinGrow | libs/useful/str.c:503-509 | the adjoin shortcut: the size grows over the directly following bytes |
| Str.Str.ExpandSplice | libs/useful/str.c:576-586 | expand, then splice: on success the string is private and terminated and reads the spliced bytes |
| Str.Str.Append | libs/useful/str.c:527-530 | str_append is str_insert at the end: the bytes become s ++ tail |
| Str.Str.AppendCConst | libs/useful/str.c:532-565 | an empty string borrows the argument. A non-empty one reads s ++ the argument without trailing NULs. It fails only when memory does |
| Str.Str.AppendTrimmed | libs/useful/str.c:539-564 | the non-empty case: the argument is detected, then appended without trailing NULs |
| Str.Str.AppendBytes | libs/useful/str.c:544-564 | bytes directly following a borrowed string are taken in place. Otherwise they are copied behind it |
| Str.Str.GrowOver | libs/useful/str.c:545-553 | the in-place shortcut of str_append_c_const |
| Str.Str.ExpandCopy | libs/useful/str.c:556-564 | expand, then copy: on success the string is private, terminated, and reads s ++ the argument |
| Str.Str.PutTail | libs/useful/str.c:560-562 | the memcpy and terminator behind the string |
| Str.Str.ReplaceAsWritten | libs/useful/str.c:567-587 | str_replace as written: the range is clamped to the end. A replacement shorter than the range always fails with no change. Otherwise the bytes become s[..pos] ++ repl ++ s[pos + n..], private and terminated. The only exception is an empty replacement at 0 in an empty string that does not own a private block: there the terminator would be written through NULL or into a borrowed block, which `stray` reports |
| Str.Str.Replace | libs/useful/str.c:567-587 | str_replace as intended: any replacement at a position inside the string succeeds unless memory fails, with the same bytes and the same `stray` case |
| Str.Str.TerminateEmpty | libs/useful/str.c:575-584 | nothing replaced by nothing in an empty string: str_expand(str, 0) only unshares it, and the terminator goes into data[0]. That block is the string's own exactly when it was private. Otherwise `stray` is set and the string is left borrowing its block |
| Str.Str.DeleteAsWritten | libs/useful/str.c:589-592 | str_delete as written: deleting a non-empty range always fails and leaves the string as it was. Deleting at 0 from an empty string that is not private is the stray write of str_replace |
| Str.Str.Delete | libs/useful/str.c:589-592 | str_delete as intended: the bytes become s[..pos] ++ s[pos + n..], private and terminated except in the same stray case |
| Str.Str.FindChar | libs/useful/str.c:594-607 | found: the first occurrence at or after pos. Not found: the position is the size, and the byte does not occur from pos on |
| Str.OrderLe | libs/useful/str.c:483-492 | the memcmp-then-size order is the lexicographic order on bytes |
| Str.OrderZero | libs/useful/str.c:483-492 | the order is 0 exactly for equal byte sequences |
| Str.OrderAntisymmetric | libs/useful/str.c:483-492 | swapping the arguments negates the order |
| Str.LexTransitive | libs/useful/str.c:483-492 | the lexicographic order is transitive |
| Str.OrderTotal | libs/useful/str.c:483-492 | the order is total and transitive, so it can sort |
| Str.CompareIsOrder | libs/useful/str.c:467-493 | the corrected str_cmp is the byte order whenever its shortcut applies only to the same bytes. NULL is below every string |
| Str.CmpAsWrittenBorrowed | libs/useful/str.c:477-481 | str_cmp as written says two distinct borrowed strings are equal even when their bytes differ, and the corrected one does not |
| Str.CmpLiterals | libs/useful/str.c:477-481 | on the literals "abc" and "xyz", str_cmp as written gives 0, and the corrected comparison gives a negative answer |
| Str.CopyThenAppend | libs/useful/str.c:268-273 | copy on write: after b = copy of a, appending to b leaves a's bytes unchanged, and b reads a ++ tail |
| Vector.AllocSize | libs/useful/vector.c:19-31 | 0 for n <= 0. Otherwise a power of two of at least 16 and above n, and at most 2n unless it is the minimum 16 |
| Vector.SortedConcat | libs/useful/vector.c:309-330 | two sorted runs with every item of the first at most every item of the second join into a sorted run |
| Vector.SortedPartitioned | libs/useful/vector.c:346-399 | a sorted vector is partitioned around any item the comparator is consistent on, which is what the binary searches need |
| Vector.InsertKeepsSorted | libs/useful/vector.c:346-375 | inserting an item between the items at most it and those at least it keeps a sorted vector sorted |
| Vector.OpenGap | libs/useful/vector.c:149-168 | the in-place move opens a gap at pos and writes the new items there |
| Vector.CloseGap | libs/useful/vector.c:236-254 | the in-place move closes the gap of count items at pos |
| Vector.Swap | libs/useful/vector.c:256-261 | the two slots are exchanged and nothing else changes |
| Vector.OverwriteLoses | libs/useful/vector.c:195-197 | copying onto index 0 is not appending: the joined vector's first item is the other vector's first item |
| Vector.ScanUp | libs/useful/vector.c:285-286 | the upward scan stops at the first item not below the pivot. Every item it passed is at most the pivot |
| Vector.ScanDown | libs/useful/vector.c:287-288 | the downward scan stops at the first item not above the pivot. Every item it passed is at least the pivot |
| Vector.ExchangeAt | libs/useful/vector.c:290-299 | the exchange swaps two slots, keeps the multiset of the range, and follows the pivot's slot |
| Vector.Partition | libs/useful/vector.c:280-307 | the do-while pass permutes the range around a pivot taken from it. Everything left of i is at most the pivot, and everything right of j is at least it |
| Vector.SortRange | libs/useful/vector.c:275-331 | vector_qsort_i leaves the range a sorted permutation of itself and the rest of the array untouched |
| Vector.BinarySearch | libs/useful/vector.c:377-423 | an index whose item compares 0, or -1. On a partitioned vector, -1 means no item compares 0 |
| Vector.SortedSlot | libs/useful/vector.c:346-375 | the insertion index: items before it are at most the new item, and items after it at least it |
| Vector.Vector.Init | libs/useful/vector.c:33-39 | vector_init: empty, no table, capacity AllocSize(n), or 0 when the allocation fails |
| Vector.Vector.Clear | libs/useful/vector.c:50-58 | vector_clear: size 0, capacity kept, every item handed to free when there is a free function |
| Vector.Vector.Done | libs/useful/vector.c:60-71 | vector_done: every item is released as by clear, and the block is freed (capacity 0) |
| Vector.Vector.Allocate | libs/useful/vector.c:82-103 | vector_allocate: capacity only grows, to AllocSize(n) when that is larger, and the items are kept. A failed realloc resets size and capacity to 0 |
| Vector.Vector.Expand | libs/useful/vector.c:105-112 | room for xsize more items, with the items kept. A negative xsize changes nothing |
| Vector.Vector.Get | libs/useful/vector.c:114-122 | the item at pos for pos in [0, size), NULL (None) otherwise |
| Vector.Vector.Set | libs/useful/vector.c:124-147 | replaces the old item inside the vector and hands it to free only when it is not NULL and there is a free function. It appends at pos == size. Any other position fails with no change. Afterwards Get(pos) is the item |
| Vector.Vector.Place | libs/useful/vector.c:220-233 | the items are placed at pos, shifting the tail |
| Vector.Vector.InsertOne | libs/useful/vector.c:149-168 | vector_insert_one: a position outside [0, size] fails. Otherwise the items become old[..pos] ++ [item] ++ old[pos..] |
| Vector.Vector.Append | libs/useful/vector.c:170-173 | vector_append adds the item at the end |
| Vector.Vector.Insert | libs/useful/vector.c:202-234 | vector_insert: the list of items is inserted at pos, or a position outside [0, size] fails |
| Vector.Vector.Pop | libs/useful/vector.c:175-183 | vector_pop (size > 0): returns the last item without freeing it and drops it |
| Vector.Vector.Delete | libs/useful/vector.c:236-254 | vector_delete succeeds exactly when 0 <= pos < size and pos + count <= size. It frees exactly the removed items and leaves old[..pos] ++ old[pos + count..], with capacity kept |
| Vector.Vector.Exchange | libs/useful/vector.c:263-273 | vector_exchange swaps the two items, and fails with no change when either position is not below size |
| Vector.Vector.JoinAsWritten | libs/useful/vector.c:185-200 | vector_join as written: the other vector's items overwrite this vector's first slots, the size is not raised, and the other vector is emptied |
| Vector.Vector.Join | libs/useful/vector.c:185-200 | vector_join as documented: this vector's items followed by the other's, and the other is emptied |
| Vector.Vector.QSort | libs/useful/vector.c:333-344 | vector_qsort: false and no change without a comparator. Otherwise true, and the items are a sorted permutation of the old ones |
| Vector.Vector.InsertSorted | libs/useful/vector.c:346-375 | vector_insert_sorted: -1 without a comparator. Otherwise the index where the item was inserted, between the items at most it and at least it, which keeps a sorted vector sorted |
| Vector.Vector.FindSorted | libs/useful/vector.c:377-399 | vector_find_sorted: -1 without a comparator. Otherwise an index whose item compares 0, or -1 when, in a sorted vector, no item does |
| Vector.Vector.FindSortedKey | libs/useful/vector.c:401-423 | vector_find_sorted_key: the same with the key comparator |
| Strvec.CompareOnItems | libs/useful/strvec.c:45-53 | on the items of a string vector the comparator is the byte order, and NULL is below every string |
| Strvec.CompareConsistent | libs/useful/strvec.c:45-53 | that comparator is a consistent total order on the vector's items, so sort and search apply |
| Strvec.Init | libs/useful/strvec.c:23-29 | vector_str_init: an empty vector with free, compare and compare_key installed |
| Strvec.New | libs/useful/strvec.c:31-38 | vector_str_new: NULL when malloc fails, otherwise the vector vector_str_init makes |
| Strvec.Sort | libs/useful/strvec.c:16-21 | vector_qsort on a string vector returns true and sorts the strings by bytes |
| Strvec.InsertSorted | libs/useful/strvec.c:16-21 | vector_insert_sorted on a string vector never returns -1 and keeps it sorted |
| Strvec.SearchMeans | libs/useful/strvec.c:50-53 | on a sorted string vector, a found index holds the same bytes, and -1 means no string has them |
| Strvec.Find | libs/useful/strvec.c:50-53 | vector_find_sorted on a sorted string vector finds a string with the same bytes exactly when one exists |
| Input.Input.Init | libs/cooker/input.c:13-20 | input_init: empty text and name, cursor and indent 0, threshold INT_MAX, empty stack |
| Input.Input.Done | libs/cooker/input.c:22-26 | input_done releases the text and name only. The stack keeps its block and items |
| Input.Input.PushIndent | libs/cooker/input.c:36-40 | input_push_indent saves the threshold on the stack and sets the new one. Nothing else in the cursor changes |
| Input.Input.PopIndent | libs/cooker/input.c:42-46 | input_pop_indent restores the most recently saved threshold. Nothing else in the cursor changes |
| Input.PushPop | libs/cooker/input.c:36-46 | push(k) then pop restores the threshold and the stack exactly |
| Input.NestedPushPop | libs/cooker/input.c:36-46 | nested pushes pop in reverse order (last in, first out) |
| Token.Ordinal | libs/cooker/token.h:16-46 | every code has an enum value below 14 |
| Token.OrdinalBijective | libs/cooker/token.h:16-46 | codes and the values 0..13 correspond one to one, in enum order |
| Token.NamesDistinct | libs/cooker/token.c:12-28 | token_name gives a non-empty name per code, and different codes have different names |
| Token.Token.Init | libs/cooker/token.c:30-33 | token_init: code TOK_ERROR, empty text, line and column 0 |
| Token.Token.Reset | libs/cooker/token.c:30-33 | token_init applied to an existing token |
| Token.Token.Done | libs/cooker/token.c:35-38 | token_done releases the text only |
| Token.Token.CopyFrom | libs/cooker/token.c:45-51 | token_copy: the text and code of the source. Line and column stay as they were |
| Tokenizer.TabStopNext | libs/cooker/tokenizer.c:35-38 | a tab moves the column to the next multiple of 8, strictly forward and by at most 8 |
| Tokenizer.SpaceEnd | libs/cooker/tokenizer.c:27-54 | the whitespace run from i: all spaces, and it stops at the end or at a non-space |
| Tokenizer.LineEnd | libs/cooker/tokenizer.c:81 | the first LF at or after i, or the end |
| Tokenizer.SpaceLines | libs/cooker/tokenizer.c:43-46 | a whitespace run adds one line per LF |
| Tokenizer.SpaceColumnBound | libs/cooker/tokenizer.c:31-46 | the column after a run is at most 8 per byte beyond its start, and after a newline it is counted from 0 |
| Tokenizer.Operator | libs/cooker/tokenizer.c:167-209 | an operator takes one or two bytes inside the text |
| Tokenizer.Entity | libs/cooker/tokenizer.c:136-154 | an entity scan stays inside the text, and a complete one consumes at least one byte |
| Tokenizer.EntityVerbatim | libs/cooker/tokenizer.c:136-154 | a complete entity hands on exactly the bytes it consumes, and they end in ';' |
| Tokenizer.Scan | libs/cooker/tokenizer.c:215-306 | the word scan ends inside the text |
| Tokenizer.Lex | libs/cooker/tokenizer.c:156-315 | a token ends inside the text, at or after where it started |
| Tokenizer.Spaces | libs/cooker/tokenizer.c:19-74 | cook_spaces: the cursor moves over the whitespace run, and line and column follow it. The indent becomes the column if a line was crossed. The token is NEXT exactly when a line was crossed and indent <= threshold. It reports true exactly when bytes were consumed, and the text is the run |
| Tokenizer.CommentToken | libs/cooker/tokenizer.c:76-89 | cook_comment: the comment runs to the next LF or the end, excluding it. The column advances by its length, and the text is the comment |
| Tokenizer.Operator1 | libs/cooker/tokenizer.c:92-99 | a one-byte operator: one byte of text, and the cursor moves by one |
| Tokenizer.Operator2 | libs/cooker/tokenizer.c:102-119 | a two-byte operator exactly when the next byte is the expected one, with the cursor moved by two. Otherwise nothing changes |
| Tokenizer.Put | libs/useful/str.c:532-564 | str_append_c_const of one byte: an empty text becomes that byte, even a NUL. A non-empty text gets the byte appended, except that a NUL is trimmed away by str_c_detect |
| Tokenizer.PutAllConcat | libs/cooker/tokenizer.c:121-124 | handing bytes on in two runs gives the same text as handing them on in one |
| Tokenizer.KeptExact | libs/cooker/tokenizer.c:121-124 | the text built from a run of bytes is that run exactly when no NUL follows its first byte. It is never longer than the run, and never empty for a non-empty run |
| Tokenizer.AppendChar | libs/cooker/tokenizer.c:121-134 | token_append_char puts the byte into the text as Put says. LF moves to the next line, column 0. Any other byte moves the column by one |
| Tokenizer.AppendEntity | libs/cooker/tokenizer.c:136-154 | token_append_entity hands on the bytes Entity consumes, one at a time as Put takes them, and line and column follow those bytes |
| Tokenizer.WordToken | libs/cooker/tokenizer.c:211-314 | the word loop: offset and code are Scan's (TOK_ERROR with empty text for an unterminated quote or a bad escape). The text is what Put makes of the bytes Scan hands on, and line and column follow the consumed bytes |
| Tokenizer.OperatorToken | libs/cooker/tokenizer.c:167-209 | the operator switch produces exactly Operator's code and length, or leaves the cursor alone when a word follows |
| Tokenizer.OperatorOrWord | libs/cooker/tokenizer.c:164-315 | after the spaces, the token made is Lex's |
| Tokenizer.NextToken | libs/cooker/tokenizer.c:156-315 | input_token returns false exactly when Lex finds nothing (no whitespace and the end of the text). Otherwise the token and the new cursor are Lex's, and the token's position is the cursor at the start of the call |
| Tokenizer.LexLines | libs/cooker/tokenizer.c:43-46 | a token's end line is the start line plus the LFs it consumed |
| Tokenizer.LexNext | libs/cooker/tokenizer.c:56-65 | a token is NEXT exactly when it is a whitespace run that crossed a line and ends at a column <= threshold. The indent is updated exactly when a line was crossed |
| Tokenizer.DefaultThresholdNext | libs/cooker/tokenizer.c:56-65 | with input_init's INT_MAX threshold, every whitespace run that crosses a line is NEXT |
| Tokenizer.LexProgress | libs/cooker/tokenizer.c:156-315 | every call consumes at least one byte, except at a NUL byte, which C's strchr counts as a stop byte |
| Tokenizer.LexEmptyWord | libs/cooker/tokenizer.c:275-296 | an empty word starts with '"' (or NUL): only then can the asserts at lines 278 and 292 fire |
| Tokenizer.ScanEnds | libs/cooker/tokenizer.c:275-296 | a complete word ends at the end of the text or before a stop byte or an op-assign |
| Tokenizer.ScanPlain | libs/cooker/tokenizer.c:215-300 | a word without quotes or backslashes hands on exactly its bytes, and holds no NUL (a NUL stops it) |
| Tokenizer.LexVerbatim | libs/cooker/tokenizer.c:156-315 | a token without quotes or backslashes is never an error, and its text is the consumed bytes |
| Tokenizer.QuoteRoundTrip | libs/cooker/tokenizer.c:222-241 | quoting any bytes (surrounding quotes, each '"' doubled) and lexing them gives one word spanning the quoted text. Its text is the bytes as Put keeps them, which is the original bytes exactly when no NUL follows the first byte |
| Atom.Atom.Alloc | libs/cooker/atom.c:25 | the malloc of an atom, before it is initialised |
| Atom.Atom.Init | libs/cooker/atom.c:14-21 | atom_init: no table, not adjoined, the given type |
| Atom.Atom.Done | libs/cooker/atom.c:44-50 | atom_done as intended: a text atom's string is released (empty, borrowed, its handle decremented) |
| Atom.New | libs/cooker/atom.c:23-30 | atom_new: NULL exactly when malloc fails, otherwise a fresh atom as atom_init leaves it |
| Atom.NewCopyAsWritten | libs/cooker/atom.c:32-42 | atom_new_copy as written: only the type and the adjoin flag are copied. There is no table and no text |
| Atom.NewCopy | libs/cooker/atom.c:32-42 | atom_new_copy as documented: the same type, flag and table, and a new string reading the same bytes |
| Atom.SharedCopy | libs/useful/str.c:268-273 | a new string made by str_init_copy reads the source's bytes |
| Atom.DoneAsWritten | libs/cooker/atom.c:44-50 | atom_done as written never returns. It stops on its assert without a table, and otherwise it is still recursing at every depth |
| Atom.DoneNeverReturns | libs/cooker/atom-text.c:39-43 | for an atom with a table, the done dispatch recurses forever |
| Atom.CopyLosesText | libs/cooker/atom.c:32-42 | on a text atom, the copy as written has lost its table and text, so atom_done's assert stops on it. The corrected copy reads the same text |
| Atom.VectorInit | libs/cooker/atom.c:74-78 | vector_atom_init: empty, items freed, no comparator |
| Atom.Unsortable | libs/useful/vector.c:333-423 | on an atom vector, vector_qsort returns false, the sorted insert and find return -1, and the items do not change |
| AtomText.Init | libs/cooker/atom-text.c:20-25 | atom_text_init: a text atom, not adjoined, with the text table. Its string reads the argument's bytes as str_set leaves them. The result is true |
| AtomText.New | libs/cooker/atom-text.c:27-37 | atom_text_new: NULL exactly when malloc fails, otherwise a text atom reading the argument's bytes |
| AtomText.Render | libs/cooker/atom-text.c:51-55 | atom_text_text: the output string reads exactly the atom's text |
| AtomCode.Init | libs/cooker/atom-code.c:20-25 | atom_code_init: a code atom, not adjoined, with the code table. It always returns true |
| AtomCode.New | libs/cooker/atom-code.c:27-37 | atom_code_new: NULL exactly when malloc fails |
| AtomCode.Render | libs/cooker/atom-code.c:50-54 | atom_code_text: the output string is empty and borrowed, and its previous block is not released (the pool is untouched) |
| Var.NameOf | libs/cooker/var.c:58-66 | a comparator reads a NULL name exactly for a NULL item |
| Var.Names | libs/cooker/var.c:58-66 | the names the comparators read, item by item |
| Var.FieldConsistent | libs/cooker/var.c:58-61 | comparing fields by name is a consistent order on the fields vector |
| Var.FieldsPartitioned | libs/cooker/var.c:63-66 | a fields vector sorted by name is partitioned around any key, for the key comparator too |
| Var.InsertField | libs/cooker/var.c:46-72 | a sorted insert into the fields keeps them sorted by name and places the new field between smaller and larger names |
| Var.FindField | libs/cooker/var.c:63-66 | the key lookup on sorted fields finds a field with that name exactly when one exists, and gives -1 for a name never inserted |
| Var.VectorInit | libs/cooker/var.c:68-72 | vector_var_init: empty, with the fields table |
| Var.Var.Static | libs/cooker/var.c:78 | the static root starts zeroed |
| Var.Var.Init | libs/cooker/var.c:14-21 | var_init: the name reads the argument's bytes through str_init_copy, the value is an empty atom vector and the fields are an empty var vector |
| Var.Var.Done | libs/cooker/var.c:23-30 | var_done releases the name, and hands every atom of the value and every child field to the free function |
| Var.Var.Clear | libs/cooker/var.c:94 | the memset of the root: everything zero |
| Var.ZeroVector | libs/cooker/var.c:94 | a zeroed vector: empty, no block, no table |
| Var.Root.constructor | libs/cooker/var.c:76-78 | the root starts uninitialised (no name data) |
| Var.Root.Get | libs/cooker/var.c:80-87 | var_get_root_ctx returns the same object every time. It initialises it with the empty name only while its name has no data, and otherwise changes nothing |
| Var.Root.DoneRoot | libs/cooker/var.c:89-95 | var_done_root_ctx tears down only an initialised root, then zeroes it. Teardown of an uninitialised root is harmless, and the next Get initialises it again |

## Left out

- I/O and diagnostics:
  - `str_finalize` prints the leaked handles to stderr. `Str.RefPool.Finalize` returns them instead.
  - The test drivers and the statistical test harness of the generator are not part of this model.
- The parser (`libs/cooker/parser.c`) is not part of this model. Its grammar is compiled out, and it only wires the lexer to the variables.
- `libs/useful/bytevec.h` holds only macro aliases of the string API.
- Wrappers that are `malloc` plus an init are modelled only by their init:
  - `str_new`, `str_new_c_const`, `str_new_c_prealloc`, `str_new_c_copy`, `str_new_copy` and `str_new_substr`;
  - `str_free`, `vector_new` and `vector_free`;
  - `atom_free`, `atom_text_free` and `atom_code_free`;
  - `var_free`.

  `Strvec.New`, `Atom.New`, `AtomText.New` and `AtomCode.New` model the wrappers that the vectors and atoms are made with.
- Allocation failure is a boolean per call; the allocator's state is not modelled.
  - `str_newref` asserts that its realloc succeeded, so `Str.RefPool.NewRef` never fails.
  - The fallback in `str_set` after a failed share (`libs/useful/str.c:457-459`) is therefore unreachable and not modelled.
- Str.MAX_SIZE: string sizes are bounded so that `str_alloc_size`'s `1 << (fls + 1)` stays within a 32-bit `int`. Larger sizes would overflow in the source and are not modelled.
  - Vector.MAX_ITEMS plays the same role for `vector_alloc_size`.
- Str.Str.CanUnshare: it is a precondition of every mutator. A shared string must own more than its size, because `str_unshare_expand` copies size + 1 bytes.
  - A buffer taken over by `str_init_c_prealloc` with an explicit size can own exactly its size.
  - Sharing and then mutating such a buffer reads one byte past it in the source. The model excludes that.
- Str.Str.AppendCConst, Str.Str.AppendTrimmed and Str.Str.AppendBytes require that an owned string is not appended with bytes from its own block.
  - The in-place shortcut on an owned block adds the argument's allocated size to the string's (`libs/useful/str.c:549-550`). The model follows it only for borrowed strings.
- Str.Str.Insert, Str.Str.Append, Str.Str.Replace and Str.Str.ExpandSplice require that an inserted string does not share the target's own private block.
  - The source's memmove and memcpy would then overlap in the same block.
- Str.Str.Insert, Str.Str.ReplaceAsWritten, Str.Str.Replace, Str.Str.DeleteAsWritten and Str.Str.Delete require pos >= 0. The source rejects only a position past the end, and a negative one makes memmove and memcpy reach before the block.
- Str.Str.FindChar requires 0 <= pos <= size. Outside that range the source gives memchr a length that wraps around as a `size_t`.
- Str.Str.ReplaceAsWritten, Str.Str.Replace, Str.Str.DeleteAsWritten and Str.Str.Delete report the terminator written into an empty string that owns no private block as `stray`, and do not perform that write.
  - There the source writes through NULL, or into a block it only borrows or shares.
- Str.Str.InitSubstr requires n >= 0. A negative size reaches `str_init_c_copy` or a slice of negative size in the source.
- Str.Str.Set and Str.Str.InitCopy require two different strings. `str_set(s, s)` releases the string before reading it.
- Addresses: pointer identity and adjacency are modelled as the same array and offsets, not as integers.
- The tokenizer's text is the bytes of `input->text`; the token's string is modelled by its bytes.
  - The sharing of token text with the input (`str_init_c_const`) is not followed into the refcount table.
  - `Token.Token.CopyFrom` gives the source's bytes rather than a shared handle.
- NUL bytes in the script text are kept by the scanner. `strchr` counts the terminator as a member of the stop, escape and digit sets (`libs/cooker/tokenizer.c:151, 252, 275`), and the model does the same.
  - A NUL ends a plain word as a stop byte. Tokenizer.LexProgress shows that a call at a NUL consumes nothing.
  - A NUL inside quotes, in an escape or in an entity is consumed. The token's text keeps it only as its first byte, because `str_append_c_const` trims it otherwise (Tokenizer.Put).
- Tokenizer.AppendChar and Tokenizer.WordToken: the allocation failure of `str_append_c_const`, which `token_append_char` ignores, is not modelled. In the source a failed append loses that byte from the text, and the scan goes on.
- Tokenizer.WordToken models release builds: the asserts at `libs/cooker/tokenizer.c:278` and `292` are not modelled as stops.
  - They can fire only after an empty word, and Tokenizer.LexEmptyWord says when that happens.
- The `int` overflow of `line`, `column` and `ofs` on texts beyond 2^31 bytes is not modelled. Tokenizer.DefaultThresholdNext assumes the columns stay below INT_MAX.
- `input_set_text` is not modelled. As written it zeroes its own pointer parameter (`memset(&input, …)`) and then writes through NULL, so every call crashes.
- Input.Input.Done follows `input_done`: the stack of thresholds is not released, and that leak is kept.
- Input.Input.PopIndent requires a non-empty stack, which is `vector_pop`'s assert.
- Vector.Vector.Delete requires count >= 0. The source's range test does not reject a negative count, which would move items backwards.
- Vector.Vector.Exchange requires non-negative positions. The source checks only the upper bound.
- Vector.Vector.JoinAsWritten and Vector.Vector.Join require two distinct blocks, which is the source's `vec_to != vec_from` assert.
- Atom.Atom.Done models `atom_done` as intended: release the payload.
  - As written, the dispatch recurses forever (Atom.DoneAsWritten).
  - For the same reason, `atom_free`, `atom_text_done` and `atom_code_done` are not modelled separately.
- AtomText.New starts the new atom's string empty. In the source it is uninitialised memory that `str_set` then releases (`libs/cooker/atom-text.c:29-30`).
- The atom and variable vectors record the items handed to their free functions in a ghost log. What `atom_free` and `var_free` then do is not followed recursively.
- Strvec, Var.FieldConsistent, Var.InsertField and Var.FindField order strings by the corrected comparison Str.Compare.
  - As written, `str_cmp` calls any two distinct borrowed strings equal (see Findings), so it is not an order.
  - The properties of sorted insert and lookup hold only for the corrected comparison.
- Mem models `memmove`, `memcpy`, `memchr`, `memcmp` and `strlen` from the C library, not from this repository.

## Findings

| source | as written | input that shows it | evidently intended | confidence | as-written member | corrected member |
|---|---|---|---|---|---|---|
| libs/useful/str.c:477-481 | two strings with equal `allocated` of 0 compare equal without reading their bytes (Str.CmpAsWrittenBorrowed) | the borrowed literals "abc" and "xyz" (Str.CmpLiterals) | compare bytes unless both are the same string or share one block (Str.CompareIsOrder) | high, not executed | Str.CmpAsWritten | Str.Compare |
| libs/useful/str.c:575-576 | the string is expanded by `repl->size - size`, and str_expand refuses a negative size, so a shorter replacement always fails | replacing 2 bytes of "abc" at 0 by "x" | expand only by the bytes gained, none when shrinking | high, not executed | Str.Str.ReplaceAsWritten | Str.Str.Replace |
| libs/useful/str.c:589-592 | str_delete is str_replace with the empty string, so any non-empty deletion fails and changes nothing | deleting 1 byte of "ab" at 0 | the bytes become s[..pos] ++ s[pos + n..] | high, not executed | Str.Str.DeleteAsWritten | Str.Str.Delete |
| libs/useful/vector.c:195-197 | the items are copied to index 0 of the target and its size is not raised (Vector.OverwriteLoses) | joining [b] onto [a] gives [b] | append the other vector's items after the target's | high, not executed | Vector.Vector.JoinAsWritten | Vector.Vector.Join |
| libs/cooker/atom.c:44-50 | atom_done calls the table's done, which calls atom_done on the same atom first, so it never returns (Atom.DoneNeverReturns) | any text or code atom with its table | release the atom's payload | high, not executed | Atom.DoneAsWritten | Atom.Atom.Done |
| libs/cooker/atom.c:32-42 | atom_new_copy copies only the type and adjoin flag. The copy has no table and no text (Atom.CopyLosesText) | a text atom holding "a" | an independent copy with the same table and text | high, not executed | Atom.NewCopyAsWritten | Atom.NewCopy |
