/* The tokenizer's input of libs/cooker/input.c: the script text, a cursor
 * over it (offset, line, column, the indent of the current line) and the
 * indent threshold of the statement being parsed, with a stack of saved
 * thresholds for nested statements.
 *
 * The text and name strings are modelled by their bytes; the stack is the
 * vector of vector.dfy holding the saved thresholds.
 */
module Input {
  import opened Useful
  import opened Mem
  import opened Vector

  class Input {
    /** The whole script text. */
    var text: seq<Byte>
    /** The cursor: offset into text, line and column (both from 0). */
    var ofs: int
    var line: int
    var column: int
    /** The column of the first token of the current line. */
    var indent: int
    /** The indent threshold of the next statement. */
    var stmtIndent: int
    /** The saved thresholds of the enclosing statements. */
    var stack: Vector<int, int>
    /** The name used in error messages. */
    var name: seq<Byte>

    ghost predicate Valid()
      reads this, stack
    {
      stack.Valid() && 0 <= ofs <= |text| && 0 <= line && 0 <= column
    }

    /** input_init: empty text and name, the cursor at the start, no
      * threshold (INT_MAX) and an empty stack.
      */
    constructor Init()
      ensures Valid() && fresh(stack)
      ensures text == [] && name == []
      ensures ofs == 0 && line == 0 && column == 0 && indent == 0
      ensures stmtIndent == INT_MAX
      ensures stack.Items() == [] && stack.capacity == 0 && stack.vmt.None?
    {
      text, name := [], [];
      ofs, line, column, indent := 0, 0, 0, 0;
      stmtIndent := INT_MAX;
      stack := new Vector.Init(0, false);
    }

    /** input_done: the text and name are released; the stack block is
      * not, so its saved thresholds stay allocated.
      */
    method Done()
      requires Valid()
      modifies this
      ensures text == [] && name == []
      ensures stack == old(stack) && stack.Valid() && stack.capacity == old(stack.capacity)
      ensures stack.Items() == old(stack.Items())
      ensures ofs == old(ofs) && line == old(line) && column == old(column) && stmtIndent == old(stmtIndent)
    {
      text, name := [], [];
    }

    /** input_push_indent: save the current threshold and set a new one.
      * If the stack cannot grow it is left empty (vector_append's failure)
      * and the old threshold is lost.
      */
    method PushIndent(k: int, fail: bool)
      requires Valid() && stack.size < MAX_ITEMS
      modifies this, stack, stack.data
      ensures Valid() && stack == old(stack) && stmtIndent == k
      ensures stack.data == old(stack.data) || fresh(stack.data)
      ensures !fail ==> stack.Items() == old(stack.Items()) + [old(stmtIndent)]
      ensures fail ==> stack.Items() == old(stack.Items()) + [old(stmtIndent)] || stack.Items() == []
      ensures text == old(text) && name == old(name)
      ensures ofs == old(ofs) && line == old(line) && column == old(column) && indent == old(indent)
    {
      var _ := stack.Append(stmtIndent, fail);
      stmtIndent := k;
    }

    /** input_pop_indent: restore the most recently saved threshold; the
      * stack must not be empty (vector_pop's precondition).
      */
    method PopIndent()
      requires Valid() && stack.size > 0
      modifies this, stack
      ensures Valid() && stack == old(stack)
      ensures old(stack.Items()) == stack.Items() + [stmtIndent]
      ensures text == old(text) && name == old(name)
      ensures ofs == old(ofs) && line == old(line) && column == old(column) && indent == old(indent)
    {
      stmtIndent := stack.Pop();
    }
  }

  /** Push then pop restores the threshold and the stack: the stack is
    * last in, first out.
    */
  method PushPop(input: Input, k: int)
    requires input.Valid() && input.stack.size < MAX_ITEMS
    modifies input, input.stack, input.stack.data
    ensures input.Valid()
    ensures input.stmtIndent == old(input.stmtIndent)
    ensures input.stack.Items() == old(input.stack.Items())
    ensures input.ofs == old(input.ofs) && input.line == old(input.line) && input.column == old(input.column)
  {
    ghost var saved := input.stack.Items() + [input.stmtIndent];
    input.PushIndent(k, false);
    input.PopIndent();
    LastOf(saved, input.stack.Items(), input.stmtIndent);
  }

  /** Two pushes undone by two pops, innermost first, give back each saved
    * threshold in turn.
    */
  method NestedPushPop(input: Input, k1: int, k2: int) returns (first: int, second: int)
    requires input.Valid() && input.stack.size + 2 <= MAX_ITEMS
    modifies input, input.stack, input.stack.data
    ensures input.Valid()
    ensures first == k1 && second == old(input.stmtIndent)
    ensures input.stack.Items() == old(input.stack.Items())
  {
    ghost var s1 := input.stack.Items() + [input.stmtIndent];
    ghost var s2 := s1 + [k1];
    input.PushIndent(k1, false);
    input.PushIndent(k2, false);
    input.PopIndent();
    first := input.stmtIndent;
    LastOf(s2, input.stack.Items(), first);
    input.PopIndent();
    second := input.stmtIndent;
    LastOf(s1, input.stack.Items(), second);
  }

  /** What a pop takes off is the last item pushed. */
  lemma LastOf(pushed: seq<int>, rest: seq<int>, x: int)
    requires |pushed| > 0 && pushed == rest + [x]
    ensures rest == pushed[..|pushed| - 1] && x == pushed[|pushed| - 1]
  {
    assert pushed[..|pushed| - 1] == rest;
  }
}
