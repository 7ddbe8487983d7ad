/* The Cook script tokenizer of libs/cooker/tokenizer.c: input_token cuts
 * the next token off the input and moves the cursor past it.
 *
 * A token is a whitespace run (TOK_SPACE, or TOK_NEXT when it ends a
 * line at or left of the statement indent), a comment, an operator or a
 * word. Words may hold quoted parts ("" stands for one quote) and
 * backslash escapes, which are kept in the word for later unquoting;
 * \u and \x escapes run up to a ';'. Malformed escapes and unterminated
 * quotes give a TOK_ERROR token.
 *
 * The byte sets are looked up with strchr in the source, which also finds
 * the NUL terminator of the set: a NUL byte is a stop byte, an allowed
 * escape and an entity digit here too. A word's bytes are handed one at a
 * time to str_append_c_const, which keeps a first NUL but trims away any
 * later one (Put).
 */
module Tokenizer {
  import opened Useful
  import opened Mem
  import opened Token
  import opened Input
  import Str

  /* ---------------------------------------------------------------- */
  /* Byte classes                                                      */

  /** cook_tab_spaces. */
  const TAB_SPACES: int := 8

  predicate IsSpace(c: Byte)
  {
    c == ' ' || c == '\t' || c == '\r' || c == '\n'
  }

  /** strchr(cook_stop_characters, c). */
  predicate IsStop(c: Byte)
  {
    c in " \t\r\n#,{}=$" || c == NUL
  }

  /** strchr(cook_allowed_escapes, c). */
  predicate IsEscape(c: Byte)
  {
    c in "abtnre{}$\"s#.,=+-?\\ux" || c == NUL
  }

  /** The digits of a \u (decimal) or \x (hexadecimal) entity. */
  predicate IsDigit(c: Byte, hex: bool)
  {
    (if hex then c in "0123456789ABCDEFabcdef" else c in "0123456789") || c == NUL
  }

  /* ---------------------------------------------------------------- */
  /* The cursor                                                        */

  datatype Pos = Pos(line: int, column: int)

  /** (column + cook_tab_spaces) & ~(cook_tab_spaces - 1): the next tab
    * stop. Clearing the low bits of a two's complement number is
    * subtracting its non-negative remainder.
    */
  function TabStop(column: int): int
  {
    (column + TAB_SPACES) - (column + TAB_SPACES) % TAB_SPACES
  }

  /** A tab moves to the next multiple of 8, strictly right. */
  lemma TabStopNext(column: int)
    ensures TabStop(column) % TAB_SPACES == 0
    ensures column < TabStop(column) <= column + TAB_SPACES
  {
  }

  /** What one whitespace byte does to the cursor in cook_spaces. */
  function SpaceStep(c: Byte, p: Pos): Pos
  {
    if c == ' ' then Pos(p.line, p.column + 1)
    else if c == '\t' then Pos(p.line, TabStop(p.column))
    else if c == '\n' then Pos(p.line + 1, 0)
    else p
  }

  /** The cursor after a whitespace run. */
  function SpacePos(run: seq<Byte>, p: Pos): Pos
  {
    if |run| == 0 then p else SpaceStep(run[|run| - 1], SpacePos(run[..|run| - 1], p))
  }

  /** What one byte copied into a word, or a quote skipped, does to the
    * cursor.
    */
  function CharStep(c: Byte, p: Pos): Pos
  {
    if c == '\n' then Pos(p.line + 1, 0) else Pos(p.line, p.column + 1)
  }

  /** The cursor after the bytes of a word. */
  function CharPos(s: seq<Byte>, p: Pos): Pos
  {
    if |s| == 0 then p else CharStep(s[|s| - 1], CharPos(s[..|s| - 1], p))
  }

  /** The number of line feeds in s. */
  function NewLines(s: seq<Byte>): nat
  {
    if |s| == 0 then 0 else NewLines(s[..|s| - 1]) + (if s[|s| - 1] == '\n' then 1 else 0)
  }

  lemma SpacePosSnoc(t: seq<Byte>, a: int, b: int, p: Pos)
    requires 0 <= a <= b < |t|
    ensures SpacePos(t[a..b + 1], p) == SpaceStep(t[b], SpacePos(t[a..b], p))
  {
    assert t[a..b + 1][..b - a] == t[a..b];
  }

  lemma CharPosSnoc(t: seq<Byte>, a: int, b: int, p: Pos)
    requires 0 <= a <= b < |t|
    ensures CharPos(t[a..b + 1], p) == CharStep(t[b], CharPos(t[a..b], p))
  {
    assert t[a..b + 1][..b - a] == t[a..b];
  }

  /* ---------------------------------------------------------------- */
  /* The text of a word                                                */

  /** What token_append_char's str_append_c_const(&text, cptr, 1) makes
    * of the token's text: an empty text borrows the byte as it stands,
    * a non-empty one gets the byte as str_c_detect trims it, which loses
    * a NUL.
    */
  function Put(text: seq<Byte>, c: Byte): (r: seq<Byte>)
    ensures text != [] && c == NUL ==> r == text
    ensures text == [] || c != NUL ==> r == text + [c]
  {
    if text == [] then [c] else text + Str.TrimNul([c])
  }

  /** The text after the bytes of s are handed to token_append_char one
    * after the other.
    */
  function PutAll(text: seq<Byte>, s: seq<Byte>): seq<Byte>
  {
    if |s| == 0 then text else Put(PutAll(text, s[..|s| - 1]), s[|s| - 1])
  }

  lemma PutAllSnoc(text: seq<Byte>, s: seq<Byte>, c: Byte)
    ensures PutAll(text, s + [c]) == Put(PutAll(text, s), c)
  {
    assert (s + [c])[..|s|] == s;
  }

  lemma {:induction false} PutAllConcat(text: seq<Byte>, x: seq<Byte>, y: seq<Byte>)
    ensures PutAll(PutAll(text, x), y) == PutAll(text, x + y)
    decreases |y|
  {
    if |y| == 0 {
      assert x + y == x;
    } else {
      var y', c := y[..|y| - 1], y[|y| - 1];
      PutAllConcat(text, x, y');
      assert x + y == (x + y') + [c];
      PutAllSnoc(text, x + y', c);
    }
  }

  /** A word's text is exactly the bytes handed on when no NUL follows
    * the first of them; every later NUL is dropped, and a non-empty run
    * of bytes never leaves the text empty.
    */
  lemma {:induction false} KeptExact(s: seq<Byte>)
    ensures PutAll([], s) == s <==> forall k | 0 < k < |s| :: s[k] != NUL
    ensures |PutAll([], s)| <= |s|
    ensures s != [] ==> PutAll([], s) != []
    decreases |s|
  {
    if |s| > 0 {
      var s', c := s[..|s| - 1], s[|s| - 1];
      assert s == s' + [c];
      KeptExact(s');
      var k := PutAll([], s');
      if s' == [] {
        assert PutAll([], s) == [c] == s;
      } else if c == NUL {
        assert PutAll([], s) == k && |k| < |s|;
      } else {
        assert PutAll([], s) == k + [c];
        if k + [c] == s' + [c] {
          assert k == (k + [c])[..|k|] == (s' + [c])[..|s'|] == s';
        }
      }
    }
  }

  /** A whitespace run moves down one line per line feed, and it leaves
    * the line only through a line feed.
    */
  lemma {:induction false} SpaceLines(run: seq<Byte>, p: Pos)
    ensures SpacePos(run, p).line == p.line + NewLines(run)
  {
    if |run| > 0 {
      SpaceLines(run[..|run| - 1], p);
    }
  }

  /** After a line feed the column counts from 0, at most 8 per byte. */
  lemma {:induction false} SpaceColumnBound(run: seq<Byte>, p: Pos)
    requires 0 <= p.column
    ensures 0 <= SpacePos(run, p).column <= p.column + TAB_SPACES * |run|
    ensures NewLines(run) > 0 ==> SpacePos(run, p).column <= TAB_SPACES * |run|
  {
    if |run| > 0 {
      SpaceColumnBound(run[..|run| - 1], p);
    }
  }

  /* ---------------------------------------------------------------- */
  /* Reference definitions of the token shapes                         */

  /** The end of the whitespace run starting at i. */
  function SpaceEnd(t: seq<Byte>, i: int): (e: int)
    requires 0 <= i <= |t|
    ensures i <= e <= |t|
    ensures forall k | i <= k < e :: IsSpace(t[k])
    ensures e == |t| || !IsSpace(t[e])
    decreases |t| - i
  {
    if i == |t| || !IsSpace(t[i]) then i else SpaceEnd(t, i + 1)
  }

  /** The first line feed at or after i, or the end of the text. */
  function LineEnd(t: seq<Byte>, i: int): (e: int)
    requires 0 <= i <= |t|
    ensures i <= e <= |t|
    ensures forall k | i <= k < e :: t[k] != '\n'
    ensures e == |t| || t[e] == '\n'
    decreases |t| - i
  {
    if i == |t| || t[i] == '\n' then i else LineEnd(t, i + 1)
  }

  /** The operator starting at i, with its length, if any: cook_operator_1
    * and cook_operator_2 as input_token tries them.
    */
  function Operator(t: seq<Byte>, i: int): (r: Option<(Code, int)>)
    requires 0 <= i < |t|
    ensures r.Some? ==> 1 <= r.value.1 <= 2 && i + r.value.1 <= |t|
  {
    var c := t[i];
    var second := if i + 1 < |t| then t[i + 1] else NUL;
    if c == '=' then Some((Assign, 1))
    else if c == '?' && i + 1 < |t| && second == '=' then Some((CondAssign, 2))
    else if c == '+' && i + 1 < |t| && second == '=' then Some((Append, 2))
    else if c == '-' && i + 1 < |t| && second == '=' then Some((Exclude, 2))
    else if c == '$' then (if i + 1 < |t| && second == '{' then Some((Unveil, 2)) else Some((SimpleUnveil, 1)))
    else if c == '{' then Some((BraceOpen, 1))
    else if c == '}' then Some((BraceClose, 1))
    else if c == ',' then Some((Comma, 1))
    else None
  }

  /** What scanning part of a word yields: the bytes handed to
    * token_append_char, where the scan stopped, and whether the word is
    * well formed.
    */
  datatype Scanned = Scanned(out: seq<Byte>, end: int, ok: bool)

  function Prepend(s: seq<Byte>, r: Scanned): Scanned
  {
    Scanned(s + r.out, r.end, r.ok)
  }

  /** The digits of a \u or \x entity from j on and the ';' after them;
    * the end of the text or any other byte is an error at that byte.
    */
  function Entity(t: seq<Byte>, j: int, hex: bool): (r: Scanned)
    requires 0 <= j <= |t|
    ensures j <= r.end <= |t|
    ensures r.ok ==> j < r.end
    decreases |t| - j
  {
    if j == |t| then Scanned([], j, false)
    else if t[j] == ';' then Scanned([';'], j + 1, true)
    else if !IsDigit(t[j], hex) then Scanned([], j, false)
    else Prepend([t[j]], Entity(t, j + 1, hex))
  }

  /** The rest of a word from i, inside quotes when dq. */
  function Scan(t: seq<Byte>, i: int, dq: bool): (r: Scanned)
    requires 0 <= i <= |t|
    ensures i <= r.end <= |t|
    decreases |t| - i
  {
    if i == |t| then Scanned([], i, !dq)
    else if dq then
      if t[i] == '"' then
        if i + 1 < |t| && t[i + 1] == '"' then Prepend(['"'], Scan(t, i + 2, true))
        else Scan(t, i + 1, false)
      else Prepend([t[i]], Scan(t, i + 1, true))
    else if t[i] == '\\' then
      if i + 1 == |t| || !IsEscape(t[i + 1]) then Scanned([], i + 1, false)
      else if t[i + 1] == 'u' || t[i + 1] == 'x' then
        var e := Entity(t, i + 2, t[i + 1] == 'x');
        if e.ok then Prepend(['\\', t[i + 1]] + e.out, Scan(t, e.end, false))
        else Scanned([], e.end, false)
      else Prepend(['\\', t[i + 1]], Scan(t, i + 2, false))
    else if t[i] == '"' then Scan(t, i + 1, true)
    else if IsStop(t[i]) then Scanned([], i, true)
    else if (t[i] == '+' || t[i] == '-' || t[i] == '?') && i + 1 < |t| && t[i + 1] == '=' then Scanned([], i, true)
    else Prepend([t[i]], Scan(t, i + 1, false))
  }

  /** The bytes of an entity, with its ';', are handed on as they stand. */
  lemma {:induction false} EntityVerbatim(t: seq<Byte>, j: int, hex: bool)
    requires 0 <= j <= |t|
    ensures Entity(t, j, hex).ok ==> Entity(t, j, hex).out == t[j..Entity(t, j, hex).end]
    ensures Entity(t, j, hex).ok ==> t[Entity(t, j, hex).end - 1] == ';'
    decreases |t| - j
  {
    if j < |t| && t[j] != ';' && IsDigit(t[j], hex) {
      EntityVerbatim(t, j + 1, hex);
      var e := Entity(t, j + 1, hex);
      if e.ok {
        assert t[j..e.end] == [t[j]] + t[j + 1..e.end];
      }
    }
  }

  /* ---------------------------------------------------------------- */
  /* The token input_token makes                                       */

  /** A token with the cursor after it and the line indent. */
  datatype Lexeme = Lexeme(code: Code, text: seq<Byte>, end: int, pos: Pos, indent: int)

  /** The token input_token cuts at offset i when the cursor is at p: None
    * at the end of the text, else whitespace, a comment, an operator or a
    * word, in that order of precedence.
    */
  function Lex(t: seq<Byte>, i: int, p: Pos, indent: int, stmtIndent: int): (r: Option<Lexeme>)
    requires 0 <= i <= |t|
    ensures r.Some? ==> i <= r.value.end <= |t|
  {
    if i == |t| then None
    else if IsSpace(t[i]) then
      var e := SpaceEnd(t, i);
      var q := SpacePos(t[i..e], p);
      var crossed := q.line != p.line;
      Some(Lexeme(if crossed && q.column <= stmtIndent then Next else Space,
                  t[i..e], e, q, if crossed then q.column else indent))
    else if t[i] == '#' then
      var e := LineEnd(t, i + 1);
      Some(Lexeme(Comment, t[i..e], e, Pos(p.line, p.column + (e - i)), indent))
    else if Operator(t, i).Some? then
      var (code, n) := Operator(t, i).value;
      Some(Lexeme(code, t[i..i + n], i + n, Pos(p.line, p.column + n), indent))
    else
      var s := Scan(t, i, false);
      Some(Lexeme(if s.ok then Word else Error, if s.ok then PutAll([], s.out) else [], s.end,
                  CharPos(t[i..s.end], p), indent))
  }

  /* ---------------------------------------------------------------- */
  /* The scanner                                                       */

  /** cook_spaces: skip the whitespace run at the cursor, record the
    * cursor in the token, and classify the run.
    */
  method Spaces(input: Input, token: Token) returns (got: bool)
    requires input.Valid()
    modifies input`ofs, input`line, input`column, input`indent, token`line, token`column, token`code, token`text
    ensures input.Valid()
    ensures token.line == old(input.line) && token.column == old(input.column)
    ensures input.ofs == SpaceEnd(input.text, old(input.ofs))
    ensures Pos(input.line, input.column)
         == SpacePos(input.text[old(input.ofs)..input.ofs], Pos(old(input.line), old(input.column)))
    ensures input.indent == if input.line != old(input.line) then input.column else old(input.indent)
    ensures token.code == if input.line != old(input.line) && input.indent <= input.stmtIndent then Next else Space
    ensures got <==> input.ofs > old(input.ofs)
    ensures token.text == if got then input.text[old(input.ofs)..input.ofs] else old(token.text)
  {
    token.line, token.column := input.line, input.column;
    var start := input.ofs;
    token.code := Space;
    ghost var p := Pos(token.line, token.column);
    while input.ofs < |input.text| && IsSpace(input.text[input.ofs])
      invariant start <= input.ofs <= |input.text|
      invariant forall k | start <= k < input.ofs :: IsSpace(input.text[k])
      invariant Pos(input.line, input.column) == SpacePos(input.text[start..input.ofs], p)
      invariant 0 <= input.line && 0 <= input.column
      invariant p == Pos(token.line, token.column) && token.code == Space && token.text == old(token.text)
      invariant input.indent == old(input.indent)
      decreases |input.text| - input.ofs
    {
      SpacePosSnoc(input.text, start, input.ofs, p);
      var c := input.text[input.ofs];
      if c == ' ' {
        input.column := input.column + 1;
      } else if c == '\t' {
        TabStopNext(input.column);
        input.column := TabStop(input.column);
      } else if c == '\n' {
        input.line := input.line + 1;
        input.column := 0;
      }
      input.ofs := input.ofs + 1;
    }
    SpaceEndAt(input.text, start, input.ofs);
    if token.line != input.line {
      input.indent := input.column;
      if input.indent <= input.stmtIndent {
        token.code := Next;
      }
    }
    got := input.ofs > start;
    if got {
      token.text := input.text[start..input.ofs];
    }
  }

  lemma {:induction false} SpaceEndAt(t: seq<Byte>, i: int, e: int)
    requires 0 <= i <= e <= |t|
    requires forall k | i <= k < e :: IsSpace(t[k])
    requires e == |t| || !IsSpace(t[e])
    ensures SpaceEnd(t, i) == e
    decreases e - i
  {
    if i < e {
      SpaceEndAt(t, i + 1, e);
    }
  }

  lemma {:induction false} LineEndAt(t: seq<Byte>, i: int, e: int)
    requires 0 <= i <= e <= |t|
    requires forall k | i <= k < e :: t[k] != '\n'
    requires e == |t| || t[e] == '\n'
    ensures LineEnd(t, i) == e
    decreases e - i
  {
    if i < e {
      LineEndAt(t, i + 1, e);
    }
  }

  /** cook_comment: from the '#' to the next line feed (str_find_char),
    * which stays in the input.
    */
  method CommentToken(input: Input, token: Token)
    requires input.Valid() && input.ofs < |input.text|
    modifies input`ofs, input`column, token`text, token`code
    ensures input.Valid()
    ensures input.ofs == LineEnd(input.text, old(input.ofs) + 1)
    ensures input.column == old(input.column) + (input.ofs - old(input.ofs))
    ensures token.text == input.text[old(input.ofs)..input.ofs] && token.code == Comment
  {
    var start := input.ofs;
    input.ofs := input.ofs + 1;
    var at := input.ofs;
    while at < |input.text| && input.text[at] != '\n'
      invariant start + 1 <= at <= |input.text|
      invariant forall k | start + 1 <= k < at :: input.text[k] != '\n'
      decreases |input.text| - at
    {
      at := at + 1;
    }
    LineEndAt(input.text, start + 1, at);
    input.ofs := at;
    var size := input.ofs - start;
    input.column := input.column + size;
    token.text := input.text[start..start + size];
    token.code := Comment;
  }

  /** cook_operator_1: a one-byte operator token. */
  method Operator1(input: Input, token: Token, code: Code)
    requires input.Valid() && input.ofs < |input.text|
    modifies input`ofs, input`column, token`text, token`code
    ensures input.Valid()
    ensures input.ofs == old(input.ofs) + 1 && input.column == old(input.column) + 1
    ensures token.text == input.text[old(input.ofs)..input.ofs] && token.code == code
  {
    token.text := input.text[input.ofs..input.ofs + 1];
    token.code := code;
    input.ofs := input.ofs + 1;
    input.column := input.column + 1;
  }

  /** cook_operator_2: a two-byte operator token when the next byte is
    * second; otherwise nothing changes.
    */
  method Operator2(input: Input, token: Token, second: Byte, code: Code) returns (ok: bool)
    requires input.Valid() && input.ofs < |input.text|
    modifies input`ofs, input`column, token`text, token`code
    ensures input.Valid()
    ensures ok <==> old(input.ofs) + 1 < |input.text| && input.text[old(input.ofs) + 1] == second
    ensures ok ==> input.ofs == old(input.ofs) + 2 && input.column == old(input.column) + 2
    ensures ok ==> token.text == input.text[old(input.ofs)..input.ofs] && token.code == code
    ensures !ok ==> token.text == old(token.text) && token.code == old(token.code)
    ensures !ok ==> input.ofs == old(input.ofs) && input.column == old(input.column)
  {
    var ofs := input.ofs + 1;
    if ofs >= |input.text| {
      return false;
    }
    if input.text[ofs] != second {
      return false;
    }
    token.text := input.text[input.ofs..input.ofs + 2];
    token.code := code;
    input.ofs := input.ofs + 2;
    input.column := input.column + 2;
    ok := true;
  }

  /** token_append_char: hand the byte at pos to the token's text and
    * move the cursor over it (also over a NUL the text drops).
    */
  method AppendChar(input: Input, token: Token, pos: int) returns (next: int)
    requires 0 <= pos < |input.text|
    modifies input`line, input`column, token`text
    ensures next == pos + 1
    ensures token.text == Put(old(token.text), input.text[pos])
    ensures Pos(input.line, input.column) == CharStep(input.text[pos], Pos(old(input.line), old(input.column)))
  {
    token.text := Put(token.text, input.text[pos]);
    if input.text[pos] == '\n' {
      input.line := input.line + 1;
      input.column := 0;
    } else {
      input.column := input.column + 1;
    }
    next := pos + 1;
  }

  /** token_append_entity: copy the 'u' or 'x' at pos and the digits after
    * it; it stops on the ';' (not copied) and answers true, or on the end
    * of the text or a bad byte and answers false.
    */
  method AppendEntity(input: Input, token: Token, pos: int, hex: bool) returns (ok: bool, next: int)
    requires 0 <= pos < |input.text| && 0 <= input.line && 0 <= input.column
    modifies input`line, input`column, token`text
    ensures 0 <= input.line && 0 <= input.column
    ensures var e := Entity(input.text, pos + 1, hex);
      ok == e.ok && next == (if ok then e.end - 1 else e.end)
    ensures pos < next <= |input.text|
    ensures token.text == PutAll(old(token.text), input.text[pos..next])
    ensures Pos(input.line, input.column) == CharPos(input.text[pos..next], Pos(old(input.line), old(input.column)))
  {
    ghost var p := Pos(input.line, input.column);
    ghost var t0 := token.text;
    ghost var whole := Entity(input.text, pos + 1, hex);
    next := pos;
    while true
      invariant pos <= next < |input.text|
      invariant Entity(input.text, next + 1, hex).end == whole.end
      invariant Entity(input.text, next + 1, hex).ok == whole.ok
      invariant token.text == PutAll(t0, input.text[pos..next])
      invariant Pos(input.line, input.column) == CharPos(input.text[pos..next], p)
      invariant 0 <= input.line && 0 <= input.column
      decreases |input.text| - next
    {
      next := EntityByte(input, token, pos, next, p, t0);
      if next >= |input.text| {
        return false, next;
      }
      var c := input.text[next];
      if c == ';' {
        return true, next;
      }
      if !IsDigit(c, hex) {
        return false, next;
      }
    }
  }

  /** token_append_char in the entity loop: the byte at ofs joins the
    * bytes handed on since pos, and the cursor moves over it.
    */
  method EntityByte(input: Input, token: Token, pos: int, ofs: int, ghost p: Pos, ghost t0: seq<Byte>) returns (next: int)
    requires 0 <= pos <= ofs < |input.text|
    requires token.text == PutAll(t0, input.text[pos..ofs])
    requires Pos(input.line, input.column) == CharPos(input.text[pos..ofs], p)
    requires 0 <= input.line && 0 <= input.column
    modifies input`line, input`column, token`text
    ensures next == ofs + 1 && 0 <= input.line && 0 <= input.column
    ensures token.text == PutAll(t0, input.text[pos..next])
    ensures Pos(input.line, input.column) == CharPos(input.text[pos..next], p)
  {
    CharPosSnoc(input.text, pos, ofs, p);
    PutAllSnoc(t0, input.text[pos..ofs], input.text[ofs]);
    next := AppendChar(input, token, ofs);
    assert input.text[pos..next] == input.text[pos..ofs] + [input.text[ofs]];
  }

  /** The cursor moves over a word's bytes piece by piece. */
  lemma {:induction false} CharPosSplit(t: seq<Byte>, a: int, b: int, c: int, p: Pos)
    requires 0 <= a <= b <= c <= |t|
    ensures CharPos(t[a..c], p) == CharPos(t[b..c], CharPos(t[a..b], p))
    decreases c - b
  {
    if b < c {
      CharPosSplit(t, a, b, c - 1, p);
      CharPosSnoc(t, a, c - 1, p);
      CharPosSnoc(t, b, c - 1, CharPos(t[a..b], p));
    }
  }

  /** A byte before which a word ends outside quotes: a stop byte, or
    * '+', '-' or '?' starting an operator.
    */
  predicate WordBreak(t: seq<Byte>, i: int)
    requires 0 <= i < |t|
  {
    IsStop(t[i]) || ((t[i] == '+' || t[i] == '-' || t[i] == '?') && i + 1 < |t| && t[i + 1] == '=')
  }

  /** The word loop's state: text is what has been handed to
    * token_append_char so far, and the scan from ofs completes it to the
    * whole word S.
    */
  ghost predicate WordState(t: seq<Byte>, ofs: int, dq: bool, text: seq<Byte>, S: Scanned)
  {
    0 <= ofs <= |t|
    && Scan(t, ofs, dq).end == S.end && Scan(t, ofs, dq).ok == S.ok
    && text + Scan(t, ofs, dq).out == S.out
  }

  lemma WordStart(t: seq<Byte>, i: int)
    requires 0 <= i <= |t|
    ensures WordState(t, i, false, [], Scan(t, i, false))
  {
  }

  /** A byte copied as it is, inside or outside quotes. */
  lemma CopyStep(t: seq<Byte>, ofs: int, dq: bool, text: seq<Byte>, S: Scanned)
    requires WordState(t, ofs, dq, text, S) && ofs < |t|
    requires if dq then t[ofs] != '"' else t[ofs] != '\\' && t[ofs] != '"' && !WordBreak(t, ofs)
    ensures WordState(t, ofs + 1, dq, text + [t[ofs]], S)
  {
  }

  /** A doubled quote inside quotes copies one quote. */
  lemma DoubledQuoteStep(t: seq<Byte>, ofs: int, text: seq<Byte>, S: Scanned)
    requires WordState(t, ofs, true, text, S) && ofs + 1 < |t| && t[ofs] == '"' && t[ofs + 1] == '"'
    ensures WordState(t, ofs + 2, true, text + [t[ofs + 1]], S)
  {
  }

  /** A single quote opens or closes a quoted part and is not copied. */
  lemma QuoteStep(t: seq<Byte>, ofs: int, dq: bool, text: seq<Byte>, S: Scanned)
    requires WordState(t, ofs, dq, text, S) && ofs < |t| && t[ofs] == '"'
    requires dq ==> !(ofs + 1 < |t| && t[ofs + 1] == '"')
    ensures WordState(t, ofs + 1, !dq, text, S)
  {
  }

  /** A valid escape other than \\u and \\x is copied with its backslash. */
  lemma EscapeStep(t: seq<Byte>, ofs: int, text: seq<Byte>, S: Scanned)
    requires WordState(t, ofs, false, text, S) && ofs + 1 < |t| && t[ofs] == '\\'
    requires IsEscape(t[ofs + 1]) && t[ofs + 1] != 'u' && t[ofs + 1] != 'x'
    ensures WordState(t, ofs + 2, false, text + [t[ofs]] + [t[ofs + 1]], S)
  {
    assert text + [t[ofs]] + [t[ofs + 1]] == text + ['\\', t[ofs + 1]];
  }

  /** Scan takes a well formed \\u or \\x entity, up to and with its
    * ';', as it stands.
    */
  lemma ScanEntity(t: seq<Byte>, ofs: int)
    requires 0 <= ofs && ofs + 1 < |t| && t[ofs] == '\\' && (t[ofs + 1] == 'u' || t[ofs + 1] == 'x')
    requires Entity(t, ofs + 2, t[ofs + 1] == 'x').ok
    ensures var e := Entity(t, ofs + 2, t[ofs + 1] == 'x');
      Scan(t, ofs, false) == Prepend(t[ofs..e.end], Scan(t, e.end, false))
  {
    var e := Entity(t, ofs + 2, t[ofs + 1] == 'x');
    EntityVerbatim(t, ofs + 2, t[ofs + 1] == 'x');
    assert IsEscape(t[ofs + 1]);
    assert t[ofs..e.end] == ['\\', t[ofs + 1]] + t[ofs + 2..e.end];
  }

  /** A well formed \\u or \\x entity is copied up to and with its ';'. */
  lemma EntityStep(t: seq<Byte>, ofs: int, text: seq<Byte>, S: Scanned)
    requires WordState(t, ofs, false, text, S) && ofs + 1 < |t| && t[ofs] == '\\'
    requires t[ofs + 1] == 'u' || t[ofs + 1] == 'x'
    requires Entity(t, ofs + 2, t[ofs + 1] == 'x').ok
    ensures var e := Entity(t, ofs + 2, t[ofs + 1] == 'x');
      WordState(t, e.end, false, text + t[ofs..e.end], S)
  {
    var e := Entity(t, ofs + 2, t[ofs + 1] == 'x');
    ScanEntity(t, ofs);
    assert text + t[ofs..e.end] + Scan(t, e.end, false).out == text + (t[ofs..e.end] + Scan(t, e.end, false).out);
  }

  /** The bytes copied one by one and in a run make up one slice. */
  lemma Glue(t: seq<Byte>, before: seq<Byte>, ofs: int, n: int)
    requires 0 <= ofs < n < |t|
    ensures before + [t[ofs]] + t[ofs + 1..n] + [t[n]] == before + t[ofs..n + 1]
  {
    assert t[ofs..n + 1] == [t[ofs]] + t[ofs + 1..n] + [t[n]];
  }

  /** The ends of the word loop: the end of the text, a word break, a bad
    * escape, a bad entity.
    */
  lemma EndAtLast(t: seq<Byte>, dq: bool, text: seq<Byte>, S: Scanned)
    requires WordState(t, |t|, dq, text, S)
    ensures S.end == |t| && S.ok == !dq && S.out == text
  {
  }

  lemma EndAtBreak(t: seq<Byte>, ofs: int, text: seq<Byte>, S: Scanned)
    requires WordState(t, ofs, false, text, S) && ofs < |t| && t[ofs] != '\\' && t[ofs] != '"' && WordBreak(t, ofs)
    ensures S.end == ofs && S.ok && S.out == text
  {
  }

  lemma EndAtBadEscape(t: seq<Byte>, ofs: int, text: seq<Byte>, S: Scanned)
    requires WordState(t, ofs, false, text, S) && ofs < |t| && t[ofs] == '\\'
    requires ofs + 1 == |t| || !IsEscape(t[ofs + 1])
    ensures S.end == ofs + 1 && !S.ok
  {
  }

  lemma EndAtBadEntity(t: seq<Byte>, ofs: int, text: seq<Byte>, S: Scanned)
    requires WordState(t, ofs, false, text, S) && ofs + 1 < |t| && t[ofs] == '\\'
    requires t[ofs + 1] == 'u' || t[ofs + 1] == 'x'
    requires !Entity(t, ofs + 2, t[ofs + 1] == 'x').ok
    ensures S.end == Entity(t, ofs + 2, t[ofs + 1] == 'x').end && !S.ok
  {
    assert IsEscape(t[ofs + 1]);
  }

  /** token_append_char in the word loop: the byte at ofs joins the bytes
    * handed on, and the cursor moves over it.
    */
  method CopyByte(input: Input, token: Token, ofs: int, ghost start: int, ghost p: Pos, ghost raw: seq<Byte>)
    returns (next: int, ghost raw2: seq<Byte>)
    requires 0 <= start <= ofs < |input.text|
    requires token.text == PutAll([], raw)
    requires Pos(input.line, input.column) == CharPos(input.text[start..ofs], p)
    requires 0 <= input.line && 0 <= input.column
    modifies input`line, input`column, token`text
    ensures 0 <= input.line && 0 <= input.column
    ensures next == ofs + 1 && raw2 == raw + [input.text[ofs]]
    ensures token.text == PutAll([], raw2)
    ensures Pos(input.line, input.column) == CharPos(input.text[start..next], p)
  {
    CharPosSnoc(input.text, start, ofs, p);
    PutAllSnoc([], raw, input.text[ofs]);
    raw2 := raw + [input.text[ofs]];
    next := AppendChar(input, token, ofs);
  }

  /** One pass of the word loop of input_token at ofs, inside quotes when
    * quoted, with raw handed on so far. It either goes on (at next,
    * quoted after it when nowQuoted, with raw2 handed on), or stops: at a
    * word break, or with failed at a bad escape or entity.
    */
  method WordStep(input: Input, token: Token, ofs: int, quoted: bool, ghost start: int, ghost p: Pos, ghost S: Scanned, ghost raw: seq<Byte>)
    returns (next: int, nowQuoted: bool, stop: bool, failed: bool, ghost raw2: seq<Byte>)
    requires 0 <= start <= ofs < |input.text|
    requires WordState(input.text, ofs, quoted, raw, S) && token.text == PutAll([], raw)
    requires Pos(input.line, input.column) == CharPos(input.text[start..ofs], p)
    requires 0 <= input.line && 0 <= input.column
    modifies input`line, input`column, token`text
    ensures ofs <= next <= |input.text| && (stop || ofs < next)
    ensures Pos(input.line, input.column) == CharPos(input.text[start..next], p)
    ensures 0 <= input.line && 0 <= input.column
    ensures token.text == PutAll([], raw2)
    ensures !stop ==> WordState(input.text, next, nowQuoted, raw2, S)
    ensures stop && !failed ==> !nowQuoted && S.end == next && S.ok && S.out == raw2
    ensures failed ==> stop && S.end == next && !S.ok
  {
    if quoted {
      next, nowQuoted, stop, failed, raw2 := QuotedStep(input, token, ofs, quoted, start, p, S, raw);
    } else if input.text[ofs] == '\\' {
      next, nowQuoted, stop, failed, raw2 := BackslashStep(input, token, ofs, quoted, start, p, S, raw);
    } else {
      next, nowQuoted, stop, failed, raw2 := PlainStep(input, token, ofs, quoted, start, p, S, raw);
    }
  }

  /** The pass inside quotes: a quote ends the quoted part unless it is
    * doubled; any other byte is copied.
    */
  method QuotedStep(input: Input, token: Token, ofs: int, quoted: bool, ghost start: int, ghost p: Pos, ghost S: Scanned, ghost raw: seq<Byte>)
    returns (next: int, nowQuoted: bool, stop: bool, failed: bool, ghost raw2: seq<Byte>)
    requires 0 <= start <= ofs < |input.text|
    requires quoted
    requires WordState(input.text, ofs, quoted, raw, S) && token.text == PutAll([], raw)
    requires Pos(input.line, input.column) == CharPos(input.text[start..ofs], p)
    requires 0 <= input.line && 0 <= input.column
    modifies input`line, input`column, token`text
    ensures ofs <= next <= |input.text| && (stop || ofs < next)
    ensures Pos(input.line, input.column) == CharPos(input.text[start..next], p)
    ensures 0 <= input.line && 0 <= input.column
    ensures token.text == PutAll([], raw2)
    ensures !stop ==> WordState(input.text, next, nowQuoted, raw2, S)
    ensures stop && !failed ==> !nowQuoted && S.end == next && S.ok && S.out == raw2
    ensures failed ==> stop && S.end == next && !S.ok
  {
    var t := input.text;
    next, nowQuoted, stop, failed := ofs, quoted, false, false;
    raw2 := raw;
    if t[next] == '"' {
      if next + 1 < |t| && t[next + 1] == '"' {
        DoubledQuoteStep(t, next, raw, S);
      } else {
        QuoteStep(t, next, true, raw, S);
      }
      CharPosSnoc(t, start, next, p);
      next := next + 1;
      input.column := input.column + 1;
      if next < |t| && t[next] == '"' {
        // a doubled quote: the second one is copied below
      } else {
        nowQuoted := false;
        return;
      }
    } else {
      CopyStep(t, next, true, raw, S);
    }
    next, raw2 := CopyByte(input, token, next, start, p, raw);
  }

  /** The pass at a backslash outside quotes: the backslash, then a valid
    * escape byte, and for \\u and \\x the entity up to its ';'.
    */
  method BackslashStep(input: Input, token: Token, ofs: int, quoted: bool, ghost start: int, ghost p: Pos, ghost S: Scanned, ghost raw: seq<Byte>)
    returns (next: int, nowQuoted: bool, stop: bool, failed: bool, ghost raw2: seq<Byte>)
    requires 0 <= start <= ofs < |input.text|
    requires !quoted && input.text[ofs] == '\\'
    requires WordState(input.text, ofs, quoted, raw, S) && token.text == PutAll([], raw)
    requires Pos(input.line, input.column) == CharPos(input.text[start..ofs], p)
    requires 0 <= input.line && 0 <= input.column
    modifies input`line, input`column, token`text
    ensures ofs <= next <= |input.text| && (stop || ofs < next)
    ensures Pos(input.line, input.column) == CharPos(input.text[start..next], p)
    ensures 0 <= input.line && 0 <= input.column
    ensures token.text == PutAll([], raw2)
    ensures !stop ==> WordState(input.text, next, nowQuoted, raw2, S)
    ensures stop && !failed ==> !nowQuoted && S.end == next && S.ok && S.out == raw2
    ensures failed ==> stop && S.end == next && !S.ok
  {
    var t := input.text;
    nowQuoted := false;
    if ofs + 1 == |t| || !IsEscape(t[ofs + 1]) {
      // the text ends after the backslash, or strchr finds no such escape
      next, raw2 := BadEscapeTail(input, token, ofs, start, p, S, raw);
      stop, failed := true, true;
    } else if t[ofs + 1] == 'u' || t[ofs + 1] == 'x' {
      next, failed, raw2 := EntityTail(input, token, ofs, start, p, S, raw);
      stop := failed;
    } else {
      next, raw2 := EscapeTail(input, token, ofs, start, p, S, raw);
      stop, failed := false, false;
    }
  }

  /** A backslash at the end of the text or before a byte that is not an
    * escape: it is copied, and the word fails just after it.
    */
  method BadEscapeTail(input: Input, token: Token, at: int, ghost start: int, ghost p: Pos, ghost S: Scanned, ghost before: seq<Byte>)
    returns (next: int, ghost raw2: seq<Byte>)
    requires 0 <= start <= at < |input.text| && input.text[at] == '\\'
    requires at + 1 == |input.text| || !IsEscape(input.text[at + 1])
    requires WordState(input.text, at, false, before, S) && token.text == PutAll([], before)
    requires Pos(input.line, input.column) == CharPos(input.text[start..at], p)
    requires 0 <= input.line && 0 <= input.column
    modifies input`line, input`column, token`text
    ensures next == at + 1 && S.end == next && !S.ok
    ensures Pos(input.line, input.column) == CharPos(input.text[start..next], p)
    ensures 0 <= input.line && 0 <= input.column
    ensures token.text == PutAll([], raw2)
  {
    EndAtBadEscape(input.text, at, before, S);
    next, raw2 := CopyByte(input, token, at, start, p, before);
  }

  /** Any other valid escape: the backslash and its byte go into the word. */
  method EscapeTail(input: Input, token: Token, at: int, ghost start: int, ghost p: Pos, ghost S: Scanned, ghost before: seq<Byte>)
    returns (next: int, ghost raw2: seq<Byte>)
    requires 0 <= start <= at && at + 1 < |input.text| && input.text[at] == '\\'
    requires IsEscape(input.text[at + 1]) && input.text[at + 1] != 'u' && input.text[at + 1] != 'x'
    requires WordState(input.text, at, false, before, S) && token.text == PutAll([], before)
    requires Pos(input.line, input.column) == CharPos(input.text[start..at], p)
    requires 0 <= input.line && 0 <= input.column
    modifies input`line, input`column, token`text
    ensures next == at + 2
    ensures Pos(input.line, input.column) == CharPos(input.text[start..next], p)
    ensures 0 <= input.line && 0 <= input.column
    ensures token.text == PutAll([], raw2)
    ensures WordState(input.text, next, false, raw2, S)
  {
    var n, head := CopyByte(input, token, at, start, p, before);
    next, raw2 := CopyByte(input, token, n, start, p, head);
    EscapeStep(input.text, at, before, S);
  }

  /** A \\u or \\x escape: the backslash, the entity, then its ';'. */
  method EntityTail(input: Input, token: Token, at: int, ghost start: int, ghost p: Pos, ghost S: Scanned, ghost before: seq<Byte>)
    returns (next: int, failed: bool, ghost raw2: seq<Byte>)
    requires 0 <= start <= at && at + 1 < |input.text| && input.text[at] == '\\'
    requires input.text[at + 1] == 'u' || input.text[at + 1] == 'x'
    requires WordState(input.text, at, false, before, S) && token.text == PutAll([], before)
    requires Pos(input.line, input.column) == CharPos(input.text[start..at], p)
    requires 0 <= input.line && 0 <= input.column
    modifies input`line, input`column, token`text
    ensures at < next <= |input.text|
    ensures Pos(input.line, input.column) == CharPos(input.text[start..next], p)
    ensures 0 <= input.line && 0 <= input.column
    ensures token.text == PutAll([], raw2)
    ensures !failed ==> WordState(input.text, next, false, raw2, S)
    ensures failed ==> S.end == next && !S.ok
  {
    var n;
    ghost var head;
    n, head := CopyByte(input, token, at, start, p, before);
    next, failed, raw2 := EntityRest(input, token, at, start, p, S, before);
  }

  /** The entity of a \\u or \\x escape whose backslash is copied, then its ';'. */
  method EntityRest(input: Input, token: Token, at: int, ghost start: int, ghost p: Pos, ghost S: Scanned, ghost before: seq<Byte>)
    returns (next: int, failed: bool, ghost raw2: seq<Byte>)
    requires 0 <= start <= at && at + 1 < |input.text| && input.text[at] == '\\'
    requires input.text[at + 1] == 'u' || input.text[at + 1] == 'x'
    requires WordState(input.text, at, false, before, S) && token.text == PutAll([], before + [input.text[at]])
    requires Pos(input.line, input.column) == CharPos(input.text[start..at + 1], p)
    requires 0 <= input.line && 0 <= input.column
    modifies input`line, input`column, token`text
    ensures at < next <= |input.text|
    ensures Pos(input.line, input.column) == CharPos(input.text[start..next], p)
    ensures 0 <= input.line && 0 <= input.column
    ensures token.text == PutAll([], raw2)
    ensures !failed ==> WordState(input.text, next, false, raw2, S)
    ensures failed ==> S.end == next && !S.ok
  {
    var t := input.text;
    var ok;
    ghost var head := before + [t[at]];
    ok, next := AppendEntity(input, token, at + 1, t[at + 1] == 'x');
    PutAllConcat([], head, t[at + 1..next]);
    raw2 := head + t[at + 1..next];
    CharPosSplit(t, start, at + 1, next, p);
    if !ok {
      EndAtBadEntity(t, at, before, S);
      return next, true, raw2;
    }
    next, raw2 := EntityClose(input, token, at, next, start, p, S, before, raw2);
    failed := false;
  }

  /** The ';' that closes a good entity joins the word. */
  method EntityClose(input: Input, token: Token, at: int, m: int, ghost start: int, ghost p: Pos, ghost S: Scanned, ghost before: seq<Byte>, ghost raw: seq<Byte>)
    returns (next: int, ghost raw2: seq<Byte>)
    requires 0 <= start <= at && at + 1 <= m < |input.text| && input.text[at] == '\\'
    requires input.text[at + 1] == 'u' || input.text[at + 1] == 'x'
    requires Entity(input.text, at + 2, input.text[at + 1] == 'x').ok
    requires m == Entity(input.text, at + 2, input.text[at + 1] == 'x').end - 1
    requires WordState(input.text, at, false, before, S)
    requires raw == before + [input.text[at]] + input.text[at + 1..m] && token.text == PutAll([], raw)
    requires Pos(input.line, input.column) == CharPos(input.text[start..m], p)
    requires 0 <= input.line && 0 <= input.column
    modifies input`line, input`column, token`text
    ensures next == m + 1
    ensures Pos(input.line, input.column) == CharPos(input.text[start..next], p)
    ensures 0 <= input.line && 0 <= input.column
    ensures token.text == PutAll([], raw2)
    ensures WordState(input.text, next, false, raw2, S)
  {
    next, raw2 := CopyByte(input, token, m, start, p, raw);
    EntityPass(input.text, at, m, before, raw2, S);
  }

  /** A whole \\u or \\x escape, copied one byte, then the entity, then
    * the ';', is the step Scan takes over it.
    */
  lemma EntityPass(t: seq<Byte>, ofs: int, m: int, before: seq<Byte>, text: seq<Byte>, S: Scanned)
    requires WordState(t, ofs, false, before, S) && ofs + 1 <= m < |t| && t[ofs] == '\\'
    requires t[ofs + 1] == 'u' || t[ofs + 1] == 'x'
    requires Entity(t, ofs + 2, t[ofs + 1] == 'x').ok && m == Entity(t, ofs + 2, t[ofs + 1] == 'x').end - 1
    requires text == before + [t[ofs]] + t[ofs + 1..m] + [t[m]]
    ensures WordState(t, m + 1, false, text, S)
  {
    Glue(t, before, ofs, m);
    EntityStep(t, ofs, before, S);
  }

  /** Any other pass outside quotes: a quote opens a quoted part, a word
    * break stops, any other byte is copied.
    */
  method PlainStep(input: Input, token: Token, ofs: int, quoted: bool, ghost start: int, ghost p: Pos, ghost S: Scanned, ghost raw: seq<Byte>)
    returns (next: int, nowQuoted: bool, stop: bool, failed: bool, ghost raw2: seq<Byte>)
    requires 0 <= start <= ofs < |input.text|
    requires !quoted && input.text[ofs] != '\\'
    requires WordState(input.text, ofs, quoted, raw, S) && token.text == PutAll([], raw)
    requires Pos(input.line, input.column) == CharPos(input.text[start..ofs], p)
    requires 0 <= input.line && 0 <= input.column
    modifies input`line, input`column, token`text
    ensures ofs <= next <= |input.text| && (stop || ofs < next)
    ensures Pos(input.line, input.column) == CharPos(input.text[start..next], p)
    ensures 0 <= input.line && 0 <= input.column
    ensures token.text == PutAll([], raw2)
    ensures !stop ==> WordState(input.text, next, nowQuoted, raw2, S)
    ensures stop && !failed ==> !nowQuoted && S.end == next && S.ok && S.out == raw2
    ensures failed ==> stop && S.end == next && !S.ok
  {
    var t := input.text;
    next, nowQuoted, stop, failed := ofs, quoted, false, false;
    raw2 := raw;
    var c := t[next];
    if c == '"' {
      QuoteStep(t, next, false, raw, S);
      CharPosSnoc(t, start, next, p);
      nowQuoted := true;
      next := next + 1;
      input.column := input.column + 1;
      return;
    } else if IsStop(c) {
      EndAtBreak(t, next, raw, S);
      stop := true;
      return;
    } else if (c == '+' || c == '-' || c == '?') && next + 1 < |t| {
      c := t[next + 1];
      if c == '=' {
        EndAtBreak(t, next, raw, S);
        stop := true;
        return;
      }
      CopyStep(t, next, false, raw, S);
    } else {
      CopyStep(t, next, false, raw, S);
    }
    next, raw2 := CopyByte(input, token, next, start, p, raw);
  }

  /** The word branch of input_token: hand bytes to the token until a
    * word break outside quotes; a malformed escape or an unterminated
    * quote makes an error token, with the cursor on the offending byte.
    */
  method WordToken(input: Input, token: Token)
    requires input.Valid()
    modifies input`ofs, input`line, input`column, token`text, token`code
    ensures input.Valid()
    ensures var s := Scan(input.text, old(input.ofs), false);
      input.ofs == s.end && token.code == (if s.ok then Word else Error) &&
      token.text == (if s.ok then PutAll([], s.out) else [])
    ensures old(input.ofs) <= input.ofs
    ensures Pos(input.line, input.column) == CharPos(input.text[old(input.ofs)..input.ofs], Pos(old(input.line), old(input.column)))
  {
    token.text := [];
    token.code := Word;
    var start := input.ofs;
    ghost var p := Pos(input.line, input.column);
    ghost var S := Scan(input.text, start, false);
    ghost var raw: seq<Byte> := [];
    WordStart(input.text, start);
    var ofs := start;
    var dq := false;
    var failed, stop := false, false;
    while ofs < |input.text|
      invariant start <= ofs <= |input.text| && !failed && !stop
      invariant WordState(input.text, ofs, dq, raw, S) && token.text == PutAll([], raw)
      invariant Pos(input.line, input.column) == CharPos(input.text[start..ofs], p)
      invariant 0 <= input.line && 0 <= input.column
      invariant input.ofs == start && token.code == Word
      decreases |input.text| - ofs
    {
      ofs, dq, stop, failed, raw := WordStep(input, token, ofs, dq, start, p, S, raw);
      if stop {
        break;
      }
    }
    if !stop {
      EndAtLast(input.text, dq, raw, S);
    }
    if failed || dq {
      token.text := [];
      token.code := Error;
    }
    input.ofs := ofs;
  }

  /** input_token: reset the token, then cut the next token off the input
    * as Lex says; false only at the end of the text, with the token a
    * bare TOK_SPACE at the cursor and nothing moved.
    */
  method NextToken(input: Input, token: Token) returns (got: bool)
    requires input.Valid()
    modifies input`ofs, input`line, input`column, input`indent, token
    ensures input.Valid()
    ensures token.line == old(input.line) && token.column == old(input.column)
    ensures var r := Lex(input.text, old(input.ofs), Pos(old(input.line), old(input.column)), old(input.indent), input.stmtIndent);
      got == r.Some? && (got ==> r.value == Lexeme(token.code, token.text, input.ofs, Pos(input.line, input.column), input.indent))
    ensures !got ==> token.code == Space && token.text == [] && input.ofs == old(input.ofs)
    ensures !got ==> input.line == old(input.line) && input.column == old(input.column) && input.indent == old(input.indent)
  {
    token.Reset();
    got := Spaces(input, token);
    if got {
      return;
    }
    if input.ofs >= |input.text| {
      return;
    }
    OperatorOrWord(input, token);
    got := true;
  }

  /** The switch of input_token on the first byte after the whitespace:
    * a comment, an operator, or else a word.
    */
  method OperatorOrWord(input: Input, token: Token)
    requires input.Valid() && input.ofs < |input.text| && !IsSpace(input.text[input.ofs])
    modifies input`ofs, input`line, input`column, token`text, token`code
    ensures input.Valid()
    ensures var r := Lex(input.text, old(input.ofs), Pos(old(input.line), old(input.column)), input.indent, input.stmtIndent);
      r == Some(Lexeme(token.code, token.text, input.ofs, Pos(input.line, input.column), input.indent))
  {
    if input.text[input.ofs] == '#' {
      CommentToken(input, token);
    } else {
      var done := OperatorToken(input, token);
      if !done {
        WordToken(input, token);
      }
    }
  }

  /** The operator cases of the switch of input_token; false, with nothing
    * changed, when the byte at the cursor starts no operator.
    */
  method OperatorToken(input: Input, token: Token) returns (done: bool)
    requires input.Valid() && input.ofs < |input.text|
    modifies input`ofs, input`column, token`text, token`code
    ensures input.Valid()
    ensures old(input.ofs) <= input.ofs <= |input.text|
    ensures Operator(input.text, old(input.ofs)) == if done then Some((token.code, input.ofs - old(input.ofs))) else None
    ensures token.text == if done then input.text[old(input.ofs)..input.ofs] else old(token.text)
    ensures input.column == old(input.column) + (input.ofs - old(input.ofs))
    ensures !done ==> input.ofs == old(input.ofs)
  {
    var c := input.text[input.ofs];
    done := true;
    if c == '=' {
      Operator1(input, token, Assign);
    } else if c == '?' {
      done := Operator2(input, token, '=', CondAssign);
    } else if c == '+' {
      done := Operator2(input, token, '=', Append);
    } else if c == '-' {
      done := Operator2(input, token, '=', Exclude);
    } else if c == '$' {
      var two := Operator2(input, token, '{', Unveil);
      if !two {
        Operator1(input, token, SimpleUnveil);
      }
    } else if c == '{' {
      Operator1(input, token, BraceOpen);
    } else if c == '}' {
      Operator1(input, token, BraceClose);
    } else if c == ',' {
      Operator1(input, token, Comma);
    } else {
      done := false;
    }
  }


  /* ---------------------------------------------------------------- */
  /* Properties of the tokens                                          */

  lemma {:induction false} CharLines(s: seq<Byte>, p: Pos)
    ensures CharPos(s, p).line == p.line + NewLines(s)
  {
    if |s| > 0 {
      CharLines(s[..|s| - 1], p);
    }
  }

  /** Bytes without a line feed move the cursor right by their number. */
  lemma {:induction false} NoNewLines(s: seq<Byte>, p: Pos)
    requires forall k | 0 <= k < |s| :: s[k] != '\n'
    ensures NewLines(s) == 0 && CharPos(s, p) == Pos(p.line, p.column + |s|)
  {
    if |s| > 0 {
      NoNewLines(s[..|s| - 1], p);
    }
  }

  /** The cursor's line always counts the line feeds the tokens have
    * consumed, whatever the token.
    */
  lemma LexLines(t: seq<Byte>, i: int, p: Pos, indent: int, stmtIndent: int)
    requires 0 <= i <= |t|
    ensures var r := Lex(t, i, p, indent, stmtIndent);
      r.Some? ==> r.value.pos.line == p.line + NewLines(t[i..r.value.end])
  {
    var r := Lex(t, i, p, indent, stmtIndent);
    if r.Some? {
      var e := r.value.end;
      if IsSpace(t[i]) {
        SpaceLines(t[i..e], p);
      } else if t[i] == '#' || Operator(t, i).Some? {
        assert forall k | 0 <= k < e - i :: t[i..e][k] != '\n';
        NoNewLines(t[i..e], p);
      } else {
        CharLines(t[i..e], p);
      }
    }
  }

  /** A token is TOK_NEXT exactly when it is a whitespace run holding a
    * line feed that ends at or left of the statement indent; the line
    * indent is updated exactly when the run holds a line feed.
    */
  lemma LexNext(t: seq<Byte>, i: int, p: Pos, indent: int, stmtIndent: int)
    requires 0 <= i < |t|
    ensures var r := Lex(t, i, p, indent, stmtIndent).value;
      var crossed := IsSpace(t[i]) && NewLines(t[i..r.end]) > 0;
      (r.code == Next <==> crossed && r.pos.column <= stmtIndent)
      && r.indent == if crossed then r.pos.column else indent
  {
    if IsSpace(t[i]) {
      SpaceLines(t[i..SpaceEnd(t, i)], p);
    }
  }

  /** Under input_init's threshold INT_MAX every whitespace run crossing a
    * line is TOK_NEXT, as long as no column can pass INT_MAX.
    */
  lemma DefaultThresholdNext(t: seq<Byte>, i: int, p: Pos, indent: int)
    requires 0 <= i < |t| && IsSpace(t[i]) && 0 <= p.column && TAB_SPACES * |t| <= INT_MAX
    requires '\n' in t[i..SpaceEnd(t, i)]
    ensures Lex(t, i, p, indent, INT_MAX).value.code == Next
  {
    var run := t[i..SpaceEnd(t, i)];
    LinesOfLineFeed(run);
    SpaceLines(run, p);
    SpaceColumnBound(run, p);
  }

  /** A sequence holding a line feed counts at least one. */
  lemma {:induction false} LinesOfLineFeed(s: seq<Byte>)
    requires '\n' in s
    ensures NewLines(s) > 0
  {
    if s[|s| - 1] != '\n' {
      assert '\n' in s[..|s| - 1] by {
        var k :| 0 <= k < |s| && s[k] == '\n';
        assert s[..|s| - 1][k] == '\n';
      }
      LinesOfLineFeed(s[..|s| - 1]);
    }
  }

  /** Every token but one moves the cursor: a NUL byte, which strchr
    * finds in the stop set, gives an empty word at the same place, so a
    * caller looping on input_token never gets past it.
    */
  lemma LexProgress(t: seq<Byte>, i: int, p: Pos, indent: int, stmtIndent: int)
    requires 0 <= i < |t|
    ensures t[i] != NUL ==> Lex(t, i, p, indent, stmtIndent).value.end > i
    ensures t[i] == NUL ==> Lex(t, i, p, indent, stmtIndent) == Some(Lexeme(Word, [], i, p, indent))
  {
    if t[i] != NUL && !IsSpace(t[i]) && t[i] != '#' && Operator(t, i).None? {
      assert !IsStop(t[i]);
      if t[i] == '\\' {
        assert Scan(t, i, false).end >= i + 1;
      } else if t[i] == '"' {
        assert Scan(t, i, false) == Scan(t, i + 1, true);
      }
    }
  }

  /** An empty word comes only from a NUL byte or from a word that starts
    * with an empty quoted part; these are the cases that the debug build's
    * assertions in the word loop reject.
    */
  lemma LexEmptyWord(t: seq<Byte>, i: int, p: Pos, indent: int, stmtIndent: int)
    requires 0 <= i < |t|
    requires Lex(t, i, p, indent, stmtIndent).value.code == Word && Lex(t, i, p, indent, stmtIndent).value.text == []
    ensures t[i] == NUL || t[i] == '"'
  {
    if !IsSpace(t[i]) && t[i] != '#' && Operator(t, i).None? {
      KeptExact(Scan(t, i, false).out);
    }
  }


  /** A well formed word stops at the end of the text or before a word
    * break.
    */
  lemma {:induction false} ScanEnds(t: seq<Byte>, i: int, dq: bool)
    requires 0 <= i <= |t|
    ensures var r := Scan(t, i, dq); r.ok ==> r.end == |t| || WordBreak(t, r.end)
    decreases |t| - i
  {
    if i == |t| {
    } else if dq {
      if t[i] == '"' {
        if i + 1 < |t| && t[i + 1] == '"' {
          ScanEnds(t, i + 2, true);
        } else {
          ScanEnds(t, i + 1, false);
        }
      } else {
        ScanEnds(t, i + 1, true);
      }
    } else if t[i] == '\\' {
      if i + 1 == |t| || !IsEscape(t[i + 1]) {
      } else if t[i + 1] == 'u' || t[i + 1] == 'x' {
        var e := Entity(t, i + 2, t[i + 1] == 'x');
        if e.ok {
          ScanEnds(t, e.end, false);
        }
      } else {
        ScanEnds(t, i + 2, false);
      }
    } else if t[i] == '"' {
      ScanEnds(t, i + 1, true);
    } else if !WordBreak(t, i) {
      ScanEnds(t, i + 1, false);
    }
  }

  /** A word with no quote and no backslash is handed on as it stands,
    * and holds no NUL (a NUL ends it).
    */
  lemma {:induction false} ScanPlain(t: seq<Byte>, i: int)
    requires 0 <= i <= |t|
    requires forall k | i <= k < Scan(t, i, false).end :: t[k] != '"' && t[k] != '\\'
    ensures Scan(t, i, false).ok && Scan(t, i, false).out == t[i..Scan(t, i, false).end]
    ensures forall k | i <= k < Scan(t, i, false).end :: t[k] != NUL
    decreases |t| - i
  {
    var r := Scan(t, i, false);
    if i < |t| && t[i] != '\\' && t[i] != '"' && !WordBreak(t, i) {
      ScanPlain(t, i + 1);
      assert t[i..r.end] == [t[i]] + t[i + 1..r.end];
    }
  }

  /** Every token but a word copies the bytes it consumed, and so does a
    * word without quotes or escapes.
    */
  lemma LexVerbatim(t: seq<Byte>, i: int, p: Pos, indent: int, stmtIndent: int)
    requires 0 <= i < |t|
    requires var r := Lex(t, i, p, indent, stmtIndent).value;
      forall k | i <= k < r.end :: t[k] != '"' && t[k] != '\\'
    ensures var r := Lex(t, i, p, indent, stmtIndent).value;
      r.code != Error && r.text == t[i..r.end]
  {
    if !IsSpace(t[i]) && t[i] != '#' && Operator(t, i).None? {
      ScanPlain(t, i);
      var s := Scan(t, i, false);
      assert forall k | 0 < k < |s.out| :: s.out[k] == t[i + k];
      KeptExact(s.out);
    }
  }

  /** How a string is written as one quoted part: in quotes, each quote
    * doubled.
    */
  function Doubled(s: seq<Byte>): (r: seq<Byte>)
  {
    if s == [] then [] else (if s[0] == '"' then ['"', '"'] else [s[0]]) + Doubled(s[1..])
  }

  function Quote(s: seq<Byte>): seq<Byte>
  {
    ['"'] + Doubled(s) + ['"']
  }

  /** One byte of a quoted part: a doubled quote or any other byte. */
  lemma ScanQuotedByte(t: seq<Byte>, i: int, h: seq<Byte>, c: Byte)
    requires 0 <= i && i + |h| < |t| && h == (if c == '"' then ['"', '"'] else [c])
    requires t[i..i + |h|] == h
    ensures Scan(t, i, true) == Prepend([c], Scan(t, i + |h|, true))
  {
    assert t[i] == h[0];
    if c == '"' {
      assert t[i + 1] == h[1];
    }
  }

  lemma {:induction false} ScanDoubled(t: seq<Byte>, i: int, s: seq<Byte>, rest: seq<Byte>)
    requires 0 <= i <= |t| && t[i..] == Doubled(s) + ['"'] + rest
    requires rest == [] || rest[0] != '"'
    ensures Scan(t, i, true) == Prepend(s, Scan(t, |t| - |rest|, false))
    decreases s
  {
    if s == [] {
      assert t[i] == t[i..][0] == '"';
      assert i + 1 < |t| ==> t[i + 1] == t[i..][1] == rest[0];
      assert Scan(t, i, true) == Scan(t, i + 1, false);
    } else {
      var h := if s[0] == '"' then ['"', '"'] else [s[0]];
      var d' := Doubled(s[1..]);
      assert t[i..] == h + (d' + ['"'] + rest);
      assert t[i..i + |h|] == t[i..][..|h|] == h;
      assert t[i + |h|..] == t[i..][|h|..] == d' + ['"'] + rest;
      ScanQuotedByte(t, i, h, s[0]);
      ScanDoubled(t, i + |h|, s[1..], rest);
      PrependTwice([s[0]], s[1..], Scan(t, |t| - |rest|, false));
      assert [s[0]] + s[1..] == s;
    }
  }

  lemma PrependTwice(a: seq<Byte>, b: seq<Byte>, r: Scanned)
    ensures Prepend(a, Prepend(b, r)) == Prepend(a + b, r)
  {
    assert a + (b + r.out) == (a + b) + r.out;
  }

  /** Quoting round trip: a quoted string, followed by the end of the
    * text or a stop byte, is read back as one word, whose text is the
    * string as token_append_char builds it: exactly the string when no
    * NUL follows its first byte.
    */
  lemma QuoteRoundTrip(s: seq<Byte>, rest: seq<Byte>, p: Pos, indent: int, stmtIndent: int)
    requires rest == [] || (IsStop(rest[0]) && rest[0] != NUL)
    ensures var t := Quote(s) + rest;
      Lex(t, 0, p, indent, stmtIndent) == Some(Lexeme(Word, PutAll([], s), |Quote(s)|, CharPos(Quote(s), p), indent))
    ensures Lex(Quote(s) + rest, 0, p, indent, stmtIndent).value.text == s <==> forall k | 0 < k < |s| :: s[k] != NUL
  {
    KeptExact(s);
    var t := Quote(s) + rest;
    var n := |Quote(s)|;
    ScanQuote(s, rest);
    assert !IsSpace(t[0]) && Operator(t, 0).None?;
    assert t[0..n] == Quote(s);
  }

  /** The word scanner reads a quoted text back to the bytes quoted. */
  lemma ScanQuote(s: seq<Byte>, rest: seq<Byte>)
    requires rest == [] || (IsStop(rest[0]) && rest[0] != NUL)
    ensures Scan(Quote(s) + rest, 0, false) == Scanned(s, |Quote(s)|, true)
  {
    var t := Quote(s) + rest;
    var n := |Quote(s)|;
    assert t[1..] == Doubled(s) + ['"'] + rest;
    assert t[0] == '"';
    ScanDoubled(t, 1, s, rest);
    assert Scan(t, 0, false) == Scan(t, 1, true);
    if rest != [] {
      assert t[n] == rest[0];
    }
    assert Scan(t, n, false) == Scanned([], n, true);
    assert s + [] == s;
  }

}
