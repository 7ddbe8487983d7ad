/* The token object of libs/cooker/token.c: a code, the text the token
 * was made from, and the position of its first byte.
 *
 * The text is a copy-on-write string in the source; here it is modelled
 * by its bytes (str.dfy models the string engine and its sharing).
 */
module Token {
  import opened Mem

  /** token_code_t, in enum order. */
  datatype Code =
    | Error | Space | Next | Comment | Word
    | Assign | Append | Exclude | CondAssign
    | Unveil | SimpleUnveil | BraceOpen | BraceClose | Comma

  /** The enum value of a code. */
  function Ordinal(c: Code): (r: nat)
    ensures r < 14
  {
    match c
    case Error => 0
    case Space => 1
    case Next => 2
    case Comment => 3
    case Word => 4
    case Assign => 5
    case Append => 6
    case Exclude => 7
    case CondAssign => 8
    case Unveil => 9
    case SimpleUnveil => 10
    case BraceOpen => 11
    case BraceClose => 12
    case Comma => 13
  }

  /** The code with a given enum value. */
  function FromOrdinal(n: nat): Code
    requires n < 14
  {
    [Error, Space, Next, Comment, Word, Assign, Append, Exclude, CondAssign,
     Unveil, SimpleUnveil, BraceOpen, BraceClose, Comma][n]
  }

  /** The enum values are 0 to 13, one per code. */
  lemma OrdinalBijective(c: Code, n: nat)
    requires n < 14
    ensures FromOrdinal(Ordinal(c)) == c
    ensures Ordinal(FromOrdinal(n)) == n
  {
  }

  /** token_names, indexed by enum value. */
  const Names: seq<string> := [
    "error", "space", "next", "comment", "word", "assign", "append",
    "exclude", "conditional assign", "unveil", "simple unveil",
    "open brace", "closed brace", "comma"]

  /** token_name: the fixed name of a code. */
  function Name(c: Code): (r: string)
  {
    Names[Ordinal(c)]
  }

  /** Every code has its own, non-empty name. */
  lemma NamesDistinct(a: Code, b: Code)
    ensures |Name(a)| > 0
    ensures a != b ==> Name(a) != Name(b)
  {
    assert forall i, j | 0 <= i < j < 14 :: Names[i] != Names[j];
  }

  class Token {
    var text: seq<Byte>
    var code: Code
    /** The position of the first byte, copied from the input cursor. */
    var line: int
    var column: int

    /** token_init on a new token: code TOK_ERROR, no text, at 0:0. */
    constructor Init()
      ensures text == [] && code == Error && line == 0 && column == 0
    {
      text, code, line, column := [], Error, 0, 0;
    }

    /** token_init on an existing token. */
    method Reset()
      modifies this
      ensures text == [] && code == Error && line == 0 && column == 0
    {
      text, code, line, column := [], Error, 0, 0;
    }

    /** token_done: only the text is released. */
    method Done()
      modifies this
      ensures text == [] && code == old(code) && line == old(line) && column == old(column)
    {
      text := [];
    }

    /** token_copy: release this token's text, then take from's text and
      * code; the position is kept. Copying a token onto itself releases
      * its text first, so the text ends up empty.
      */
    method CopyFrom(from: Token)
      modifies this
      ensures text == if from == this then [] else old(from.text)
      ensures code == old(from.code)
      ensures line == old(line) && column == old(column)
    {
      Done();
      text := from.text;
      code := from.code;
    }
  }
}
