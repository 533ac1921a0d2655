/** The string-literal half of the character automaton shared by the
    argument splitter and the call-boundary extractor (script.py:20-39 and
    script.py:67-77): both track the quote that opened the literal being
    read and whether a backslash is pending, and both let only "code"
    characters (outside literals, not escaped) touch a depth counter. */
module Scanner {
  import opened Text

  /** Inside a literal opened by `quote` (if any); `escape` when the
      previous character was a backslash that has not consumed its
      follower yet. */
  datatype Lex = Lex(quote: Option<char>, escape: bool)

  const Fresh: Lex := Lex(None, false)

  predicate IsQuote(c: char) {
    c == '"' || c == '\''
  }

  /** What reading one character does: the next lexical state, and whether
      the character was code. */
  datatype Read = Read(next: Lex, code: bool)

  /** One step, in the source's priority order: a pending escape consumes
      any character (inside or outside a literal), a backslash arms the
      escape, a literal ends only at its own quote, a quote opens a
      literal, anything else is code. */
  function Step(lx: Lex, c: char): Read {
    if lx.escape then Read(lx.(escape := false), false)
    else if c == '\\' then Read(lx.(escape := true), false)
    else if lx.quote.Some? then Read(if c == lx.quote.value then Fresh else lx, false)
    else if IsQuote(c) then Read(Lex(Some(c), false), false)
    else Read(lx, true)
  }

  /** The text between the quotes of a literal closed by `q`: characters
      other than `q` and backslash, and backslash-character pairs. */
  predicate LiteralBody(body: string, q: char)
    decreases |body|
  {
    || body == []
    || (body[0] == '\\' && |body| >= 2 && LiteralBody(body[2..], q))
    || (body[0] != '\\' && body[0] != q && LiteralBody(body[1..], q))
  }

  /** A whole literal: the body between two quotes `q`. */
  function Quoted(q: char, body: string): string {
    [q] + body + [q]
  }
}
