/** The lexer, seen from the parser: a finite token sequence that is padded
    with end-of-input tokens forever once it runs out. */
module Lexing {
  import opened Tokens

  /** The token the lexer produces at stream position `i`. */
  function TokenAt(input: seq<Token>, i: nat): (t: Token)
    ensures i >= |input| ==> t == EofToken
  {
    if i < |input| then input[i] else EofToken
  }

  /** The token sequence a lexer reads. */
  datatype Source = Source(tokens: seq<Token>)

  /** A lexer over `source` that has already handed out `read` tokens. */
  datatype Lexer = Lexer(source: Source, read: nat) {

    /** The tokens being read. */
    const input: seq<Token> := source.tokens

    /** Produces the next token and the lexer that has consumed it. */
    function NextToken(): (Token, Lexer)
    {
      (TokenAt(input, read), Lexer(source, read + 1))
    }
  }
}
