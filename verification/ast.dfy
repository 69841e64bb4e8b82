/** The syntax tree the parser builds: a program of let and return
    statements whose leaves are identifiers. */
module Ast {
  import opened Wrappers
  import opened Tokens

  /** A name; `value` is the name text, `token` the token it came from. */
  datatype Identifier = Identifier(token: Token, value: string) {
    function TokenLiteral(): string
    {
      token.literal
    }
  }

  /** Expressions. The parser does not build any yet: every expression slot
      it fills stays `None`. */
  datatype Expression = IdentifierExpression(identifier: Identifier)

  /** The two statement kinds. Each carries the token that began it. */
  datatype Statement =
    | LetStatement(token: Token, name: Identifier, value: Option<Expression>)
    | ReturnStatement(token: Token, returnValue: Option<Expression>)
  {
    function TokenLiteral(): string
    {
      token.literal
    }
  }

  /** The root: the top-level statements in parse order. */
  datatype Program = Program(statements: seq<Statement>) {
    function TokenLiteral(): string
    {
      if |statements| > 0 then statements[0].TokenLiteral() else ""
    }
  }

  /** The shape every statement produced by the parser has: it begins with
      its keyword token, a let binds the identifier token's own text, and no
      expression slot is filled. */
  predicate WellFormed(s: Statement)
  {
    match s
    case LetStatement(tok, name, value) =>
      tok.kind == Let && name.token.kind == Ident
      && name.value == name.token.literal && value.None?
    case ReturnStatement(tok, returnValue) =>
      tok.kind == Return && returnValue.None?
  }

  /** A program without statements has the empty literal; when every
      statement's token has non-empty text, that is the only way to get it. */
  lemma ProgramLiteralEmpty(prog: Program)
    ensures |prog.statements| == 0 ==> prog.TokenLiteral() == ""
    ensures (forall i :: 0 <= i < |prog.statements| ==> prog.statements[i].token.literal != "")
            ==> (prog.TokenLiteral() == "" <==> |prog.statements| == 0)
  {
  }

  /** A non-empty program's literal is its first statement's, whatever
      statements follow it. */
  lemma ProgramLiteralFirst(prog: Program, rest: seq<Statement>)
    requires |prog.statements| > 0
    ensures Program(prog.statements + rest).TokenLiteral() == prog.statements[0].TokenLiteral()
    ensures Program(prog.statements + rest).TokenLiteral() == prog.statements[0].token.literal
  {
  }

  /** A statement's literal is its own token's text: neither the bound name
      nor the expression slots affect it. */
  lemma StatementLiteralOwnToken(s: Statement, name: Identifier, value: Option<Expression>)
    ensures s.TokenLiteral() == s.token.literal
    ensures s.LetStatement? ==> s.(name := name, value := value).TokenLiteral() == s.token.literal
    ensures s.ReturnStatement? ==> s.(returnValue := value).TokenLiteral() == s.token.literal
  {
  }

  /** An identifier's literal is its token's text, independent of `value`. */
  lemma IdentifierLiteralIgnoresValue(id: Identifier, v: string)
    ensures id.(value := v).TokenLiteral() == id.token.literal
    ensures id.(value := v).TokenLiteral() == id.TokenLiteral()
  {
  }
}
