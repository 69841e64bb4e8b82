/** Token kinds and tokens as the lexer hands them to the parser. */
module Tokens {
  import opened Wrappers

  /** The closed set of token kinds of the Monkey language. */
  datatype TokenType =
    | Illegal | Eof
    | Ident | Int
    | Assign | Plus | Minus | Bang | Asterisk | Slash
    | Lt | Gt | Eq | NotEq
    | Comma | Semicolon
    | LParen | RParen | LBrace | RBrace
    | Function | Let | True | False | If | Else | Return

  /** A token: its kind and the exact source text it was read from. */
  datatype Token = Token(kind: TokenType, literal: string)

  /** The printable name of a kind, as it appears in diagnostics. */
  function Name(t: TokenType): (s: string)
    ensures |s| > 0 && ' ' !in s
  {
    match t
    case Illegal => "ILLEGAL"
    case Eof => "EOF"
    case Ident => "IDENT"
    case Int => "INT"
    case Assign => "="
    case Plus => "+"
    case Minus => "-"
    case Bang => "!"
    case Asterisk => "*"
    case Slash => "/"
    case Lt => "<"
    case Gt => ">"
    case Eq => "=="
    case NotEq => "!="
    case Comma => ","
    case Semicolon => ";"
    case LParen => "("
    case RParen => ")"
    case LBrace => "{"
    case RBrace => "}"
    case Function => "FUNCTION"
    case Let => "LET"
    case True => "TRUE"
    case False => "FALSE"
    case If => "IF"
    case Else => "ELSE"
    case Return => "RETURN"
  }

  /** The kind whose printable name is `s`, if there is one. */
  function KindNamed(s: string): (r: Option<TokenType>)
    ensures r.Some? ==> Name(r.value) == s
  {
    if |s| == 1 then SymbolNamed(s[0])
    else if s == "==" then Some(Eq)
    else if s == "!=" then Some(NotEq)
    else if s == "IF" then Some(If)
    else if s == "EOF" then Some(Eof)
    else if s == "INT" then Some(Int)
    else if s == "LET" then Some(Let)
    else if s == "TRUE" then Some(True)
    else if s == "ELSE" then Some(Else)
    else if s == "IDENT" then Some(Ident)
    else if s == "FALSE" then Some(False)
    else if s == "RETURN" then Some(Return)
    else if s == "ILLEGAL" then Some(Illegal)
    else if s == "FUNCTION" then Some(Function)
    else None
  }

  /** The kind whose one-character name is `c`, if there is one. */
  function SymbolNamed(c: char): (r: Option<TokenType>)
    ensures r.Some? ==> Name(r.value) == [c]
  {
    match c
    case '=' => Some(Assign)
    case '+' => Some(Plus)
    case '-' => Some(Minus)
    case '!' => Some(Bang)
    case '*' => Some(Asterisk)
    case '/' => Some(Slash)
    case '<' => Some(Lt)
    case '>' => Some(Gt)
    case ',' => Some(Comma)
    case ';' => Some(Semicolon)
    case '(' => Some(LParen)
    case ')' => Some(RParen)
    case '{' => Some(LBrace)
    case '}' => Some(RBrace)
    case _ => None
  }

  /** Every kind is found again from its name, so no two kinds share one. */
  lemma NameReadsBack(t: TokenType)
    ensures KindNamed(Name(t)) == Some(t)
  {
  }

  /** The end-of-input token the lexer returns once its input is exhausted. */
  const EofToken: Token := Token(Eof, "")
}
