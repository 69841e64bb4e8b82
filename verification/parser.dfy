/** The parser: a two-token window (current, peek) over the lexer, a
    dispatch on the current token's kind, and an append-only error list.

    The skip loops of the let and return routines stop only at a semicolon,
    so on input with no semicolon ahead they never finish. Routines that
    contain such a loop return `Diverges` in exactly that situation. */
module Parsing {
  import opened Wrappers
  import opened Tokens
  import opened Lexing
  import opened Ast

  /** The only diagnostic: a token of kind `expected` was wanted next, a
      token of kind `got` was found. */
  datatype ParseError = PeekError(expected: TokenType, got: TokenType)

  const MessageHead: string := "expected next token to be "
  const MessageMiddle: string := ", got "
  const MessageTail: string := " instead"

  /** The text of a diagnostic: the wanted kind's name, then the found
      kind's name. */
  function Message(e: ParseError): string
  {
    MessageHead + Name(e.expected) + MessageMiddle + Name(e.got) + MessageTail
  }

  /** A text is read as a diagnostic exactly when it is that diagnostic's
      message; so no two diagnostics share a text. */
  lemma MessageReadsBack(m: string, e: ParseError)
    ensures ReadMessage(m) == Some(e) <==> m == Message(e)
  {
    NameReadsBack(e.expected);
    NameReadsBack(e.got);
    MessageSplits(Name(e.expected), Name(e.got));
  }

  /** The position of the first space in `s`, or `|s|` if there is none. */
  function FirstSpace(s: string): (k: nat)
    ensures k <= |s| && (k < |s| ==> s[k] == ' ')
    ensures forall j :: 0 <= j < k ==> s[j] != ' '
  {
    if |s| == 0 || s[0] == ' ' then 0 else 1 + FirstSpace(s[1..])
  }

  /** Splits a diagnostic text into the two names it mentions. Names hold
      no space, so the wanted name ends just before the first space. */
  function SplitMessage(m: string): (r: Option<(string, string)>)
    ensures r.Some? ==> m == MessageHead + r.value.0 + MessageMiddle + r.value.1 + MessageTail
  {
    if |m| < |MessageHead| + |MessageTail| then None
    else if m[..|MessageHead|] != MessageHead || m[|m| - |MessageTail|..] != MessageTail then None
    else
      var mid := m[|MessageHead|..|m| - |MessageTail|];
      var k := FirstSpace(mid);
      if k < 1 || k + 5 > |mid| || mid[k - 1..k + 5] != MessageMiddle then None
      else
        assert mid == mid[..k - 1] + MessageMiddle + mid[k + 5..];
        assert m == MessageHead + mid + MessageTail;
        Some((mid[..k - 1], mid[k + 5..]))
  }

  /** The diagnostic a text describes, if it is one. */
  function ReadMessage(m: string): (r: Option<ParseError>)
    ensures r.Some? ==> m == MessageHead + Name(r.value.expected) + MessageMiddle + Name(r.value.got) + MessageTail
  {
    match SplitMessage(m)
    case None => None
    case Some((wanted, found)) =>
      match (KindNamed(wanted), KindNamed(found))
      case (Some(a), Some(b)) => Some(PeekError(a, b))
      case _ => None
  }

  /** A text built from a space-free wanted name splits back into its names. */
  lemma MessageSplits(wanted: string, found: string)
    requires ' ' !in wanted
    ensures SplitMessage(MessageHead + wanted + MessageMiddle + found + MessageTail) == Some((wanted, found))
  {
    var m := MessageHead + wanted + MessageMiddle + found + MessageTail;
    var mid := wanted + MessageMiddle + found;
    assert m[..|MessageHead|] == MessageHead;
    assert m[|m| - |MessageTail|..] == MessageTail;
    assert m[|MessageHead|..|m| - |MessageTail|] == mid;
    var k := FirstSpace(mid);
    assert mid[|wanted| + 1] == ' ';
    assert k == |wanted| + 1;
    assert mid[k - 1..k + 5] == MessageMiddle;
    assert mid[..k - 1] == wanted;
    assert mid[k + 5..] == found;
  }

  /** The parser state: the lexer, the lookahead window and the errors. */
  datatype Parser = Parser(lexer: Lexer, cur: Token, peek: Token, errors: seq<ParseError>)

  /** Stands for the zero token the window holds before it is primed. */
  const Unprimed: Token := Token(Illegal, "")

  /** Kind of the token at stream position `i`. */
  function KindAt(input: seq<Token>, i: nat): TokenType
  {
    TokenAt(input, i).kind
  }

  /** The primed parser whose current token is at stream position `pos`. */
  function At(input: seq<Token>, pos: nat, errors: seq<ParseError>): Parser
  {
    Parser(Lexer(Source(input), pos + 2), TokenAt(input, pos), TokenAt(input, pos + 1), errors)
  }

  /** A primed parser: its window holds the two tokens just before the
      lexer's cursor. */
  predicate Valid(p: Parser)
  {
    && p.lexer.read >= 2
    && p.cur == TokenAt(p.lexer.input, p.lexer.read - 2)
    && p.peek == TokenAt(p.lexer.input, p.lexer.read - 1)
  }

  /** The window at any stream position is a primed parser. */
  lemma AtValid(input: seq<Token>, pos: nat, errors: seq<ParseError>)
    ensures Valid(At(input, pos, errors)) && Pos(At(input, pos, errors)) == pos
  {
  }

  /** Stream position of the current token. */
  function Pos(p: Parser): nat
    requires p.lexer.read >= 2
  {
    p.lexer.read - 2
  }

  /** Creates a parser over `input` and fills both window slots. */
  function New(input: seq<Token>): (p: Parser)
    ensures p.cur == TokenAt(input, 0) && p.peek == TokenAt(input, 1)
    ensures p.errors == []
    ensures p.lexer.input == input
    ensures Valid(p) && Pos(p) == 0
  {
    var empty := Parser(Lexer(Source(input), 0), Unprimed, Unprimed, []);
    NextToken(NextToken(empty))
  }

  /** The diagnostics as text, in the order they were recorded. */
  function Errors(p: Parser): (r: seq<string>)
    ensures |r| == |p.errors|
    ensures forall i :: 0 <= i < |r| ==> r[i] == Message(p.errors[i])
  {
    seq(|p.errors|, i requires 0 <= i < |p.errors| => Message(p.errors[i]))
  }

  /** Each text the accessor yields reads back as the diagnostic recorded
      at that place. */
  lemma ErrorsReadBack(p: Parser)
    ensures forall i :: 0 <= i < |Errors(p)| ==> ReadMessage(Errors(p)[i]) == Some(p.errors[i])
  {
    forall i | 0 <= i < |Errors(p)|
      ensures ReadMessage(Errors(p)[i]) == Some(p.errors[i])
    {
      MessageReadsBack(Errors(p)[i], p.errors[i]);
    }
  }

  /** Records that the peek token was not of kind `t`. */
  function RecordPeekError(p: Parser, t: TokenType): (q: Parser)
    ensures q.lexer == p.lexer && q.cur == p.cur && q.peek == p.peek
    ensures q.errors == p.errors + [PeekError(t, p.peek.kind)]
    ensures Valid(p) ==> q == At(p.lexer.input, Pos(p), p.errors + [PeekError(t, p.peek.kind)])
  {
    p.(errors := p.errors + [PeekError(t, p.peek.kind)])
  }

  /** Recording a diagnostic adds exactly its text to the accessor's list. */
  lemma RecordedText(p: Parser, t: TokenType)
    ensures Errors(RecordPeekError(p, t)) == Errors(p) + [Message(PeekError(t, p.peek.kind))]
  {
    assert RecordPeekError(p, t).errors == p.errors + [PeekError(t, p.peek.kind)];
  }

  /** Shifts the window by one token. */
  function NextToken(p: Parser): (q: Parser)
    ensures q.cur == p.peek
    ensures q.peek == TokenAt(p.lexer.input, p.lexer.read)
    ensures q.lexer.input == p.lexer.input && q.lexer.read == p.lexer.read + 1
    ensures q.errors == p.errors
    ensures Valid(p) ==> Valid(q) && q == At(p.lexer.input, Pos(p) + 1, p.errors)
  {
    var (t, l) := p.lexer.NextToken();
    p.(lexer := l, cur := p.peek, peek := t)
  }

  /** Whether the current token has kind `t`: on a primed parser, the
      kind of the stream token at the parser's position. */
  function CurrentTokenIs(p: Parser, t: TokenType): (r: bool)
    ensures r <==> p.cur.kind == t
    ensures Valid(p) ==> (r <==> KindAt(p.lexer.input, Pos(p)) == t)
  {
    p.cur.kind == t
  }

  /** Whether the peek token has kind `t`: on a primed parser, the kind of
      the stream token one past the parser's position. */
  function PeekTokenIs(p: Parser, t: TokenType): (r: bool)
    ensures r <==> p.peek.kind == t
    ensures Valid(p) ==> (r <==> KindAt(p.lexer.input, Pos(p) + 1) == t)
  {
    p.peek.kind == t
  }

  /** Advances past the peek token if it has kind `t`; otherwise records one
      diagnostic and leaves the window where it is. */
  function ExpectPeek(p: Parser, t: TokenType): (r: (bool, Parser))
    ensures r.0 <==> p.peek.kind == t
    ensures r.0 ==> r.1 == NextToken(p)
    ensures !r.0 ==> r.1.lexer == p.lexer && r.1.cur == p.cur && r.1.peek == p.peek
    ensures !r.0 ==> r.1.errors == p.errors + [PeekError(t, p.peek.kind)]
    ensures Valid(p) ==> Valid(r.1)
    ensures Valid(p) && r.0 ==> r.1 == At(p.lexer.input, Pos(p) + 1, p.errors)
    ensures Valid(p) && !r.0 ==> r.1 == At(p.lexer.input, Pos(p), p.errors + [PeekError(t, p.peek.kind)])
  {
    if PeekTokenIs(p, t) then (true, NextToken(p)) else (false, RecordPeekError(p, t))
  }

  /** The first position at or after `i` that holds a semicolon, if any. */
  function FindSemicolon(input: seq<Token>, i: nat): (r: Option<nat>)
    ensures r.Some? ==> i <= r.value < |input| && input[r.value].kind == Semicolon
    ensures r.Some? ==> forall k :: i <= k < r.value ==> input[k].kind != Semicolon
    ensures r.None? ==> forall k :: i <= k < |input| ==> input[k].kind != Semicolon
    decreases |input| - i
  {
    if i >= |input| then None
    else if input[i].kind == Semicolon then Some(i)
    else FindSemicolon(input, i + 1)
  }

  /** Advances until the current token is a semicolon. Only defined when one
      lies ahead; otherwise the loop never ends. It stops on the first
      semicolon at or after the current token, with nothing else changed. */
  function SkipToSemicolon(p: Parser): (q: Parser)
    requires Valid(p)
    requires FindSemicolon(p.lexer.input, Pos(p)).Some?
    ensures q == At(p.lexer.input, FindSemicolon(p.lexer.input, Pos(p)).value, p.errors)
    ensures q.cur.kind == Semicolon
    decreases |p.lexer.input| - Pos(p)
  {
    if CurrentTokenIs(p, Semicolon) then p
    else SkipToSemicolon(NextToken(p))
  }

  /** `n` calls of NextToken. */
  function Advance(p: Parser, n: nat): Parser
    decreases n
  {
    if n == 0 then p else Advance(NextToken(p), n - 1)
  }

  /** The result of one statement routine: the statement, if any, and the
      parser afterwards. */
  datatype Step = Step(stmt: Option<Statement>, parser: Parser)

  /** `let <ident> = ... ;`: checks the identifier and the `=`, then skips to
      the semicolon. A missing identifier or `=` drops the statement and
      records one diagnostic. */
  function ParseLetStatement(p: Parser): (r: Run<Step>)
    requires Valid(p)
    ensures var input, i := p.lexer.input, Pos(p);
      if KindAt(input, i + 1) != Ident then
        r == Done(Step(None, At(input, i, p.errors + [PeekError(Ident, KindAt(input, i + 1))])))
      else if KindAt(input, i + 2) != Assign then
        r == Done(Step(None, At(input, i + 1, p.errors + [PeekError(Assign, KindAt(input, i + 2))])))
      else
        match FindSemicolon(input, i + 2)
        case None => r == Diverges
        case Some(j) =>
          var name := TokenAt(input, i + 1);
          r == Done(Step(Some(LetStatement(p.cur, Identifier(name, name.literal), None)), At(input, j, p.errors)))
  {
    var input, i := p.lexer.input, Pos(p);
    var (ok, p1) := ExpectPeek(p, Ident);
    if !ok then
      assert KindAt(input, i + 1) != Ident;
      Done(Step(None, p1))
    else
      assert p1 == At(input, i + 1, p.errors);
      var name := Identifier(p1.cur, p1.cur.literal);
      var (ok2, p2) := ExpectPeek(p1, Assign);
      if !ok2 then
        assert KindAt(input, i + 2) != Assign;
        Done(Step(None, p2))
      else
        assert p2 == At(input, i + 2, p.errors);
        if FindSemicolon(input, i + 2).None? then Diverges
        else Done(Step(Some(LetStatement(p.cur, name, None)), SkipToSemicolon(p2)))
  }

  /** `return ... ;`: skips the keyword, then skips to the semicolon. Never
      records a diagnostic. */
  function ParseReturnStatement(p: Parser): (r: Run<Step>)
    requires Valid(p)
    ensures var input, i := p.lexer.input, Pos(p);
      match FindSemicolon(input, i + 1)
      case None => r == Diverges
      case Some(j) => r == Done(Step(Some(ReturnStatement(p.cur, None)), At(input, j, p.errors)))
  {
    var p1 := NextToken(p);
    if FindSemicolon(p1.lexer.input, Pos(p1)).None? then Diverges
    else Done(Step(Some(ReturnStatement(p.cur, None)), SkipToSemicolon(p1)))
  }

  /** What a statement routine guarantees when it finishes: a primed
      window over the same input that has not moved back; a statement it
      produces is well formed, carries the routine's first token and adds no
      diagnostic; a dropped statement adds exactly one. */
  predicate StepContract(p: Parser, r: Run<Step>)
    requires Valid(p)
  {
    r.Done? ==>
      && Valid(r.value.parser) && r.value.parser.lexer.input == p.lexer.input
      && Pos(p) <= Pos(r.value.parser)
      && (r.value.stmt.Some? ==>
            WellFormed(r.value.stmt.value) && r.value.stmt.value.token == p.cur
            && r.value.parser.errors == p.errors)
      && (r.value.stmt.None? ==>
            p.errors <= r.value.parser.errors && |r.value.parser.errors| == |p.errors| + 1)
  }

  /** The let routine keeps the statement-routine guarantees. */
  lemma LetStepContract(p: Parser)
    requires Valid(p) && p.cur.kind == Let
    ensures StepContract(p, ParseLetStatement(p))
  {
    var input, i := p.lexer.input, Pos(p);
    AtValid(input, i, p.errors);
    if KindAt(input, i + 1) != Ident {
      var e := PeekError(Ident, KindAt(input, i + 1));
      assert ParseLetStatement(p) == Done(Step(None, At(input, i, p.errors + [e])));
      AtValid(input, i, p.errors + [e]);
    } else if KindAt(input, i + 2) != Assign {
      var e := PeekError(Assign, KindAt(input, i + 2));
      assert ParseLetStatement(p) == Done(Step(None, At(input, i + 1, p.errors + [e])));
      AtValid(input, i + 1, p.errors + [e]);
    } else if FindSemicolon(input, i + 2).Some? {
      var j := FindSemicolon(input, i + 2).value;
      AtValid(input, j, p.errors);
    }
  }

  /** The return routine keeps the statement-routine guarantees. */
  lemma ReturnStepContract(p: Parser)
    requires Valid(p) && p.cur.kind == Return
    ensures StepContract(p, ParseReturnStatement(p))
  {
  }

  /** Dispatches on the current token's kind. */
  function ParseStatement(p: Parser): (r: Run<Step>)
    requires Valid(p)
    ensures p.cur.kind != Let && p.cur.kind != Return ==> r == Done(Step(None, p))
    ensures r.Diverges? ==> p.cur.kind == Let || p.cur.kind == Return
    ensures p.cur.kind == Let || p.cur.kind == Return ==> StepContract(p, r)
  {
    match p.cur.kind
    case Let => LetStepContract(p); ParseLetStatement(p)
    case Return => ReturnStepContract(p); ParseReturnStatement(p)
    case _ => Done(Step(None, p))
  }

  /** A finished parse: the program and the parser it leaves behind. */
  datatype Parsed = Parsed(program: Program, parser: Parser)

  /** The driver loop, with `acc` the statements collected so far. */
  function ParseStatements(p: Parser, acc: seq<Statement>): (r: Run<Parsed>)
    requires Valid(p)
    ensures p.cur.kind == Eof ==> r == Done(Parsed(Program(acc), p))
    ensures r.Done? ==> var q := r.value.parser;
      Valid(q) && q.lexer.input == p.lexer.input && q.cur.kind == Eof && Pos(p) <= Pos(q)
    ensures r.Done? ==> p.errors <= r.value.parser.errors
    ensures r.Done? ==> acc <= r.value.program.statements
    ensures r.Done? ==> forall k :: |acc| <= k < |r.value.program.statements| ==> WellFormed(r.value.program.statements[k])
    decreases |p.lexer.input| - Pos(p)
  {
    if p.cur.kind == Eof then Done(Parsed(Program(acc), p))
    else
      match ParseStatement(p)
      case Diverges => Diverges
      case Done(Step(stmt, p1)) =>
        var acc' := if stmt.Some? then acc + [stmt.value] else acc;
        assert forall k :: |acc| <= k < |acc'| ==> WellFormed(acc'[k]);
        ParseStatements(NextToken(p1), acc')
  }

  /** Parses statements until the current token is end-of-input. Malformed
      statements are dropped, each leaving one diagnostic behind. */
  function ParseProgram(p: Parser): (r: Run<Parsed>)
    requires Valid(p)
    ensures p.cur.kind == Eof ==> r == Done(Parsed(Program([]), p))
    ensures r.Done? ==> var q := r.value.parser;
      Valid(q) && q.lexer.input == p.lexer.input && q.cur.kind == Eof && Pos(p) <= Pos(q)
    ensures r.Done? ==> p.errors <= r.value.parser.errors
    ensures r.Done? ==> forall k :: 0 <= k < |r.value.program.statements| ==> WellFormed(r.value.program.statements[k])
  {
    ParseStatements(p, [])
  }
}
