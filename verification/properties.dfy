/** Whole-parse properties: when the skip loops diverge, when a parse is
    guaranteed to finish, and what well-formed input parses to. */
module ParserProperties {
  import opened Wrappers
  import opened Tokens
  import opened Lexing
  import opened Ast
  import opened Parsing

  /** A let routine that produces a statement has bound the identifier
      after `let` under that identifier's own literal, kept the `let` token,
      recorded nothing, and stopped on a semicolon. */
  lemma LetStatementResult(p: Parser)
    requires Valid(p)
    requires ParseLetStatement(p).Done? && ParseLetStatement(p).value.stmt.Some?
    ensures var s, q := ParseLetStatement(p).value.stmt.value, ParseLetStatement(p).value.parser;
      && s.LetStatement? && s.token == p.cur && s.value.None?
      && s.name.token == p.peek && s.name.value == p.peek.literal
      && q.cur.kind == Semicolon && q.errors == p.errors
  {
    var input, i := p.lexer.input, Pos(p);
    var j := FindSemicolon(input, i + 2).value;
    assert ParseLetStatement(p).value.parser == At(input, j, p.errors);
  }

  /** A return routine that finishes has produced a node carrying the
      `return` token, recorded nothing, and stopped on a semicolon. */
  lemma ReturnStatementResult(p: Parser)
    requires Valid(p)
    requires ParseReturnStatement(p).Done?
    ensures var s, q := ParseReturnStatement(p).value.stmt, ParseReturnStatement(p).value.parser;
      && s == Some(ReturnStatement(p.cur, None))
      && q.cur.kind == Semicolon && q.errors == p.errors
  {
    var input, i := p.lexer.input, Pos(p);
    var j := FindSemicolon(input, i + 1).value;
    assert ParseReturnStatement(p).value.parser == At(input, j, p.errors);
  }

  /** Advancing a primed parser `n` times moves its window `n` positions. */
  lemma {:induction false} AdvanceIsAt(p: Parser, n: nat)
    requires Valid(p)
    ensures Advance(p, n) == At(p.lexer.input, Pos(p) + n, p.errors)
    decreases n
  {
    if n > 0 {
      AdvanceIsAt(NextToken(p), n - 1);
    }
  }

  /** With no semicolon at or after the current position, no number of
      advances ever makes the current token a semicolon: the skip loop of the
      let and return routines does not terminate. */
  lemma SkipWithoutSemicolonDiverges(p: Parser, n: nat)
    requires Valid(p)
    requires FindSemicolon(p.lexer.input, Pos(p)).None?
    ensures Advance(p, n).cur.kind != Semicolon
  {
    AdvanceIsAt(p, n);
  }

  /** A let routine reports `Diverges` only when its skip loop, started on
      the `=`, would run forever. */
  lemma LetDivergesForever(p: Parser, n: nat)
    requires Valid(p)
    requires ParseLetStatement(p).Diverges?
    ensures KindAt(p.lexer.input, Pos(p) + 1) == Ident && KindAt(p.lexer.input, Pos(p) + 2) == Assign
    ensures Advance(At(p.lexer.input, Pos(p) + 2, p.errors), n).cur.kind != Semicolon
  {
    SkipWithoutSemicolonDiverges(At(p.lexer.input, Pos(p) + 2, p.errors), n);
  }

  /** A return routine reports `Diverges` only when its skip loop, started
      on the token after the keyword, would run forever. */
  lemma ReturnDivergesForever(p: Parser, n: nat)
    requires Valid(p)
    requires ParseReturnStatement(p).Diverges?
    ensures Advance(At(p.lexer.input, Pos(p) + 1, p.errors), n).cur.kind != Semicolon
  {
    SkipWithoutSemicolonDiverges(At(p.lexer.input, Pos(p) + 1, p.errors), n);
  }

  /** Every let and return keyword in `input` has a semicolon somewhere
      after it. */
  predicate Terminated(input: seq<Token>)
  {
    forall i :: 0 <= i < |input| && (input[i].kind == Let || input[i].kind == Return) ==>
      FindSemicolon(input, i + 1).Some?
  }

  /** A semicolon ahead of a non-semicolon is still ahead one step later. */
  lemma SemicolonStillAhead(input: seq<Token>, i: nat)
    requires FindSemicolon(input, i).Some? && TokenAt(input, i).kind != Semicolon
    ensures FindSemicolon(input, i + 1).Some?
  {
  }

  /** The driver loop finishes on terminated input. */
  lemma {:induction false} TerminatedStatementsFinish(p: Parser, acc: seq<Statement>)
    requires Valid(p) && Terminated(p.lexer.input)
    ensures ParseStatements(p, acc).Done?
    decreases |p.lexer.input| - Pos(p)
  {
    var input, i := p.lexer.input, Pos(p);
    if p.cur.kind != Eof {
      assert i < |input|;
      if p.cur.kind == Let || p.cur.kind == Return {
        assert input[i] == p.cur;
        assert FindSemicolon(input, i + 1).Some?;
        if p.cur.kind == Let && KindAt(input, i + 1) == Ident && KindAt(input, i + 2) == Assign {
          SemicolonStillAhead(input, i + 1);
        }
      }
      var step := ParseStatement(p);
      assert step.Done?;
      var acc' := if step.value.stmt.Some? then acc + [step.value.stmt.value] else acc;
      TerminatedStatementsFinish(NextToken(step.value.parser), acc');
    }
  }

  /** Parsing terminated input always finishes. */
  lemma TerminatedInputParses(input: seq<Token>)
    requires Terminated(input)
    ensures ParseProgram(New(input)).Done?
  {
    TerminatedStatementsFinish(New(input), []);
  }

  // Well-formed input and what it parses to.

  /** A well-formed source statement: `let name = value ;` or
      `return value ;`, the value being any tokens but a semicolon. */
  datatype Decl = LetDecl(name: string, value: seq<Token>) | ReturnDecl(value: seq<Token>)

  predicate NoSemicolon(value: seq<Token>)
  {
    forall k :: 0 <= k < |value| ==> value[k].kind != Semicolon
  }

  predicate WellFormedDecls(decls: seq<Decl>)
  {
    forall k :: 0 <= k < |decls| ==> NoSemicolon(decls[k].value)
  }

  const LetToken: Token := Token(Let, "let")
  const ReturnToken: Token := Token(Return, "return")
  const AssignToken: Token := Token(Assign, "=")
  const SemicolonToken: Token := Token(Semicolon, ";")

  /** The tokens of one source statement. */
  function RenderDecl(d: Decl): seq<Token>
  {
    match d
    case LetDecl(name, value) => [LetToken, Token(Ident, name), AssignToken] + value + [SemicolonToken]
    case ReturnDecl(value) => [ReturnToken] + value + [SemicolonToken]
  }

  /** The token stream of a sequence of source statements. */
  function Render(decls: seq<Decl>): seq<Token>
  {
    if |decls| == 0 then [] else RenderDecl(decls[0]) + Render(decls[1..])
  }

  /** The tree node a source statement should become. */
  function Expected(d: Decl): Statement
  {
    match d
    case LetDecl(name, _) => LetStatement(LetToken, Identifier(Token(Ident, name), name), None)
    case ReturnDecl(_) => ReturnStatement(ReturnToken, None)
  }

  function ExpectedAll(decls: seq<Decl>): seq<Statement>
  {
    if |decls| == 0 then [] else [Expected(decls[0])] + ExpectedAll(decls[1..])
  }

  /** The expected nodes correspond one to one, in order, with the source
      statements. */
  lemma {:induction false} ExpectedAllAt(decls: seq<Decl>)
    ensures |ExpectedAll(decls)| == |decls|
    ensures forall k :: 0 <= k < |decls| ==> ExpectedAll(decls)[k] == Expected(decls[k])
    decreases |decls|
  {
    if |decls| > 0 {
      ExpectedAllAt(decls[1..]);
    }
  }

  /** Reading a position inside a known suffix of the stream. */
  lemma SuffixAt(input: seq<Token>, i: nat, s: seq<Token>, k: nat)
    requires i <= |input| && input[i..] == s && k < |s|
    ensures i + k < |input| && input[i + k] == s[k]
  {
    assert input[i..][k] == s[k];
  }

  /** Dropping a known prefix of a known suffix. */
  lemma SuffixDrop(input: seq<Token>, i: nat, a: seq<Token>, b: seq<Token>)
    requires i <= |input| && input[i..] == a + b
    ensures i + |a| <= |input| && input[i + |a|..] == b
  {
    assert |input[i..]| == |a| + |b|;
    assert input[i + |a|..] == input[i..][|a|..];
    assert (a + b)[|a|..] == b;
  }

  /** The only semicolon of a rendered statement is its last token. */
  lemma RenderedSemicolon(input: seq<Token>, i: nat, d: Decl, rest: seq<Token>, from: nat)
    requires i <= |input| && input[i..] == RenderDecl(d) + rest
    requires NoSemicolon(d.value)
    requires i + 1 <= from <= i + |RenderDecl(d)| - 1
    ensures FindSemicolon(input, from) == Some(i + |RenderDecl(d)| - 1)
  {
    var rd := RenderDecl(d);
    var last := i + |rd| - 1;
    SuffixAt(input, i, rd + rest, |rd| - 1);
    assert input[last] == SemicolonToken;
    forall k | from <= k < last
      ensures input[k].kind != Semicolon
    {
      SuffixAt(input, i, rd + rest, k - i);
      assert input[k] == rd[k - i];
      if d.LetDecl? && k - i >= 3 {
        assert rd[k - i] == d.value[k - i - 3];
      } else if d.ReturnDecl? {
        assert rd[k - i] == d.value[k - i - 1];
      }
    }
  }

  /** A let statement whose semicolon is at `j` begins at position `i`. */
  predicate LetAt(input: seq<Token>, i: nat, name: string, j: nat)
  {
    TokenAt(input, i) == LetToken && TokenAt(input, i + 1) == Token(Ident, name)
    && KindAt(input, i + 2) == Assign && FindSemicolon(input, i + 2) == Some(j)
  }

  /** A return statement whose semicolon is at `j` begins at position `i`. */
  predicate ReturnAt(input: seq<Token>, i: nat, j: nat)
  {
    TokenAt(input, i) == ReturnToken && FindSemicolon(input, i + 1) == Some(j)
  }

  /** One driver step over a statement the dispatch produced, the window
      having stopped on position `j`. */
  lemma DriverStep(p: Parser, acc: seq<Statement>, s: Statement, j: nat)
    requires Valid(p) && p.cur.kind != Eof
    requires ParseStatement(p) == Done(Step(Some(s), At(p.lexer.input, j, p.errors)))
    ensures WellFormed(s)
    ensures ParseStatements(p, acc) == ParseStatements(At(p.lexer.input, j + 1, p.errors), acc + [s])
  {
    assert NextToken(At(p.lexer.input, j, p.errors)) == At(p.lexer.input, j + 1, p.errors);
  }

  /** The dispatch on a let statement. */
  lemma DispatchLet(input: seq<Token>, i: nat, name: string, j: nat, e: seq<ParseError>)
    requires LetAt(input, i, name, j)
    ensures ParseStatement(At(input, i, e)) == Done(Step(Some(Expected(LetDecl(name, []))), At(input, j, e)))
  {
  }

  /** The dispatch on a return statement. */
  lemma DispatchReturn(input: seq<Token>, i: nat, j: nat, e: seq<ParseError>)
    requires ReturnAt(input, i, j)
    ensures ParseStatement(At(input, i, e)) == Done(Step(Some(Expected(ReturnDecl([]))), At(input, j, e)))
  {
  }

  /** Where a rendered let or return sits in the stream. */
  lemma RenderedDecl(input: seq<Token>, i: nat, d: Decl, rest: seq<Token>)
    requires i <= |input| && input[i..] == RenderDecl(d) + rest
    requires NoSemicolon(d.value)
    ensures DeclAt(input, i, d)
  {
    var rd := RenderDecl(d);
    SuffixAt(input, i, rd + rest, 0);
    if d.LetDecl? {
      SuffixAt(input, i, rd + rest, 1);
      SuffixAt(input, i, rd + rest, 2);
      RenderedSemicolon(input, i, d, rest, i + 2);
    } else {
      RenderedSemicolon(input, i, d, rest, i + 1);
    }
  }

  /** The driver loop consumes one let or return statement, ending on the
      semicolon at `j`, and appends its node. */
  lemma DriverDecl(input: seq<Token>, i: nat, d: Decl, j: nat, e: seq<ParseError>, acc: seq<Statement>)
    requires d.LetDecl? ==> LetAt(input, i, d.name, j)
    requires d.ReturnDecl? ==> ReturnAt(input, i, j)
    ensures WellFormed(Expected(d))
    ensures ParseStatements(At(input, i, e), acc) == ParseStatements(At(input, j + 1, e), acc + [Expected(d)])
  {
    if d.LetDecl? {
      DispatchLet(input, i, d.name, j, e);
    } else {
      DispatchReturn(input, i, j, e);
    }
    DriverStep(At(input, i, e), acc, Expected(d), j);
  }

  /** The layout of one statement at position `i`: a let or a return whose
      semicolon is its last token. */
  predicate DeclAt(input: seq<Token>, i: nat, d: Decl)
  {
    var j := i + |RenderDecl(d)| - 1;
    && (d.LetDecl? ==> LetAt(input, i, d.name, j))
    && (d.ReturnDecl? ==> ReturnAt(input, i, j))
  }

  /** The layout of a statement list in the stream from position `i` on:
      each statement where its tokens say, and nothing after the last. */
  predicate DeclsAt(input: seq<Token>, i: nat, decls: seq<Decl>)
    decreases |decls|
  {
    if |decls| == 0 then i == |input|
    else DeclAt(input, i, decls[0]) && DeclsAt(input, i + |RenderDecl(decls[0])|, decls[1..])
  }

  /** A rendered statement list has that layout. */
  lemma {:induction false} RenderedDecls(input: seq<Token>, i: nat, decls: seq<Decl>)
    requires i <= |input| && input[i..] == Render(decls)
    requires WellFormedDecls(decls)
    ensures DeclsAt(input, i, decls)
    decreases |decls|
  {
    if |decls| == 0 {
      assert |input[i..]| == 0;
      assert DeclsAt(input, i, decls);
    } else {
      RenderedFirst(input, i, decls);
      RenderedDecls(input, i + |RenderDecl(decls[0])|, decls[1..]);
      assert DeclsAt(input, i, decls);
    }
  }

  /** The first rendered statement sits at `i` and the rest follow it. */
  lemma {:induction false} RenderedFirst(input: seq<Token>, i: nat, decls: seq<Decl>)
    requires i <= |input| && input[i..] == Render(decls)
    requires WellFormedDecls(decls) && |decls| > 0
    ensures DeclAt(input, i, decls[0])
    ensures i + |RenderDecl(decls[0])| <= |input| && input[i + |RenderDecl(decls[0])|..] == Render(decls[1..])
    ensures WellFormedDecls(decls[1..])
  {
    var d, rest := decls[0], decls[1..];
    RestWellFormed(decls);
    assert Render(decls) == RenderDecl(d) + Render(rest);
    RenderedDecl(input, i, d, Render(rest));
    SuffixDrop(input, i, RenderDecl(d), Render(rest));
  }

  /** At the end of the stream the driver loop stops at once. */
  lemma DriverAtEnd(input: seq<Token>, e: seq<ParseError>, acc: seq<Statement>)
    ensures ParseStatements(At(input, |input|, e), acc) == Done(Parsed(Program(acc), At(input, |input|, e)))
  {
    assert At(input, |input|, e).cur == EofToken;
  }

  lemma {:induction false} AppendExpected(acc: seq<Statement>, decls: seq<Decl>)
    requires |decls| > 0
    ensures acc + [Expected(decls[0])] + ExpectedAll(decls[1..]) == acc + ExpectedAll(decls)
  {
  }

  /** The rest of a well-formed list is well-formed. */
  lemma {:induction false} RestWellFormed(decls: seq<Decl>)
    requires |decls| > 0 && WellFormedDecls(decls)
    ensures NoSemicolon(decls[0].value) && WellFormedDecls(decls[1..])
  {
    var rest := decls[1..];
    forall k | 0 <= k < |rest| ensures NoSemicolon(rest[k].value) {
      assert rest[k] == decls[k + 1];
    }
  }

  /** Unfolds the layout by one statement. */
  lemma {:induction false} DeclsAtHead(input: seq<Token>, i: nat, decls: seq<Decl>)
    requires |decls| > 0 && DeclsAt(input, i, decls)
    ensures DeclAt(input, i, decls[0])
    ensures DeclsAt(input, i + |RenderDecl(decls[0])|, decls[1..])
  {
  }

  /** The driver loop turns a laid-out statement list into the expected
      nodes. */
  lemma {:induction false} ParseDecls(input: seq<Token>, i: nat, decls: seq<Decl>, e: seq<ParseError>, acc: seq<Statement>)
    requires DeclsAt(input, i, decls)
    ensures ParseStatements(At(input, i, e), acc)
         == Done(Parsed(Program(acc + ExpectedAll(decls)), At(input, |input|, e)))
    decreases |decls|
  {
    if |decls| == 0 {
      DriverAtEnd(input, e, acc);
      assert acc + ExpectedAll(decls) == acc;
    } else {
      DeclsAtHead(input, i, decls);
      DriverDeclAt(input, i, decls[0], e, acc);
      ParseDecls(input, i + |RenderDecl(decls[0])|, decls[1..], e, acc + [Expected(decls[0])]);
      AppendExpected(acc, decls);
    }
  }

  /** `DriverDecl` for a statement in its laid-out place. */
  lemma DriverDeclAt(input: seq<Token>, i: nat, d: Decl, e: seq<ParseError>, acc: seq<Statement>)
    requires DeclAt(input, i, d)
    ensures ParseStatements(At(input, i, e), acc) == ParseStatements(At(input, i + |RenderDecl(d)|, e), acc + [Expected(d)])
  {
    var j := i + |RenderDecl(d)| - 1;
    assert At(input, j + 1, e) == At(input, i + |RenderDecl(d)|, e);
    DriverDecl(input, i, d, j, e, acc);
  }

  /** Input made only of well-formed let and return statements parses to one
      node per statement, in order, each let binding its own name, and
      records no diagnostic. */
  lemma {:induction false} WellFormedInputParses(decls: seq<Decl>)
    requires WellFormedDecls(decls)
    ensures var input := Render(decls);
      ParseProgram(New(input)) == Done(Parsed(Program(ExpectedAll(decls)), At(input, |input|, [])))
    ensures var r := ParseProgram(New(Render(decls)));
      r.Done? && |r.value.program.statements| == |decls| && Errors(r.value.parser) == []
  {
    var input := Render(decls);
    RenderedDecls(input, 0, decls);
    ParseDecls(input, 0, decls, [], []);
    ExpectedAllAt(decls);
    assert [] + ExpectedAll(decls) == ExpectedAll(decls);
  }

  /** A program of `n` well-formed lets yields `n` let statements carrying
      the declared names in order. */
  lemma {:induction false} LetNamesInOrder(decls: seq<Decl>)
    requires WellFormedDecls(decls)
    requires forall k :: 0 <= k < |decls| ==> decls[k].LetDecl?
    ensures var r := ParseProgram(New(Render(decls)));
      r.Done? && |r.value.program.statements| == |decls| && r.value.parser.errors == []
      && forall k :: 0 <= k < |decls| ==>
           r.value.program.statements[k].LetStatement?
           && r.value.program.statements[k].name.value == decls[k].name
  {
    WellFormedInputParses(decls);
    ExpectedAllAt(decls);
  }
}
