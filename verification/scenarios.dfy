/** The parser on a few fixed inputs: empty input, the two malformed let
    forms, recovery after a malformed statement, and a missing semicolon. */
module Scenarios {
  import opened Wrappers
  import opened Tokens
  import opened Lexing
  import opened Ast
  import opened Parsing
  import opened ParserProperties

  /** The driver passes over a token that starts no statement. */
  lemma DriverSkipsOther(input: seq<Token>, i: nat, e: seq<ParseError>, acc: seq<Statement>)
    requires KindAt(input, i) !in {Eof, Let, Return}
    ensures ParseStatements(At(input, i, e), acc) == ParseStatements(At(input, i + 1, e), acc)
  {
    AtValid(input, i, e);
    assert NextToken(At(input, i, e)) == At(input, i + 1, e);
  }

  /** A let without an identifier after it: one diagnostic, no statement,
      and the driver resumes on the token after `let`. */
  lemma DriverDropsLetWithoutIdent(input: seq<Token>, i: nat, e: seq<ParseError>, acc: seq<Statement>)
    requires KindAt(input, i) == Let && KindAt(input, i + 1) != Ident
    ensures ParseStatements(At(input, i, e), acc)
         == ParseStatements(At(input, i + 1, e + [PeekError(Ident, KindAt(input, i + 1))]), acc)
  {
    var e' := e + [PeekError(Ident, KindAt(input, i + 1))];
    AtValid(input, i, e);
    assert ParseStatement(At(input, i, e)) == Done(Step(None, At(input, i, e')));
    assert NextToken(At(input, i, e')) == At(input, i + 1, e');
  }

  /** A let whose identifier is not followed by `=`: one diagnostic, no
      statement, and the driver resumes on the token after the identifier. */
  lemma DriverDropsLetWithoutAssign(input: seq<Token>, i: nat, e: seq<ParseError>, acc: seq<Statement>)
    requires KindAt(input, i) == Let && KindAt(input, i + 1) == Ident && KindAt(input, i + 2) != Assign
    ensures ParseStatements(At(input, i, e), acc)
         == ParseStatements(At(input, i + 2, e + [PeekError(Assign, KindAt(input, i + 2))]), acc)
  {
    var e' := e + [PeekError(Assign, KindAt(input, i + 2))];
    AtValid(input, i, e);
    assert ParseStatement(At(input, i, e)) == Done(Step(None, At(input, i + 1, e')));
    assert NextToken(At(input, i + 1, e')) == At(input, i + 2, e');
  }

  /** Empty input: no statements, no diagnostics, and a program rather than
      a failure. */
  lemma EmptyInput()
    ensures ParseProgram(New([])) == Done(Parsed(Program([]), New([])))
    ensures Errors(New([])) == []
  {
  }

  /** The text of the diagnostic for a missing `=` where an integer stands. */
  lemma MissingAssignText()
    ensures Message(PeekError(Assign, Int)) == "expected next token to be =, got INT instead"
  {
    MessageOf(Assign, Int);
  }

  /** The text of the diagnostic for a missing identifier where `=` stands. */
  lemma MissingIdentText()
    ensures Message(PeekError(Ident, Assign)) == "expected next token to be IDENT, got = instead"
  {
    MessageOf(Ident, Assign);
  }

  /** The text of a diagnostic, spelled out from the two kind names. */
  lemma MessageOf(a: TokenType, b: TokenType)
    ensures Message(PeekError(a, b)) == MessageHead + Name(a) + MessageMiddle + Name(b) + MessageTail
  {
  }

  const MissingAssignInput: seq<Token> := [LetToken, Token(Ident, "x"), Token(Int, "5"), SemicolonToken]

  /** `let x 5;`: the statement is dropped with one diagnostic naming the
      wanted `=` and the INT found. */
  lemma MissingAssign()
    ensures ParseProgram(New(MissingAssignInput))
         == Done(Parsed(Program([]), At(MissingAssignInput, 4, [PeekError(Assign, Int)])))
    ensures Errors(At(MissingAssignInput, 4, [PeekError(Assign, Int)]))
         == ["expected next token to be =, got INT instead"]
  {
    DropsLetWithoutAssign(MissingAssignInput);
    MissingAssignText();
  }

  /** Any input laid out as `let`, an identifier, then two tokens that
      start no statement, the first not `=`, parses to the empty program
      with one diagnostic. */
  lemma DropsLetWithoutAssign(input: seq<Token>)
    requires |input| == 4 && KindAt(input, 0) == Let && KindAt(input, 1) == Ident
    requires KindAt(input, 2) !in {Assign, Eof, Let, Return} && KindAt(input, 3) !in {Eof, Let, Return}
    ensures ParseProgram(New(input))
         == Done(Parsed(Program([]), At(input, 4, [PeekError(Assign, KindAt(input, 2))])))
  {
    var e := [PeekError(Assign, KindAt(input, 2))];
    assert New(input) == At(input, 0, []);
    DriverDropsLetWithoutAssign(input, 0, [], []);
    assert [] + e == e;
    DriverSkipsOther(input, 2, e, []);
    DriverSkipsOther(input, 3, e, []);
    DriverAtEnd(input, e, []);
  }

  const MissingIdentInput: seq<Token> := [LetToken, AssignToken, Token(Int, "5"), SemicolonToken]

  /** Any input laid out as `let`, a non-identifier, then two tokens that
      start no statement, parses to the empty program with one diagnostic. */
  lemma DropsLetWithoutIdent(input: seq<Token>)
    requires |input| == 4 && KindAt(input, 0) == Let && KindAt(input, 1) !in {Ident, Eof, Let, Return}
    requires KindAt(input, 2) !in {Eof, Let, Return} && KindAt(input, 3) !in {Eof, Let, Return}
    ensures ParseProgram(New(input))
         == Done(Parsed(Program([]), At(input, 4, [PeekError(Ident, KindAt(input, 1))])))
  {
    var e := [PeekError(Ident, KindAt(input, 1))];
    assert New(input) == At(input, 0, []);
    DriverDropsLetWithoutIdent(input, 0, [], []);
    assert [] + e == e;
    DriverSkipsOther(input, 1, e, []);
    DriverSkipsOther(input, 2, e, []);
    DriverSkipsOther(input, 3, e, []);
    DriverAtEnd(input, e, []);
  }

  /** `let = 5;`: the statement is dropped with one diagnostic naming the
      wanted IDENT and the `=` found; the rest of the line starts no
      statement. */
  lemma MissingIdent()
    ensures ParseProgram(New(MissingIdentInput))
         == Done(Parsed(Program([]), At(MissingIdentInput, 4, [PeekError(Ident, Assign)])))
    ensures Errors(At(MissingIdentInput, 4, [PeekError(Ident, Assign)]))
         == ["expected next token to be IDENT, got = instead"]
  {
    DropsLetWithoutIdent(MissingIdentInput);
    MissingIdentText();
  }

  const MixedInput: seq<Token> :=
    [LetToken, Token(Ident, "a"), AssignToken, Token(Int, "1"), SemicolonToken,
     LetToken, Token(Ident, "b"), Token(Int, "2"), SemicolonToken,
     ReturnToken, Token(Int, "3"), SemicolonToken]

  /** A well-formed let, a let missing its `=` with its value and semicolon
      after it, then a well-formed return: the two good statements are kept
      in order and the bad one leaves one diagnostic. */
  lemma RecoversBetweenStatements(input: seq<Token>, name: string)
    requires |input| == 12 && LetAt(input, 0, name, 4)
    requires KindAt(input, 5) == Let && KindAt(input, 6) == Ident && KindAt(input, 7) !in {Assign, Eof, Let, Return}
    requires KindAt(input, 8) !in {Eof, Let, Return}
    requires ReturnAt(input, 9, 11)
    ensures ParseProgram(New(input))
         == Done(Parsed(Program([Expected(LetDecl(name, [])), Expected(ReturnDecl([]))]),
                        At(input, 12, [PeekError(Assign, KindAt(input, 7))])))
  {
    var e := [PeekError(Assign, KindAt(input, 7))];
    var first := Expected(LetDecl(name, []));
    assert New(input) == At(input, 0, []);
    LeadingLet(input, name);
    DriverDropsLetWithoutAssign(input, 5, [], [first]);
    assert [] + e == e;
    RecoveryTail(input, e, first);
  }

  /** A let statement that starts the input becomes the first node. */
  lemma LeadingLet(input: seq<Token>, name: string)
    requires LetAt(input, 0, name, 4)
    ensures ParseStatements(At(input, 0, []), []) == ParseStatements(At(input, 5, []), [Expected(LetDecl(name, []))])
  {
    DriverDecl(input, 0, LetDecl(name, []), 4, [], []);
    assert [] + [Expected(LetDecl(name, []))] == [Expected(LetDecl(name, []))];
  }

  /** The second half of the recovery scenario: from the token after the
      malformed let's identifier to the end. */
  lemma RecoveryTail(input: seq<Token>, e: seq<ParseError>, first: Statement)
    requires |input| == 12 && KindAt(input, 7) !in {Eof, Let, Return} && KindAt(input, 8) !in {Eof, Let, Return}
    requires ReturnAt(input, 9, 11)
    ensures ParseStatements(At(input, 7, e), [first])
         == Done(Parsed(Program([first, Expected(ReturnDecl([]))]), At(input, 12, e)))
  {
    DriverSkipsOther(input, 7, e, [first]);
    DriverSkipsOther(input, 8, e, [first]);
    FinalReturn(input, e, first);
  }

  /** A return statement that ends the input is appended as the last node. */
  lemma FinalReturn(input: seq<Token>, e: seq<ParseError>, first: Statement)
    requires |input| == 12 && ReturnAt(input, 9, 11)
    ensures ParseStatements(At(input, 9, e), [first])
         == Done(Parsed(Program([first, Expected(ReturnDecl([]))]), At(input, 12, e)))
  {
    var second := Expected(ReturnDecl([]));
    DriverDecl(input, 9, ReturnDecl([]), 11, e, [first]);
    assert [first] + [second] == [first, second];
    DriverAtEnd(input, e, [first, second]);
  }

  /** `let a = 1; let b 2; return 3;`: the malformed middle statement costs
      one diagnostic and nothing else; the statements around it are kept,
      in order. */
  lemma MixedRecovery()
    ensures ParseProgram(New(MixedInput))
         == Done(Parsed(Program([LetStatement(LetToken, Identifier(Token(Ident, "a"), "a"), None),
                                 ReturnStatement(ReturnToken, None)]),
                        At(MixedInput, 12, [PeekError(Assign, Int)])))
  {
    var input := MixedInput;
    assert FindSemicolon(input, 4) == Some(4);
    assert FindSemicolon(input, 2) == Some(4);
    assert FindSemicolon(input, 11) == Some(11);
    assert FindSemicolon(input, 10) == Some(11);
    RecoversBetweenStatements(input, "a");
  }

  const MissingSemicolonInput: seq<Token> := [LetToken, Token(Ident, "x"), AssignToken, Token(Int, "5")]

  /** A let with its identifier and `=` but no semicolon anywhere after
      them stops the whole parse from finishing. */
  lemma DriverDivergesOnLet(input: seq<Token>, i: nat, e: seq<ParseError>, acc: seq<Statement>)
    requires KindAt(input, i) == Let && KindAt(input, i + 1) == Ident && KindAt(input, i + 2) == Assign
    requires FindSemicolon(input, i + 2).None?
    ensures ParseStatements(At(input, i, e), acc) == Diverges
  {
    AtValid(input, i, e);
    assert ParseStatement(At(input, i, e)) == Diverges;
  }

  /** `let x = 5` with no semicolon: the skip after `=` never meets one,
      so the parse does not finish. */
  lemma MissingSemicolon()
    ensures ParseProgram(New(MissingSemicolonInput)) == Diverges
  {
    var input := MissingSemicolonInput;
    assert New(input) == At(input, 0, []);
    assert FindSemicolon(input, 4) == None;
    assert FindSemicolon(input, 2) == None;
    DriverDivergesOnLet(input, 0, [], []);
  }
}
