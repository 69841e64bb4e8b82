# Monkey parser, modelled in Dafny

This project models the statement parser of the Monkey language and the syntax tree it builds.

- The parser keeps a two-token lookahead window (current and peek) over the token stream. It fills the window when it is created, and moves it only through `nextToken`.
- The driver loop dispatches on the current token:
  - `let` checks for an identifier, then for `=`, then skips to the next semicolon;
  - `return` skips the keyword, then skips to the next semicolon;
  - any other token yields nothing.
- A malformed `let` is dropped, and exactly one diagnostic is appended to the error list.
- The tree is a `Program` of `LetStatement` and `ReturnStatement` nodes with `Identifier` leaves. Each node has a `TokenLiteral` accessor.

## Files

- `wrappers.dfy`: `Option` and `Run`. A `Run` is either `Done(value)` or `Diverges`.
- `token.dfy`: the token kinds, tokens, the printable kind names used in diagnostics, and the reading of a name back into its kind.
- `lexer.dfy`: the lexer as the parser sees it. It is a finite token sequence (`Source`) that yields end-of-input forever once exhausted.
- `ast.dfy`: the tree types, their `TokenLiteral` accessors, and the shape of every node the parser can produce (`WellFormed`).
- `parser.dfy`: the parser state and every parser routine.
- `properties.dfy`: whole-parse properties:
  - what each statement routine returns;
  - exactly when the skip loops never finish;
  - a sufficient condition for the parse to finish;
  - what a stream of well-formed statements parses to (`Decl` and `Render` describe such a stream).
- `scenarios.dfy`: error recovery on malformed input. Each case is stated for any input with the given layout and for one concrete token list.

How the routines are modelled:

- **State.** A parser is a record: the lexer (token sequence plus read cursor), the window, and the errors.
  - `At(input, pos, errors)` is the primed parser whose current token is at stream position `pos`.
  - `Valid(p)` says the window holds the two tokens just before the lexer's cursor.
- **Values.** Routines are pure functions that return the new parser state. A statement routine returns the optional statement together with the parser afterwards.
- **Non-termination.** The let and return routines have a skip loop that stops only at a semicolon. The return routine returns `Diverges` exactly when no semicolon follows the keyword. The let routine does so exactly when it finds the identifier and the `=` and no semicolon follows the `=`. In those cases the source loops forever.
  - This also applies to the driver (`ParseStatements`, `ParseProgram`) when it reaches such a statement.
  - `SkipToSemicolon` requires that a semicolon lies ahead (`FindSemicolon`).

## Model

| member | source | states |
|---|---|---|
| Parsing.New | parser/parser.go:19-26 | after construction the current token is the stream's first, the peek token its second, the error list is empty, and the parser is primed at position 0 |
| Parsing.Errors | parser/parser.go:28-30 | the accessor yields one message per recorded diagnostic, in recording order |
| Parsing.ErrorsReadBack | parser/parser.go:28-30 | each text the accessor yields reads back as the diagnostic recorded at that place, so the list loses no information |
| Parsing.NextToken | parser/parser.go:38-41 | the new current token is the old peek token, peek becomes the next stream token, the errors are unchanged, and a primed window moves exactly one position |
| Parsing.ExpectPeek | parser/parser.go:111-119 | succeeds iff the peek token has the wanted kind; on success it advances exactly one token and records nothing; on failure the window is untouched and exactly one diagnostic (wanted kind, found kind) is appended |
| Parsing.MessageReadsBack | parser/parser.go:33-34 | a text is read back as a diagnostic exactly when it is that diagnostic's message, so the message names the wanted and the found kind recoverably and no two diagnostics share a text |
| Scenarios.MissingAssignText | parser/parser.go:33-34 | the diagnostic for a wanted `=` where an INT stands reads "expected next token to be =, got INT instead" |
| Scenarios.MissingIdentText | parser/parser.go:33-34 | the diagnostic for a wanted IDENT where `=` stands reads "expected next token to be IDENT, got = instead" |
| Parsing.RecordPeekError | parser/parser.go:32-36 | recording leaves the window and lexer as they were and appends exactly one diagnostic naming the wanted kind and the peek token's kind; a primed parser stays primed at the same position |
| Parsing.RecordedText | parser/parser.go:32-36 | after recording, the accessor's list is the old list followed by exactly the new diagnostic's text |
| Parsing.CurrentTokenIs | parser/parser.go:103-105 | true exactly when the current token has the given kind; on a primed parser that is the kind of the stream token at the parser's position |
| Parsing.PeekTokenIs | parser/parser.go:107-109 | true exactly when the peek token has the given kind; on a primed parser that is the kind of the stream token one past the parser's position |
| Parsing.FindSemicolon | parser/parser.go:84-86 | locates the first semicolon at or after a position, or reports that none exists |
| Parsing.SkipToSemicolon | parser/parser.go:96-98 | given a semicolon ahead, the skip loop stops on the first one, with errors and input unchanged |
| Parsing.ParseLetStatement | parser/parser.go:71-89 | a missing identifier drops the statement with one diagnostic at the `let`; a missing `=` drops it with one diagnostic at the identifier; otherwise the statement binds the identifier and ends on the first semicolon, or the routine diverges when there is none |
| ParserProperties.LetStatementResult | parser/parser.go:72-88 | a produced let carries the `let` token, names the identifier after it by that token's own literal, records nothing and ends on a semicolon |
| Parsing.LetStepContract | parser/parser.go:71-89 | the let routine never moves the window backwards, keeps the errors of a produced statement, and adds exactly one error when it drops the statement |
| Parsing.ParseReturnStatement | parser/parser.go:91-101 | a return node with the `return` token is produced whenever a semicolon follows the keyword, the window ends on that semicolon and no error is recorded; otherwise the routine diverges |
| ParserProperties.ReturnStatementResult | parser/parser.go:91-101 | a finished return routine yields exactly the node for its `return` token, records nothing and ends on a semicolon |
| Parsing.ReturnStepContract | parser/parser.go:91-101 | the return routine never moves the window backwards and never records an error |
| Parsing.ParseStatement | parser/parser.go:60-69 | any token other than let or return yields no statement and leaves the parser as it was; only let and return can diverge; a produced statement is well formed, carries the dispatching token and records no diagnostic |
| Parsing.ParseStatements | parser/parser.go:47-55 | the loop returns at once on end-of-input and only ever stops there; the statements collected so far stay a prefix in order; every appended statement is well formed; errors only grow; the window never moves back |
| Parsing.ParseProgram | parser/parser.go:43-58 | a finished parse ends on end-of-input with well-formed statements only and an error list that extends the initial one; on an input starting at end-of-input it yields the empty program |
| ParserProperties.AdvanceIsAt | parser/parser.go:38-41 | `n` window shifts move a primed parser exactly `n` positions and change nothing else |
| ParserProperties.SkipWithoutSemicolonDiverges | parser/parser.go:84-86 | with no semicolon ahead, no number of advances makes the current token a semicolon, so the skip loop never exits |
| ParserProperties.LetDivergesForever | parser/parser.go:84-86 | when the let routine diverges, it got past both checks and its skip loop, started on `=`, never meets a semicolon |
| ParserProperties.ReturnDivergesForever | parser/parser.go:96-98 | when the return routine diverges, its skip loop, started after the keyword, never meets a semicolon |
| ParserProperties.TerminatedStatementsFinish | parser/parser.go:47-55 | if every let and return keyword has a semicolon after it, the driver loop finishes |
| ParserProperties.TerminatedInputParses | parser/parser.go:43-58 | on such input a freshly created parser's parse finishes |
| ParserProperties.DriverStep | parser/parser.go:48-54 | one loop iteration appends the produced statement and restarts on the token after the one the routine stopped on |
| ParserProperties.DriverDecl | parser/parser.go:60-65 | a let or return laid out up to its semicolon is consumed in one iteration and appended as the expected node |
| ParserProperties.DriverAtEnd | parser/parser.go:47 | at end-of-input the loop returns the statements collected so far |
| ParserProperties.ParseDecls | parser/parser.go:47-55 | a laid-out run of let and return statements is turned into the expected nodes in order, consuming the input to its end |
| ParserProperties.WellFormedInputParses | parser/parser.go:43-58 | a stream of well-formed let and return statements parses to one node per statement, in order, with no diagnostic |
| ParserProperties.LetNamesInOrder | parser/parser.go:43-58 | `n` well-formed lets yield `n` let statements carrying the declared names in order, and no error |
| Scenarios.DriverSkipsOther | parser/parser.go:66-67 | a token that starts no statement is passed over with nothing recorded |
| Scenarios.DriverDropsLetWithoutIdent | parser/parser.go:74-76 | a let without an identifier costs one diagnostic and the loop resumes on the token after `let` |
| Scenarios.DriverDropsLetWithoutAssign | parser/parser.go:80-82 | a let without `=` costs one diagnostic and the loop resumes on the token after the identifier |
| Scenarios.DriverDivergesOnLet | parser/parser.go:84-86 | a let with its identifier and `=` but no semicolon after them stops the whole parse from finishing |
| Scenarios.EmptyInput | parser/parser.go:43-58 | empty input gives an empty program, not a failure, and no diagnostics |
| Scenarios.DropsLetWithoutIdent | parser/parser.go:74-76 | on any four-token input of `let`, a non-identifier, and two more tokens, where none of the last three is end-of-input, `let` or `return`, the parse yields the empty program and the single diagnostic naming IDENT and the kind found |
| Scenarios.MissingIdent | parser/parser.go:74-76 | `let = 5;` yields no statement and the single message "expected next token to be IDENT, got = instead" |
| Scenarios.DropsLetWithoutAssign | parser/parser.go:80-82 | on any four-token input of `let`, an identifier, a token other than `=`, and one more token, where neither of the last two is end-of-input, `let` or `return`, the parse yields the empty program and the single diagnostic naming `=` and the kind found |
| Scenarios.MissingAssign | parser/parser.go:80-82 | `let x 5;` yields no statement and the single message "expected next token to be =, got INT instead" |
| Scenarios.RecoversBetweenStatements | parser/parser.go:47-55 | on any twelve-token input laid out as a well-formed let ending on its semicolon at position 4, then `let`, an identifier, a token other than `=` and one more token, neither of those two being end-of-input, `let` or `return`, then a return whose first semicolon is the last token, the malformed let costs one diagnostic and the two good statements are kept in order |
| Scenarios.MixedRecovery | parser/parser.go:47-55 | `let a = 1; let b 2; return 3;` yields the let of `a` and the return, in order, and one missing-`=` diagnostic |
| Scenarios.MissingSemicolon | parser/parser.go:84-86 | `let x = 5` with no semicolon makes the parse diverge |
| Ast.ProgramLiteralEmpty | ast/ast.go:23-29 | a program without statements has the empty literal; when statement tokens have non-empty text, that is the only way to get it |
| Ast.ProgramLiteralFirst | ast/ast.go:24-25 | a non-empty program's literal is its first statement's, whatever follows |
| Ast.StatementLiteralOwnToken | ast/ast.go:38-58 | a let or return statement's literal is its own token's text, independent of its name and value |
| Ast.IdentifierLiteralIgnoresValue | ast/ast.go:48-50 | an identifier's literal is its token's text, whatever its `Value` field holds |

## Left out

- The lexer internals and the token-kind definitions are not part of this model. The lexer is a token sequence followed by end-of-input forever.
- The kind names in diagnostics (`=`, `;`, `IDENT`, `INT`, and so on) are taken from the Monkey token table, which is not part of this model.
- `fmt.Sprintf` is not modelled. A diagnostic is the datatype `PeekError(expected, got)`, and `Message` renders it by plain concatenation in the same format, and `ReadMessage` reads such a text back.
- Pointer identity, heap allocation, `nil`, and the interface marker methods (`statementNode`, `expressionNode`) are not modelled. A dropped statement is `None`, and a program's list cannot hold a missing entry.
- Expression parsing is not modelled: the value slots are always `None`, as in the source.
- The Go zero token that fills the window before priming is modelled as an ILLEGAL token with empty text. Nothing observes it.
- `Errors` returns a copy of the messages, not an alias of the parser's own slice.
- Parsing.ParseProgram: its contract does not pin down the resulting program on arbitrary input. ParseDecls, WellFormedInputParses and the Scenarios lemmas pin it down for laid-out input.
- Termination: a parse of finite input does not always finish. The skip loops test only for a semicolon, and the lexer repeats end-of-input, so a `let x = 5` or `return 5` with no semicolon after it loops forever. The model follows the code: `Diverges` marks that case, and no termination is claimed for it.
