# pzks expression pipeline, modelled in Dafny

This project models the core of a teaching pipeline for one-line
arithmetic expressions such as `sin(x)*(a+b)/2-c`. The pipeline works on
in-memory strings, token lists and trees. This model covers six of its parts:

1. **The lab1 lexer** (`lab1_lexer.dfy`, module `Lab1Lexer`). It splits a
   sentence into position-tagged tokens. A stack of open brackets decides
   whether a bracket is a call bracket or a grouping bracket. A character it
   cannot place becomes a one-character `ERROR` token; the lexer never stops.
2. **The grammar-table validators.** These are `lab1_syntax.dfy`
   (`Lab1Syntax`, for the lab1 token vocabulary), `syntax_validator.dfy`
   (`SyntaxValidation`) and the validator half of `syntax_analyzer.dfy`.
   Each checks every token against a table of the categories allowed after
   the previous token's category. It also keeps a stack of bracket kinds.
   Errors are collected rather than raised, and an offending token is
   retagged `ERROR`.
3. **The balanced "parallel" tree builder** (`syntax_analyzer.dfy`,
   `SyntaxAnalysis`, with `syntax_tree.dfy`, `SyntaxTree`, for tree height and
   width). `*` and `/` fold left to right. A run of `+`/`-` operands is
   reduced pairwise, round by round, into a tree of least height.
4. **The associative enumerator** (`associative_expr.dfy`,
   `associative_parser.dfy`, `associative_transformer.dfy`). It parses into
   a four-variant expression type, flattens `+`/`-` and `*`/`/` chains,
   enumerates every bracketing of a chain and produces common-factor
   variants. Every variant is rendered by a precedence printer.
5. **The commutative canonicaliser** (`commutative_node.dfy`,
   `commutative_transformer.dfy`). It parses tokens into a tree, sorts the
   operands of each `+` and `*` chain under two orders, and rebuilds each
   chain as a tree split at its midpoint.
6. **The bracket expander** (`bracket_node.dfy`, `bracket_expander.dfy`). It
   multiplies out products and quotients of sums bottom-up, and repeats until
   the printed form stops changing. Its parser keeps each operator token's
   text as it is, missing or not (`Parsed`); the rewriting pass works on the
   built node tree, and fails on an operator without text (`Built`).

The shared token record and token kinds are in `lexical.dfy`. The one
algebraic signature `Algebra`, with its `Laws`, that the value-preservation
lemmas are stated over is in `algebra.dfy`. `wrappers.dfy` holds `Option` and `Result`.

How the Java maps onto Dafny:

- Java `null` becomes `Option`.
- A thrown exception becomes a `Result` failure that names the error.
- A `HashSet` of strings becomes a Dafny `set<string>`.
- A method whose loop changes local state becomes a Dafny `method`. That
  method is proved equal to a recursive specification function, and the
  properties are proved about that function.
- Arithmetic meaning is stated over an abstract algebra, so that one proof
  covers every carrier. The associative, commutative and bracket modules all
  use the same field-like `Algebra` signature with its `Laws`. A real-number
  instance shows that these laws are satisfiable.

Source paths below are relative to the repository root.

## Model

| member | source | states |
|---|---|---|
| Lexical.TokenTypeCount | src/main/java/edu/kpi/lab/model/lexical/TokenType.java:5-7 | the token kinds are exactly the thirteen of the enum |
| Lexical.OperandTypesExcludeBracketsAndOperators | src/main/java/edu/kpi/lab/model/lexical/TokenType.java:9-10 | `operandTypes` is exactly {INTEGER, DECIMAL, CONSTANT, FUNCTION}: it holds no bracket, operator or ERROR |
| Lexical.Token.AddToValue | src/main/java/edu/kpi/lab/model/lexical/Token.java:28-34 | appending to a token with no text gives the one-character text; otherwise the character goes at the end; positions and kind are unchanged |
| Lexical.Token.WithType | src/main/java/edu/kpi/lab/model/lexical/Token.java:20 | retagging changes the kind only |
| Lexical.StartToken | src/main/java/edu/kpi/lab/model/lexical/Token.java:24-26 | a new token has only its start position set |
| Lexical.AddAllToValueAccumulates | src/main/java/edu/kpi/lab/model/lexical/Token.java:28-34 | repeated `addToValue` appends the characters in order and keeps position and kind |
| Lab1Lexer.FinishProcessing | src/main/java/edu/kpi/lab/lab1/model/LexicalAnalyzer.java:96-101 | the current token is closed at `i` with its kind and text, appended to the query, and the next token starts empty at `i + 1` |
| Lab1Lexer.AddAndFinishAnother | src/main/java/edu/kpi/lab/lab1/model/LexicalAnalyzer.java:86-94 | a pending token with a kind is first closed at `i - 1`; then the character becomes a one-character token of the given kind ending at `i`; the next token starts at `i + 1` |
| Lab1Lexer.ProcessMathSentence | src/main/java/edu/kpi/lab/lab1/model/LexicalAnalyzer.java:10-84 | the character loop with its bracket stack computes `Lex`: a blank sentence is refused, otherwise each character takes one `Step` and the last unfinished token is flushed; positions count Unicode scalar values, not UTF-16 units (see Left out) |
| Lab1Lexer.LexSucceeds | src/main/java/edu/kpi/lab/lab1/model/LexicalAnalyzer.java:10-84 | the sentence is refused exactly when it is blank; otherwise the tokens are non-empty, `Lexed` over the whole text, their texts join to the input, and the last is never a bare FUNCTION; positions count Unicode scalar values, not UTF-16 units (see Left out) |
| Lab1Lexer.LexedAdjacent | src/main/java/edu/kpi/lab/lab1/model/LexicalAnalyzer.java:16-101 | the first token starts at 0, each next one starts right after the previous end, and the last ends at the text's last position |
| Lab1Lexer.TokensAreSlices | src/main/java/edu/kpi/lab/lab1/model/LexicalAnalyzer.java:20-94 | every input character lands in exactly one token: each token's text is the slice of the input between its start and end |
| Lab1Lexer.LexedLength | src/main/java/edu/kpi/lab/lab1/model/LexicalAnalyzer.java:20-94 | the token texts together are exactly as long as the text they span |
| Lab1Lexer.LexedEach | src/main/java/edu/kpi/lab/lab1/model/LexicalAnalyzer.java:20-77 | each token is a `NextToken` of those before it: its text has the shape of its kind, it may follow its predecessor, and a closing bracket is a function's closing bracket exactly when the innermost open bracket is a function's |
| Lab1Lexer.StepKeepsInv | src/main/java/edu/kpi/lab/lab1/model/LexicalAnalyzer.java:20-77 | reading any character keeps the loop invariant: the query is `Lexed` up to the pending token, the query and pending text join to the text read, and the stack is the open brackets of the query |
| Lab1Lexer.RunKeepsInv | src/main/java/edu/kpi/lab/lab1/model/LexicalAnalyzer.java:20-78 | the invariant holds after the whole loop |
| Lab1Lexer.RunFromStep | src/main/java/edu/kpi/lab/lab1/model/LexicalAnalyzer.java:20-78 | one loop turn is one `Step` |
| Lab1Lexer.FlushKeepsLexed | src/main/java/edu/kpi/lab/lab1/model/LexicalAnalyzer.java:79-81 | after the final flush the tokens are non-empty, `Lexed` over the whole text and join to the text |
| Lab1Lexer.ReadOpenBracketKeepsInv | src/main/java/edu/kpi/lab/lab1/model/LexicalAnalyzer.java:22-30 | given a state that satisfies `Inv` after `i` characters and a `(` at `i`, the state the bracket step yields satisfies `Inv` after `i + 1` characters |
| Lab1Lexer.CallBracketKeepsInv | src/main/java/edu/kpi/lab/lab1/model/LexicalAnalyzer.java:23-26 | given a state that satisfies `Inv` after `i` characters and a `(` read while a CONSTANT is pending, the state with that name retagged FUNCTION, a FUNCTION_OPEN_BRACKET token after it and that kind pushed satisfies `Inv` after `i + 1` |
| Lab1Lexer.GroupBracketKeepsInv | src/main/java/edu/kpi/lab/lab1/model/LexicalAnalyzer.java:27-30 | given a state that satisfies `Inv` after `i` characters and a `(` read while anything else is pending, the state with an OPEN_BRACKET token appended and that kind pushed satisfies `Inv` after `i + 1` |
| Lab1Lexer.ReadCloseBracketKeepsInv | src/main/java/edu/kpi/lab/lab1/model/LexicalAnalyzer.java:31-43 | given a state that satisfies `Inv` after `i` characters and a `)` at `i`, the state the bracket step yields satisfies `Inv` after `i + 1`; `Inv` ties the stack to the open brackets, so the token is FUNCTION_CLOSE_BRACKET exactly when the innermost open bracket is a function's |
| Lab1Lexer.CloserKeepsInv | src/main/java/edu/kpi/lab/lab1/model/LexicalAnalyzer.java:33-42 | given a state that satisfies `Inv` after `i` characters and a `)` whose kind fits the stack, the state with that token appended and the stack popped satisfies `Inv` after `i + 1` |
| Lab1Lexer.EmitKeepsInv | src/main/java/edu/kpi/lab/lab1/model/LexicalAnalyzer.java:44-77 | given a state that satisfies `Inv` after `i` characters and a character that is not a dot, digit or letter, emitting it as a one-character token of a kind its text fits (sign, product operator or ERROR) yields a state that satisfies `Inv` after `i + 1` |
| Lab1Lexer.ReadDotKeepsInv | src/main/java/edu/kpi/lab/lab1/model/LexicalAnalyzer.java:48-56 | given a state that satisfies `Inv` after `i` characters and a dot at `i`, the state the dot step yields satisfies `Inv` after `i + 1` |
| Lab1Lexer.DotInNumberKeepsInv | src/main/java/edu/kpi/lab/lab1/model/LexicalAnalyzer.java:49-53 | given a state that satisfies `Inv` after `i` characters and a dot read while an INTEGER or DECIMAL is pending, the state the dot step yields satisfies `Inv` after `i + 1` |
| Lab1Lexer.DotMakesDecimal | src/main/java/edu/kpi/lab/lab1/model/LexicalAnalyzer.java:49-51 | a number with a dot appended is a well-formed DECIMAL |
| Lab1Lexer.StrayDotKeepsInv | src/main/java/edu/kpi/lab/lab1/model/LexicalAnalyzer.java:54-56 | given a state that satisfies `Inv` after `i` characters and a dot read while no number is pending, emitting it as a one-character ERROR token yields a state that satisfies `Inv` after `i + 1` |
| Lab1Lexer.ReadDigitKeepsInv | src/main/java/edu/kpi/lab/lab1/model/LexicalAnalyzer.java:57-65 | given a state that satisfies `Inv` after `i` characters and a digit at `i`, the state the digit step yields satisfies `Inv` after `i + 1` |
| Lab1Lexer.DigitInNumberKeepsInv | src/main/java/edu/kpi/lab/lab1/model/LexicalAnalyzer.java:61-62 | given a state that satisfies `Inv` after `i` characters and a digit read while an INTEGER or DECIMAL is pending, the state the digit step yields satisfies `Inv` after `i + 1` |
| Lab1Lexer.DigitExtendsNumber | src/main/java/edu/kpi/lab/lab1/model/LexicalAnalyzer.java:61-62 | a number with a digit appended keeps its kind and shape |
| Lab1Lexer.DigitAfterNameKeepsInv | src/main/java/edu/kpi/lab/lab1/model/LexicalAnalyzer.java:63-65 | given a state that satisfies `Inv` after `i` characters and a digit read while a CONSTANT is pending, emitting it as a one-character ERROR token yields a state that satisfies `Inv` after `i + 1` |
| Lab1Lexer.ReadLetterKeepsInv | src/main/java/edu/kpi/lab/lab1/model/LexicalAnalyzer.java:66-74 | given a state that satisfies `Inv` after `i` characters and a letter at `i`, the state the letter step yields satisfies `Inv` after `i + 1` |
| Lab1Lexer.LetterAfterNumberKeepsInv | src/main/java/edu/kpi/lab/lab1/model/LexicalAnalyzer.java:72-74 | given a state that satisfies `Inv` after `i` characters and a letter read while an INTEGER or DECIMAL is pending, emitting it as a one-character ERROR token yields a state that satisfies `Inv` after `i + 1` |
| Lab1Lexer.NameAsFunction | src/main/java/edu/kpi/lab/lab1/model/LexicalAnalyzer.java:23-24 | a name retagged FUNCTION keeps a function name's shape |
| Lab1Lexer.MultiCharFollowsOneChar | src/main/java/edu/kpi/lab/lab1/model/LexicalAnalyzer.java:44-77 | a number or a name may follow any one-character token |
| Lab1Lexer.LexedAt | src/main/java/edu/kpi/lab/lab1/model/LexicalAnalyzer.java:20-94 | every token of a lexed query is a well-formed successor of the tokens before it |
| Lab1Lexer.DigitKind | src/main/java/edu/kpi/lab/lab1/model/LexicalAnalyzer.java:57-65 | in a lexed list a token starting with a digit is an INTEGER, a DECIMAL or an ERROR, and it is an ERROR exactly when the token before it is a CONSTANT |
| Lab1Lexer.LetterKind | src/main/java/edu/kpi/lab/lab1/model/LexicalAnalyzer.java:66-74 | in a lexed list a token starting with a letter is a CONSTANT, a FUNCTION or an ERROR, and it is an ERROR exactly when the token before it is an INTEGER or a DECIMAL |
| Lab1Lexer.MisreadNumbersAreNotLexed | src/main/java/edu/kpi/lab/lab1/model/LexicalAnalyzer.java:57-65 | `1+2` read with the `2` as an ERROR, and `12` read as two ERROR tokens, are not lexed token lists |
| Lab1Lexer.Step | src/main/java/edu/kpi/lab/lab1/model/LexicalAnalyzer.java:20-77 | one turn of the character loop; no contract of its own: `StepKeepsInv` proves every turn keeps the loop invariant and `RunFromStep` that each loop turn is one `Step`; positions count Unicode scalar values, not UTF-16 units (see Left out) |
| Lab1Lexer.Lex | src/main/java/edu/kpi/lab/lab1/model/LexicalAnalyzer.java:10-84 | the lexer's result; no contract of its own: `LexSucceeds` proves it refuses exactly the blank sentences and otherwise yields `Lexed` tokens that join to the input, and `DigitKind` and `LetterKind` pin the kinds of numbers, names and errors; positions count Unicode scalar values, not UTF-16 units (see Left out) |
| Lab1Syntax.CategoryOf | src/main/java/edu/kpi/lab/lab1/model/SyntaxAnalyzer.java:113-136 | INTEGER, DECIMAL and CONSTANT are operands, FUNCTION is a function, ERROR maps to the ERROR category, and no token is START or FINISH |
| Lab1Syntax.AllowedAfter | src/main/java/edu/kpi/lab/lab1/model/SyntaxAnalyzer.java:37-53 | the transition table: nothing may follow anything as ERROR; a query may not start with a product operator or a closing bracket; after an operator only an operand, a function or an opening bracket; after a function only its opening bracket |
| Lab1Syntax.ErrorAllowsAllButError | src/main/java/edu/kpi/lab/lab1/model/SyntaxAnalyzer.java:53 | after a token retagged ERROR every category except ERROR is allowed |
| Lab1Syntax.Place | src/main/java/edu/kpi/lab/lab1/model/SyntaxAnalyzer.java:99-104 | a token the table does not allow is retagged ERROR and one error over its start and end is recorded; an allowed token changes nothing |
| Lab1Syntax.ValidateToken | src/main/java/edu/kpi/lab/lab1/model/SyntaxAnalyzer.java:81-111 | the scan stops exactly on a closing bracket whose kind differs from the innermost open one, naming which kind; an opening bracket is pushed and a closing one pops; the token is retagged ERROR, with one error over its span, exactly when it closes with nothing open or is not allowed after its predecessor |
| Lab1Syntax.PrevCategory | src/main/java/edu/kpi/lab/lab1/model/SyntaxAnalyzer.java:60-64 | the category a token is checked against is never FINISH, so the transition table always has a row for it |
| Lab1Syntax.Conclude | src/main/java/edu/kpi/lab/lab1/model/SyntaxAnalyzer.java:67-73 | the scan's errors are kept in front; after them, a "cannot be finished" error at the last token's end is added exactly when its category may not finish a query, and an "unclosed brackets" error at that end exactly when a bracket is still open; nothing else is added, each at most once, the first before the second; so no error is added exactly when the last token may finish and no bracket is open |
| Lab1Syntax.ProcessTokenQuery | src/main/java/edu/kpi/lab/lab1/model/SyntaxAnalyzer.java:56-73 | the loop over the token array computes `Validate`: the array ends as the retagged token list, and the result is the list of errors or the failure that stopped the scan; an empty list fails |
| Lab1Syntax.Validate | src/main/java/edu/kpi/lab/lab1/model/SyntaxAnalyzer.java:56-73 | the whole check of a token list; no contract of its own: `ProcessTokenQuery` computes it, `ErrorCountBound` bounds its errors, `RetagsOnlyToError` shows it only retags tokens ERROR, and `LexedNeverMismatches` that it never stops on what the lexer produced |
| Lab1Syntax.RunShape | src/main/java/edu/kpi/lab/lab1/model/SyntaxAnalyzer.java:62-111 | a scan keeps the tokens already checked, leaves each later token as it was or retagged ERROR, keeps the errors recorded before it and adds at most one per token |
| Lab1Syntax.StepShape | src/main/java/edu/kpi/lab/lab1/model/SyntaxAnalyzer.java:81-111 | one token check changes at most the token's kind, only to ERROR, and appends at most one error |
| Lab1Syntax.ErrorCountBound | src/main/java/edu/kpi/lab/lab1/model/SyntaxAnalyzer.java:56-111 | a finished scan reports at most two more errors than there are tokens |
| Lab1Syntax.RetagsOnlyToError | src/main/java/edu/kpi/lab/lab1/model/SyntaxAnalyzer.java:102-108 | the token list keeps its length, and each token stays as it was or is the same token retagged ERROR |
| Lab1Syntax.FirstTokenCheckedAgainstStart | src/main/java/edu/kpi/lab/lab1/model/SyntaxAnalyzer.java:37-60 | a first token that may not start a query (such as `*` in `*2+3` or `)` in `)+5*3`) is retagged ERROR and is the first error reported |
| Lab1Syntax.OpenStackHoldsOpeners | src/main/java/edu/kpi/lab/lab1/model/SyntaxAnalyzer.java:85-97 | the first lexer's bracket stack only ever holds opening brackets |
| Lab1Syntax.StepMirrorsLexer | src/main/java/edu/kpi/lab/lab1/model/SyntaxAnalyzer.java:85-97 | while the validator's stack mirrors the lexer's, a closing bracket the lexer produced passes the kind check, and the stacks still mirror each other afterwards |
| Lab1Syntax.NoMismatchFrom | src/main/java/edu/kpi/lab/lab1/model/SyntaxAnalyzer.java:62-97 | from any position on, lexer-shaped tokens never stop the scan |
| Lab1Syntax.LexedNeverMismatches | src/main/java/edu/kpi/lab/lab1/model/SyntaxAnalyzer.java:87-97 | for every sentence the first lexer accepts, validating its tokens never raises the bracket-kind exception |
| SyntaxValidation.CategoryOf | src/main/java/edu/kpi/lab/model/syntax/SyntaxValidator.java:131-158 | a kind is in `operandTypes` exactly when its category is OPERAND or FUNCTION; FUNCTION maps to FUNCTION, ERROR to ERROR, and nothing to START or FINISH |
| SyntaxValidation.AllowedAfter | src/main/java/edu/kpi/lab/model/syntax/SyntaxValidator.java:34-58 | nothing may follow anything as ERROR; after any operator only an operand, a function or an opening bracket may follow; after a function only its opening bracket |
| SyntaxValidation.ErrorAllowsAllButError | src/main/java/edu/kpi/lab/model/syntax/SyntaxValidator.java:56-57 | after a token retagged ERROR every category except ERROR is allowed |
| SyntaxValidation.Place | src/main/java/edu/kpi/lab/model/syntax/SyntaxValidator.java:112-122 | an INTEGER "0" right after a division records "Divide by zero" at its end position; a token the table does not allow is then retagged ERROR with one error over its span |
| SyntaxValidation.ValidateToken | src/main/java/edu/kpi/lab/model/syntax/SyntaxValidator.java:93-129 | the scan stops exactly on a closing bracket whose kind differs from the innermost open one; brackets push and pop; the errors grow by the zero-divisor error and by the "unexpected" error exactly when those apply; the token is retagged ERROR exactly when it is out of place |
| SyntaxValidation.PrevCategory | src/main/java/edu/kpi/lab/model/syntax/SyntaxValidator.java:64-69 | the category a token is checked against is never FINISH, so the transition table always has a row for it |
| SyntaxValidation.Conclude | src/main/java/edu/kpi/lab/model/syntax/SyntaxValidator.java:71-90 | the query is reported valid exactly when no error was recorded; the scan's errors are kept in front; after them, a "cannot be finished" error at the last token's end is added exactly when its category may not finish a query, and an "unclosed brackets" error at that end exactly when a bracket is still open; nothing else is added, each at most once, the first before the second |
| SyntaxValidation.ValidateTokenQuery | src/main/java/edu/kpi/lab/model/syntax/SyntaxValidator.java:60-91 | the loop over the token array computes `Validate`: the array ends as the retagged list, and the report says valid exactly when it holds no error; a token without a kind, or an integer without text, stops the loop with `MissingTokenType` or `MissingValue`, where the Java code throws a `NullPointerException` |
| SyntaxValidation.Validate | src/main/java/edu/kpi/lab/model/syntax/SyntaxValidator.java:60-91 | the whole check of a token list; no contract of its own: `ValidateTokenQuery` computes it, `ErrorCountBound` bounds its errors, `RetagsOnlyToError` shows it only retags tokens ERROR, and `ValidIffClean` that the report is valid with no errors exactly for a clean list of readable tokens, which it leaves unchanged, and `UnreadableQueryFails` that a token it cannot read makes it fail |
| SyntaxValidation.RunShape | src/main/java/edu/kpi/lab/model/syntax/SyntaxValidator.java:66-129 | a scan keeps the tokens already checked, leaves each later token as it was or retagged ERROR, keeps earlier errors and adds at most one per token |
| SyntaxValidation.StepShape | src/main/java/edu/kpi/lab/model/syntax/SyntaxValidator.java:93-129 | one token check retags at most to ERROR and appends at most one error, because a literal zero after a division is always in its place |
| SyntaxValidation.ErrorCountBound | src/main/java/edu/kpi/lab/model/syntax/SyntaxValidator.java:60-129 | a report holds at most two more errors than there are tokens |
| SyntaxValidation.RetagsOnlyToError | src/main/java/edu/kpi/lab/model/syntax/SyntaxValidator.java:120-126 | validation changes no position and no text, and a kind only to ERROR |
| SyntaxValidation.StepClean | src/main/java/edu/kpi/lab/model/syntax/SyntaxValidator.java:93-129 | from a scan with no errors, one token records nothing exactly when it is allowed after its predecessor, is not a zero divisor, and its bracket pairs up; it is then left as it was |
| SyntaxValidation.CleanFrom | src/main/java/edu/kpi/lab/model/syntax/SyntaxValidator.java:66-69 | from any position, a scan that has recorded nothing goes on recording nothing exactly when every later token fits and the brackets pair up |
| SyntaxValidation.ValidIffClean | src/main/java/edu/kpi/lab/model/syntax/SyntaxValidator.java:60-91 | `validateTokenQuery` returns true, with no errors, exactly when every token has a kind (and every integer a text) and the query is clean (non-empty, every token allowed, no zero divisor, a proper last token, brackets paired by kind); a clean query is left unchanged |
| Lab1Syntax.ValidateRest | src/main/java/edu/kpi/lab/lab1/model/SyntaxAnalyzer.java:62-65 | scanning the rest of the list after the checked prefix yields one token per token, none lost or added |
| Lab1Syntax.RestStep | src/main/java/edu/kpi/lab/lab1/model/SyntaxAnalyzer.java:62-65 | a scan over a non-empty rest is the check of its first token followed by the scan of the others, and stops at a failing check |
| SyntaxValidation.ValidateRest | src/main/java/edu/kpi/lab/model/syntax/SyntaxValidator.java:66-69 | scanning the rest after the checked prefix yields one token per token, none lost or added; it succeeds only when every token of the rest has a kind (and every integer a text), and stops at the first that does not |
| SyntaxValidation.UnreadableQueryFails | src/main/java/edu/kpi/lab/model/syntax/SyntaxValidator.java:93-133 | a query holding a token without a kind, or an integer without text, always ends in a failure; when no earlier token is a closing bracket the failure is exactly `MissingTokenType` or `MissingValue` for that token |
| SyntaxValidation.RestStep | src/main/java/edu/kpi/lab/model/syntax/SyntaxValidator.java:66-69 | a scan over a non-empty rest is the check of its first token followed by the scan of the others, and stops at a failing check |
| SyntaxValidation.DirtyStep | src/main/java/edu/kpi/lab/model/syntax/SyntaxValidator.java:93-129 | a token that is out of place, divides by zero or closes the wrong bracket makes the rest of the scan unclean |
| SyntaxTree.Height | src/main/java/edu/kpi/lab/model/syntax/tree/Function.java:51-67 | the height is 0 exactly for a missing node and 1 for an operand |
| SyntaxTree.LevelCountBounds | src/main/java/edu/kpi/lab/model/syntax/tree/Function.java:51-91 | a level holds a node exactly when it lies above the height, and no level holds more nodes than the tree |
| SyntaxTree.CountNodesAtLevel | src/main/java/edu/kpi/lab/model/syntax/tree/Function.java:80-91 | the recursive count adds, for every depth at or below `level`, the number of nodes at that depth; shallower counts are untouched, and the keys gained are exactly the levels the tree reaches |
| SyntaxTree.MaxCount | src/main/java/edu/kpi/lab/model/syntax/tree/Function.java:77 | the result is at least every count in the map and equal to one of them, or 0 for an empty map |
| SyntaxTree.GetMaxWidth | src/main/java/edu/kpi/lab/model/syntax/tree/Function.java:69-78 | the width is 0 for a missing tree; otherwise it is the largest number of nodes on one level, reached on a level above the height, and lies between 1 and the node count |
| SyntaxAnalysis.PairRound | src/main/java/edu/kpi/lab/model/syntax/SyntaxAnalyzer.java:173-187 | one round turns `k` nodes into `ceil(k/2)` |
| SyntaxAnalysis.PairUp | src/main/java/edu/kpi/lab/model/syntax/SyntaxAnalyzer.java:171-187 | the inner queue loop computes one `PairRound`: neighbours paired in order, an odd last node carried over |
| SyntaxAnalysis.BuildPerfectBalancedTree | src/main/java/edu/kpi/lab/model/syntax/SyntaxAnalyzer.java:163-193 | the outer queue loop computes `Reduce`: rounds repeat until one node is left |
| SyntaxAnalysis.PairRoundKeeps | src/main/java/edu/kpi/lab/model/syntax/SyntaxAnalyzer.java:173-187 | a round keeps the leaves in order, adds one node per pair, each carrying the operator, and grows the tallest tree by at most one level |
| SyntaxAnalysis.ReduceKeeps | src/main/java/edu/kpi/lab/model/syntax/SyntaxAnalyzer.java:163-193 | the reduced tree keeps the leaves in order, makes exactly `n - 1` new nodes for `n` trees, all carrying the operator, and is at most `ceil(log2 n)` levels taller than the tallest input tree |
| SyntaxAnalysis.RoundsIsCeilLog | src/main/java/edu/kpi/lab/model/syntax/SyntaxAnalyzer.java:170-190 | the number of rounds is the least `k` with `2^k >= n` |
| SyntaxAnalysis.LeavesBound | src/main/java/edu/kpi/lab/model/syntax/tree/Function.java:51-67 | a tree of height `h` has at most `2^(h-1)` leaves |
| SyntaxAnalysis.ReduceHeight | src/main/java/edu/kpi/lab/model/syntax/SyntaxAnalyzer.java:170-190 | when the first tree is the tallest, the rounds add exactly `ceil(log2 n)` levels |
| SyntaxAnalysis.BalancedIsShallowest | src/main/java/edu/kpi/lab/model/syntax/SyntaxAnalyzer.java:163-193 | a row of `n` operands becomes a tree of height `1 + ceil(log2 n)`, and no tree with `n` leaves is lower |
| SyntaxAnalysis.FoldFrom | src/main/java/edu/kpi/lab/model/syntax/SyntaxAnalyzer.java:138-153 | the fold always leaves a non-empty row |
| SyntaxAnalysis.FoldEnd | src/main/java/edu/kpi/lab/model/syntax/SyntaxAnalyzer.java:138-153 | after all operators the row holds the read operands' leaves in order, one new node per `*` or `/`, one tree more than the `+`/`-` operators set aside, and those operators in order |
| SyntaxAnalysis.FoldHighStep | src/main/java/edu/kpi/lab/model/syntax/SyntaxAnalyzer.java:142-148 | `*` or `/` replaces the last row entry by an operation over it and the next operand |
| SyntaxAnalysis.FoldLowStep | src/main/java/edu/kpi/lab/model/syntax/SyntaxAnalyzer.java:149-152 | `+` or `-` appends its right operand to the row and sets the operator aside |
| SyntaxAnalysis.BalancedParallel | src/main/java/edu/kpi/lab/model/syntax/SyntaxAnalyzer.java:128-161 | a level without operators fails with "No operators", and one with too few operands for its operators fails |
| SyntaxAnalysis.BalancedParallelShape | src/main/java/edu/kpi/lab/model/syntax/SyntaxAnalyzer.java:128-193 | a built tree is an operation node whose leaves are the first operators-plus-one operands, in order (any further operand is dropped), with one operation node per operator, carrying the `*`/`/` operators and only the first `+`/`-` operator |
| SyntaxAnalysis.LowOpsEmpty | src/main/java/edu/kpi/lab/model/syntax/SyntaxAnalyzer.java:155-157 | with no `+`/`-` operator the single folded node is a `*`/`/` operation, so the cast to an operation node is safe |
| SyntaxAnalysis.BuildBalancedParallelTree | src/main/java/edu/kpi/lab/model/syntax/SyntaxAnalyzer.java:128-161 | the loop and the queue reduction compute `BalancedParallel` |
| SyntaxAnalysis.FirstLowOperatorRules | src/main/java/edu/kpi/lab/model/syntax/SyntaxAnalyzer.java:159-178 | example, one fixed shape of operands: every node of a `+`/`-` run carries the run's first operator: `a-b+c` is built as `(a-b)-c` |
| SyntaxAnalysis.ClosedGroupBecomesOperand | src/main/java/edu/kpi/lab/model/syntax/SyntaxAnalyzer.java:106-131 | a closing bracket over a level with operands fails with "No operators" when the level has none; otherwise the level's tree becomes one more operand of the saved outer level, whose operators are kept |
| SyntaxAnalysis.ParseTokensToList | src/main/java/edu/kpi/lab/model/syntax/SyntaxAnalyzer.java:82-126 | the loop with its stack of saved levels computes `Parse`, failing with `MissingTokenType` at a token without a kind, where `getTokenSyntaxType` throws a `NullPointerException` |
| SyntaxAnalysis.ReadOnlyKinded | src/main/java/edu/kpi/lab/model/syntax/SyntaxAnalyzer.java:91-92 | reading succeeds only when every token has a kind, and a first token without one fails with `MissingTokenType` |
| SyntaxAnalysis.SyntaxTreeOf | src/main/java/edu/kpi/lab/model/syntax/SyntaxAnalyzer.java:65-80 | no operands fails with "No operands found", one operand with "Single operand cannot form expression tree"; a built tree comes from at least two operands |
| SyntaxAnalysis.BuildSyntaxTree | src/main/java/edu/kpi/lab/model/syntax/SyntaxAnalyzer.java:65-80 | the method computes `SyntaxTreeOf` |
| SyntaxAnalysis.OperandLeavesNumbered | src/main/java/edu/kpi/lab/model/syntax/SyntaxAnalyzer.java:95-97 | the `k`-th operand leaf is an operand numbered `pos + k` |
| SyntaxAnalysis.FlatParseFrom | src/main/java/edu/kpi/lab/model/syntax/SyntaxAnalyzer.java:91-122 | without brackets every operand token becomes a numbered leaf and every operator is noted, in order, and reading never fails |
| SyntaxAnalysis.FlatQueryTree | src/main/java/edu/kpi/lab/model/syntax/SyntaxAnalyzer.java:65-193 | a bracket-free query's tree has as leaves the operands numbered 0, 1, ... in query order, there are fewer operators than operands, and the tree has `2k+1` nodes for `k` operators |
| SyntaxAnalysis.ProcessTokenQuery | src/main/java/edu/kpi/lab/model/syntax/SyntaxAnalyzer.java:255-275 | the analyzer's copy of the validator retags the tokens exactly as `SyntaxValidator` does and reports the same errors or the same failure, including the failures on a token without a kind or an integer without text |
| SyntaxAnalysis.PairRoundHeight | src/main/java/edu/kpi/lab/model/syntax/SyntaxAnalyzer.java:173-187 | when the first node is among the tallest, one round adds exactly one level and keeps the first node among the tallest |
| SyntaxAnalysis.NoFewerRounds | src/main/java/edu/kpi/lab/model/syntax/SyntaxAnalyzer.java:170-190 | a tree of height `h` holding `n` leaves needs `h >= 1 + ceil(log2 n)` |
| AssociativeExpr.BinaryParenthesisedIff | src/main/java/edu/kpi/lab/model/transform/associative/node/BinaryExpr.java:21-59 | plus and minus bind at 1, times and divide at 2, and a binary node is wrapped in parentheses exactly when its parent binds at least as strongly |
| AssociativeExpr.UnaryParenthesisedIff | src/main/java/edu/kpi/lab/model/transform/associative/node/UnaryExpr.java:19-35 | a negation prints as `-` and a reciprocal as `1/` before an operand printed at precedence 3, wrapped exactly under a parent of precedence 3 or more |
| AssociativeExpr.AtomsNeverParenthesised | src/main/java/edu/kpi/lab/model/transform/associative/node/FunctionExpr.java:19-22 | literals print their text and calls print `name(arg)`, a missing text or name printing as `null` as Java string concatenation does; they are never wrapped, and the argument is printed as at the top |
| AssociativeExpr.GroupingsPrintDifferently | src/main/java/edu/kpi/lab/model/transform/associative/node/BinaryExpr.java:31-59 | example, one fixed shape of operands: `(a+b)+c` and `a+(b+c)` print differently, so regrouped sums stay distinct forms |
| AssociativeExpr.PrintedBalanced | src/main/java/edu/kpi/lab/model/transform/associative/node/BinaryExpr.java:31-59 | in every context the printed form of an expression whose texts hold no parentheses is well parenthesised |
| AssociativeExpr.ToStr | src/main/java/edu/kpi/lab/model/transform/associative/node/BinaryExpr.java:31-59 | the printer given the parent's binding strength; no contract of its own: `BinaryParenthesisedIff` proves when a binary node is wrapped, `AtomsNeverParenthesised` that atoms never are, and `PrintedBalanced` that the output is well parenthesised |
| AssociativeExpr.BinaryBodyBalanced | src/main/java/edu/kpi/lab/model/transform/associative/node/BinaryExpr.java:34-54 | the text of a binary node inside its own parentheses is well parenthesised, including a sum printed as a subtraction and a product printed as a division |
| AssociativeExpr.CopiesPrintAlike | src/main/java/edu/kpi/lab/model/transform/associative/node/BinaryExpression.java:31-59 | the second node hierarchy prints every expression exactly as the first prints the same shape |
| AssociativeExpr.BodiesPrintAlike | src/main/java/edu/kpi/lab/model/transform/associative/node/BinaryExpression.java:33-54 | the copied binary printer's body matches the original's |
| AssociativeParser.PeekAt | src/main/java/edu/kpi/lab/model/transform/associative/node/Parser.java:77-82 | past the end the parser sees an Error token; before it, the token at the cursor |
| AssociativeParser.ExpressionFrom | src/main/java/edu/kpi/lab/model/transform/associative/node/Parser.java:19-31 | a successful read consumes at least one token and stays within the list; a token that starts no factor fails with `NoFactor`, an operator token without text with `MissingOperator` (see `ValuedExpression`) |
| AssociativeParser.ExpressionLoop | src/main/java/edu/kpi/lab/model/transform/associative/node/Parser.java:21-29 | the plus/minus loop never moves the cursor back or past the end; it fails with `MissingOperator` on an operator token without text, whose `null` the Java enumerator later dereferences |
| AssociativeParser.TermFrom | src/main/java/edu/kpi/lab/model/transform/associative/node/Parser.java:33-45 | a term consumes at least one token and stays within the list, failing as `ExpressionFrom` does |
| AssociativeParser.TermLoop | src/main/java/edu/kpi/lab/model/transform/associative/node/Parser.java:35-43 | the times/divide loop never moves the cursor back or past the end; it fails with `MissingOperator` on an operator token without text |
| AssociativeParser.FactorFrom | src/main/java/edu/kpi/lab/model/transform/associative/node/Parser.java:47-75 | a factor consumes at least one token and stays within the list; a literal or function name without text is kept as a missing text, and a token that starts no factor fails with `NoFactor` |
| AssociativeParser.TermLoopStops | src/main/java/edu/kpi/lab/model/transform/associative/node/Parser.java:35-43 | the product loop only stops at a token that does not continue a product |
| AssociativeParser.ExpressionLoopStops | src/main/java/edu/kpi/lab/model/transform/associative/node/Parser.java:21-29 | the sum loop only stops at a token that continues neither a sum nor a product |
| AssociativeParser.ExpressionStops | src/main/java/edu/kpi/lab/model/transform/associative/node/Parser.java:19-45 | a read expression ends at the end of the list or at a token that is neither plus, minus, times nor divide |
| AssociativeParser.ValuedExpression | src/main/java/edu/kpi/lab/model/transform/associative/node/Parser.java:19-31 | for every token list, a read fails with `MissingOperator` only if some operator token lacks its text, and when every literal token has its text the tree read holds no literal without text |
| AssociativeParser.ValuedExpressionLoop | src/main/java/edu/kpi/lab/model/transform/associative/node/Parser.java:21-29 | the same for the plus/minus loop, given a chain so far whose literals have their texts |
| AssociativeParser.ValuedTerm | src/main/java/edu/kpi/lab/model/transform/associative/node/Parser.java:33-45 | the same for a term |
| AssociativeParser.ValuedTermLoop | src/main/java/edu/kpi/lab/model/transform/associative/node/Parser.java:35-43 | the same for the times/divide loop |
| AssociativeParser.ValuedFactor | src/main/java/edu/kpi/lab/model/transform/associative/node/Parser.java:47-75 | the same for a factor |
| AssociativeParser.NullOperatorFails | src/main/java/edu/kpi/lab/model/transform/associative/node/Parser.java:19-31 | example, one fixed shape of operands: `a + b` whose plus has no text fails with `MissingOperator` |
| AssociativeParser.LeftAssociative | src/main/java/edu/kpi/lab/model/transform/associative/node/Parser.java:19-31 | example, one fixed shape of operands: `a-b-c` is read as `(a-b)-c` |
| AssociativeParser.ProductsBindTighter | src/main/java/edu/kpi/lab/model/transform/associative/node/Parser.java:19-45 | example, one fixed shape of operands: `a+b*c` is read as `a+(b*c)` |
| AssociativeParser.NegationNests | src/main/java/edu/kpi/lab/model/transform/associative/node/Parser.java:48-51 | example, one fixed shape of operands: `--a` is read as a negation of a negation |
| AssociativeParser.BracketsAreOptional | src/main/java/edu/kpi/lab/model/transform/associative/node/Parser.java:52-68 | example, one fixed shape of operands: a function name directly followed by its argument is a call, and an unclosed bracket ends at the end of the list |
| AssociativeParser.Parser.constructor | src/main/java/edu/kpi/lab/model/transform/associative/node/Parser.java:11-13 | the parser starts at the first token |
| AssociativeParser.Parser.Advance | src/main/java/edu/kpi/lab/model/transform/associative/node/Parser.java:84-86 | advancing moves the cursor by one |
| AssociativeParser.Parser.Parse | src/main/java/edu/kpi/lab/model/transform/associative/node/Parser.java:15-17 | parsing succeeds exactly when `ExpressionFrom` does, returning its tree and leaving the cursor after it, and otherwise fails with the same failure |
| AssociativeParser.Parser.ParseExpression | src/main/java/edu/kpi/lab/model/transform/associative/node/Parser.java:19-31 | the method reads exactly what `ExpressionFrom` reads, and fails exactly when it does, with the same failure |
| AssociativeParser.Parser.ParseTerm | src/main/java/edu/kpi/lab/model/transform/associative/node/Parser.java:33-45 | the method reads exactly what `TermFrom` reads, and fails exactly when it does, with the same failure |
| AssociativeParser.Parser.ParseFactor | src/main/java/edu/kpi/lab/model/transform/associative/node/Parser.java:47-75 | the method reads exactly what `FactorFrom` reads; a token that starts no factor is a `NoFactor` failure |
| AssociativeTransform.SumAppend | src/main/java/edu/kpi/lab/model/transform/associative/AssociativeTransformer.java:185-204 | sums and products split over concatenation |
| AssociativeTransform.FlattenAddFrom | src/main/java/edu/kpi/lab/model/transform/associative/AssociativeTransformer.java:191-204 | a sum always has at least one term |
| AssociativeTransform.FlattenMulFrom | src/main/java/edu/kpi/lab/model/transform/associative/AssociativeTransformer.java:212-225 | a product always has at least one factor |
| AssociativeTransform.FlattenAddKeepsValue | src/main/java/edu/kpi/lab/model/transform/associative/AssociativeTransformer.java:185-204 | the flattened terms add up to the expression, negated under an odd number of subtracted sides |
| AssociativeTransform.FlattenMulKeepsValue | src/main/java/edu/kpi/lab/model/transform/associative/AssociativeTransformer.java:206-225 | the flattened factors multiply to the expression, inverted under an odd number of divisor sides |
| AssociativeTransform.FlattenedPartsAreMaximal | src/main/java/edu/kpi/lab/model/transform/associative/AssociativeTransformer.java:191-225 | no flattened term is a sum or difference and no flattened factor a product or quotient |
| AssociativeTransform.AddChainValue | src/main/java/edu/kpi/lab/model/transform/associative/AssociativeTransformer.java:153-167 | the rebuilt left-leaning sum is worth the sum of its terms, a negated term subtracted, 0 for none |
| AssociativeTransform.MulChainValue | src/main/java/edu/kpi/lab/model/transform/associative/AssociativeTransformer.java:169-183 | the rebuilt left-leaning product is worth the product of its factors, a reciprocal divided, 1 for none |
| AssociativeTransform.BuildAdd | src/main/java/edu/kpi/lab/model/transform/associative/AssociativeTransformer.java:153-167 | the loop computes `AddChain` |
| AssociativeTransform.BuildMul | src/main/java/edu/kpi/lab/model/transform/associative/AssociativeTransformer.java:169-183 | the loop computes `MulChain` |
| AssociativeTransform.IndexOf | src/main/java/edu/kpi/lab/model/transform/associative/AssociativeTransformer.java:135-141 | the first position holding the factor, and none exactly when the factor is absent |
| AssociativeTransform.FindFactor | src/main/java/edu/kpi/lab/model/transform/associative/AssociativeTransformer.java:134-144 | the search loop returns the first matching position, -1 exactly when there is none |
| AssociativeTransform.Divide | src/main/java/edu/kpi/lab/model/transform/associative/AssociativeTransformer.java:128-151 | the method computes `Quotient`: no result when the divisor is not a factor |
| AssociativeTransform.QuotientValue | src/main/java/edu/kpi/lab/model/transform/associative/AssociativeTransformer.java:128-151 | a term having the divisor as a factor has a quotient, and the term is worth the divisor times the quotient |
| AssociativeTransform.Cross | src/main/java/edu/kpi/lab/model/transform/associative/AssociativeTransformer.java:47-53 | every left variant is joined to every right variant, left-major, `|lefts| * |rights|` trees |
| AssociativeTransform.GroupingCount | src/main/java/edu/kpi/lab/model/transform/associative/AssociativeTransformer.java:227-243 | `n` items have `Catalan(n-1)` groupings |
| AssociativeTransform.GroupingsKeepOrder | src/main/java/edu/kpi/lab/model/transform/associative/AssociativeTransformer.java:227-243 | every grouping has the items as its leaves, in order |
| AssociativeTransform.GroupingsKeepValue | src/main/java/edu/kpi/lab/model/transform/associative/AssociativeTransformer.java:55-70 | every grouping of a sum is worth the sum and every grouping of a product the product |
| AssociativeTransform.FringeValue | src/main/java/edu/kpi/lab/model/transform/associative/AssociativeTransformer.java:227-243 | a tree is worth the sum of its plus-chain leaves and the product of its times-chain leaves |
| AssociativeTransform.ThreeItemGroupings | src/main/java/edu/kpi/lab/model/transform/associative/AssociativeTransformer.java:227-243 | example, one fixed shape of operands: three items have exactly the two groupings `a op (b op c)` and `(a op b) op c`, in that order |
| AssociativeTransform.Group | src/main/java/edu/kpi/lab/model/transform/associative/AssociativeTransformer.java:80-90 | every recorded position names a term having the factor |
| AssociativeTransform.GroupCounts | src/main/java/edu/kpi/lab/model/transform/associative/AssociativeTransformer.java:80-90 | each position appears in a factor's list as often as the recording rule records it: once per occurrence as written, once per term as corrected |
| AssociativeTransform.Candidates | src/main/java/edu/kpi/lab/model/transform/associative/AssociativeTransformer.java:80-90 | the map's keys are exactly the factors of the terms |
| AssociativeTransform.QuotientOf | src/main/java/edu/kpi/lab/model/transform/associative/AssociativeTransformer.java:111-116 | a term's quotient by one of its factors always exists |
| AssociativeTransform.PerTermMembers | src/main/java/edu/kpi/lab/model/transform/associative/AssociativeTransformer.java:103-109 | with one entry per term, a term is set aside exactly when it has the factor |
| AssociativeTransform.UnlistedIsFilter | src/main/java/edu/kpi/lab/model/transform/associative/AssociativeTransformer.java:103-109 | the remaining terms are exactly those without the factor, in order |
| AssociativeTransform.QuotientsAtShared | src/main/java/edu/kpi/lab/model/transform/associative/AssociativeTransformer.java:111-116 | the quotients are those of the terms having the factor, in order |
| AssociativeTransform.SharedSplit | src/main/java/edu/kpi/lab/model/transform/associative/AssociativeTransformer.java:103-122 | a sum is the terms without the factor plus the factor times the quotients |
| AssociativeTransform.FactoredVariantValue | src/main/java/edu/kpi/lab/model/transform/associative/AssociativeTransformer.java:92-125 | taking out a factor recorded once per term keeps the value of the sum |
| AssociativeTransform.FactoredShape | src/main/java/edu/kpi/lab/model/transform/associative/AssociativeTransformer.java:103-122 | the variant is the chain of the other terms followed by the factor times the chain of quotients |
| AssociativeTransform.ChainGroupings | src/main/java/edu/kpi/lab/model/transform/associative/AssociativeTransformer.java:56-69 | a chain of at most two items adds no groupings |
| AssociativeTransform.OwnFormIncluded | src/main/java/edu/kpi/lab/model/transform/associative/AssociativeTransformer.java:32-73 | every expression is among its own variants |
| AssociativeTransform.EquivalentsKeepValue | src/main/java/edu/kpi/lab/model/transform/associative/AssociativeTransformer.java:32-73 | every variant has the value of the expression it came from, in every algebra obeying the laws |
| AssociativeTransform.AllEquivalent | src/main/java/edu/kpi/lab/model/transform/associative/AssociativeTransformer.java:32-73 | the set of variants; no contract of its own: `OwnFormIncluded` proves the expression is among them, `FactoredIncluded` that each factored variant is, and `EquivalentsKeepValue` that under the per-term grouping each keeps the value |
| AssociativeTransform.Eval | src/main/java/edu/kpi/lab/model/transform/associative/AssociativeTransformer.java:32-73 | the arithmetic meaning of an expression in an algebra, which the Java code never computes; no contract of its own: it is the reference that `EquivalentsKeepValue` and `RepeatedFactorChangesValue` compare variants against |
| AssociativeTransform.ChainVariantsKeepValue | src/main/java/edu/kpi/lab/model/transform/associative/AssociativeTransformer.java:54-70 | the groupings and factored variants of a chain have its value |
| AssociativeTransform.FactoredIncluded | src/main/java/edu/kpi/lab/model/transform/associative/AssociativeTransformer.java:61-62 | each factored variant of a sum is among its variants |
| AssociativeTransform.RepeatedFactorChangesValue | src/main/java/edu/kpi/lab/model/transform/associative/AssociativeTransformer.java:80-90 | as written, `a*a+c` yields the variant `c+a*(a+a)`, worth 2 where the input is worth 1 |
| AssociativeTransform.SharedFactorExample | src/main/java/edu/kpi/lab/model/transform/associative/AssociativeTransformer.java:75-125 | example, one fixed shape of operands: `a*b+a*c` has the variant `a*(b+c)` |
| AssociativeTransform.EquivalentForms | src/main/java/edu/kpi/lab/model/transform/associative/AssociativeTransformer.java:21-30 | fails with `NullOperator` exactly when the parse met an operator without text (Java compares it with `equals`), fails with `NullFactor` exactly when the parsed tree has a sum sharing a literal factor without text (Java's test for a literal 1), and has no forms when a token starts no factor |
| AssociativeTransform.FormsMeanTheInput | src/main/java/edu/kpi/lab/model/transform/associative/AssociativeTransformer.java:21-30 | when forms are produced for a parsed input, the printed input is among them and every form prints a variant with the input's value |
| AssociativeTransform.GenerateEquivalentExpressions | src/main/java/edu/kpi/lab/model/transform/associative/AssociativeTransformer.java:21-30 | the method computes `EquivalentForms`, failures included, under the grouping rule it is given: `PerOccurrence` is the code as written, `PerTerm` the corrected grouping under which every form keeps the input's value |
| AssociativeTransform.TextedQueryNeverThrows | src/main/java/edu/kpi/lab/model/transform/associative/AssociativeTransformer.java:21-99 | the enumeration throws only on a missing text: for every token list whose operator and literal tokens all carry their texts, it yields a set of forms |
| AssociativeTransform.TextedNeverDereferences | src/main/java/edu/kpi/lab/model/transform/associative/AssociativeTransformer.java:32-101 | an expression whose literals all carry their texts never reaches the literal-1 test with a missing text |
| AssociativeTransform.NullSharedFactorThrows | src/main/java/edu/kpi/lab/model/transform/associative/AssociativeTransformer.java:93-101 | example, one fixed shape of operands: a literal without text added to itself is a shared factor, so the enumeration throws under either recording rule |
| AssociativeTransform.SplitsCount | src/main/java/edu/kpi/lab/model/transform/associative/AssociativeTransformer.java:233-241 | the trees whose root splits after item `i` or later number `SplitCount` |
| AssociativeTransform.SplitsKeepOrder | src/main/java/edu/kpi/lab/model/transform/associative/AssociativeTransformer.java:233-241 | every tree split after item `i` or later keeps the items in order |
| AssociativeTransform.CrossKeepsOrder | src/main/java/edu/kpi/lab/model/transform/associative/AssociativeTransformer.java:236-240 | joining a left and a right tree puts their leaves side by side |
| AssociativeTransform.UnsignedQuotientValue | src/main/java/edu/kpi/lab/model/transform/associative/AssociativeTransformer.java:134-146 | removing the factor at `k` leaves a product that, times that factor, is the original |
| AssociativeTransform.RepeatedFactorVariant | src/main/java/edu/kpi/lab/model/transform/associative/AssociativeTransformer.java:80-124 | as written, `c+a*(a+a)` is among the variants of `a*a+c` |
| AssociativeTransform.SquareGroup | src/main/java/edu/kpi/lab/model/transform/associative/AssociativeTransformer.java:80-90 | as written, the factor `a` of `a*a+c` records term 0 twice |
| CommutativeNode.Weight | src/main/java/edu/kpi/lab/model/transform/commutative/node/Function.java:22-28 | a present node weighs at least 1, a missing one 0 |
| CommutativeNode.Precedence | src/main/java/edu/kpi/lab/model/transform/commutative/node/Function.java:30-36 | plus and minus bind at 1, times and divide at 2, every other category at 100 |
| CommutativeNode.ShapedSides | src/main/java/edu/kpi/lab/model/transform/commutative/node/Function.java:54-102 | an operator's sides are present, shaped and lighter than it, so the printer reaches them safely |
| CommutativeNode.TextBalanced | src/main/java/edu/kpi/lab/model/transform/commutative/node/Function.java:42-113 | in every context, a tree whose texts hold no brackets prints with balanced brackets |
| CommutativeNode.Text | src/main/java/edu/kpi/lab/model/transform/commutative/node/Function.java:42-113 | the printer given the parent's binding strength; no contract of its own: `TextBalanced` proves that a tree whose texts hold no brackets prints with balanced brackets |
| CommutativeNode.Printed | src/main/java/edu/kpi/lab/model/transform/commutative/node/Function.java:45-108 | the printed text of a node and its binding strength; no contract of its own: `PrintedBalanced` proves the text has balanced brackets |
| CommutativeNode.OperatorBalanced | src/main/java/edu/kpi/lab/model/transform/commutative/node/Function.java:54-102 | every operator branch of the printer, short negation and reciprocal forms included, yields balanced brackets |
| CommutativeTransform.OperatorKind | src/main/java/edu/kpi/lab/model/transform/commutative/CommutativeTransformer.java:14-22 | each operator token kind maps to its own operator category and every other kind to Error |
| CommutativeTransform.ExpressionFrom | src/main/java/edu/kpi/lab/model/transform/commutative/CommutativeTransformer.java:24-40 | a successful read consumes at least one token and stays within the list |
| CommutativeTransform.TermFrom | src/main/java/edu/kpi/lab/model/transform/commutative/CommutativeTransformer.java:42-58 | a term consumes at least one token and stays within the list |
| CommutativeTransform.FactorFrom | src/main/java/edu/kpi/lab/model/transform/commutative/CommutativeTransformer.java:60-103 | a factor consumes at least one token and stays within the list |
| CommutativeTransform.ExpressionStep | src/main/java/edu/kpi/lab/model/transform/commutative/CommutativeTransformer.java:26-38 | a plus or minus token joins the next term to the chain on its left, and a failing term fails the expression |
| CommutativeTransform.TermStep | src/main/java/edu/kpi/lab/model/transform/commutative/CommutativeTransformer.java:44-56 | a times or divide token joins the next factor to the chain on its left, and a failing factor fails the term |
| CommutativeTransform.ExpressionExit | src/main/java/edu/kpi/lab/model/transform/commutative/CommutativeTransformer.java:26-31 | the sum loop stops at the end or at any token other than plus or minus |
| CommutativeTransform.TermExit | src/main/java/edu/kpi/lab/model/transform/commutative/CommutativeTransformer.java:44-49 | the product loop stops at the end or at any token other than times or divide |
| CommutativeTransform.CallStep | src/main/java/edu/kpi/lab/model/transform/commutative/CommutativeTransformer.java:69-83 | after the argument a call reports reading past the end, a missing closing bracket, or succeeds past that bracket with a call node over the argument |
| CommutativeTransform.BracketStep | src/main/java/edu/kpi/lab/model/transform/commutative/CommutativeTransformer.java:84-91 | after the inner expression a bracketed factor reports reading past the end, a missing closing bracket, or succeeds past it with the inner tree |
| CommutativeTransform.MinusStep | src/main/java/edu/kpi/lab/model/transform/commutative/CommutativeTransformer.java:92-100 | a minus in factor position yields `0 - factor` and passes on the factor's failure |
| CommutativeTransform.ExpressionShaped | src/main/java/edu/kpi/lab/model/transform/commutative/CommutativeTransformer.java:24-103 | every tree the parser builds is shaped: operators have both sides, calls an argument |
| CommutativeTransform.ParseAll | src/main/java/edu/kpi/lab/model/transform/commutative/CommutativeTransformer.java:105-110 | a parse that consumes every token gives a shaped tree |
| CommutativeTransform.Parser.constructor | src/main/java/edu/kpi/lab/model/transform/commutative/CommutativeTransformer.java:106 | the cursor starts at the first token |
| CommutativeTransform.Parser.ParseExpression | src/main/java/edu/kpi/lab/model/transform/commutative/CommutativeTransformer.java:24-40 | the method reads exactly what `ExpressionFrom` reads and fails as it fails |
| CommutativeTransform.Parser.ParseTerm | src/main/java/edu/kpi/lab/model/transform/commutative/CommutativeTransformer.java:42-58 | the method reads exactly what `TermFrom` reads and fails as it fails |
| CommutativeTransform.Parser.ParseFactor | src/main/java/edu/kpi/lab/model/transform/commutative/CommutativeTransformer.java:60-103 | the method reads exactly what `FactorFrom` reads and fails as it fails |
| CommutativeTransform.Parser.ParseCall | src/main/java/edu/kpi/lab/model/transform/commutative/CommutativeTransformer.java:69-83 | the call branch reads exactly what `FactorFrom` reads from the function token |
| CommutativeTransform.Parser.ParseBracket | src/main/java/edu/kpi/lab/model/transform/commutative/CommutativeTransformer.java:84-91 | the bracket branch reads exactly what `FactorFrom` reads from the opening bracket |
| CommutativeTransform.TextOrder | src/main/java/edu/kpi/lab/model/transform/commutative/CommutativeTransformer.java:117 | the string order is total, antisymmetric and transitive |
| CommutativeTransform.PrecedesTotal | src/main/java/edu/kpi/lab/model/transform/commutative/CommutativeTransformer.java:114 | of any two operands one may precede the other, in both orders |
| CommutativeTransform.SortBy | src/main/java/edu/kpi/lab/model/transform/commutative/CommutativeTransformer.java:141 | sorting is a permutation of the operands |
| CommutativeTransform.SortSorted | src/main/java/edu/kpi/lab/model/transform/commutative/CommutativeTransformer.java:141 | the sorted operands are in order |
| CommutativeTransform.SortSortedIsIdentity | src/main/java/edu/kpi/lab/model/transform/commutative/CommutativeTransformer.java:141 | operands already in order are left where they are |
| CommutativeTransform.Collect | src/main/java/edu/kpi/lab/model/transform/commutative/CommutativeTransformer.java:148-157 | a chain has at least one operand and none of them is itself of the chain's operator |
| CommutativeTransform.Build | src/main/java/edu/kpi/lab/model/transform/commutative/CommutativeTransformer.java:159-173 | no operands give a missing node, two or more a node of the chain's operator |
| CommutativeTransform.CollectBuild | src/main/java/edu/kpi/lab/model/transform/commutative/CommutativeTransformer.java:148-173 | collecting a rebuilt chain gives back the operands in their order |
| CommutativeTransform.BuildDepth | src/main/java/edu/kpi/lab/model/transform/commutative/CommutativeTransformer.java:159-173 | a rebuilt chain of at most `2^k` operands is at most `k` operators deep |
| CommutativeTransform.CollectWeight | src/main/java/edu/kpi/lab/model/transform/commutative/CommutativeTransformer.java:148-157 | a chain of `n` operands has `n - 1` operator nodes besides them |
| CommutativeTransform.BuildWeight | src/main/java/edu/kpi/lab/model/transform/commutative/CommutativeTransformer.java:159-173 | a chain rebuilt from `n` operands has `n - 1` operator nodes besides them |
| CommutativeTransform.Balance | src/main/java/edu/kpi/lab/model/transform/commutative/CommutativeTransformer.java:123-146 | balancing keeps a node's category |
| CommutativeTransform.Rebalanced | src/main/java/edu/kpi/lab/model/transform/commutative/CommutativeTransformer.java:128-136 | the node left in place after a pass keeps its category and text |
| CommutativeTransform.BalanceKeepsWeight | src/main/java/edu/kpi/lab/model/transform/commutative/CommutativeTransformer.java:123-146 | balancing keeps the number of nodes |
| CommutativeTransform.RebalancedKeepsWeight | src/main/java/edu/kpi/lab/model/transform/commutative/CommutativeTransformer.java:128-136 | the node left behind keeps the number of nodes |
| CommutativeTransform.BalancedChainSorted | src/main/java/edu/kpi/lab/model/transform/commutative/CommutativeTransformer.java:138-143 | a balanced plus or times node heads a chain whose operands are those below it, children balanced, sorted, as a permutation |
| CommutativeTransform.BalancedChainShallow | src/main/java/edu/kpi/lab/model/transform/commutative/CommutativeTransformer.java:138-143 | a balanced chain of at most `2^k` operands is at most `k` operators deep |
| CommutativeTransform.BalanceIdempotent | src/main/java/edu/kpi/lab/model/transform/commutative/CommutativeTransformer.java:123-146 | balancing twice in one order gives what balancing once gives |
| CommutativeTransform.SortFold | src/main/java/edu/kpi/lab/model/transform/commutative/CommutativeTransformer.java:141 | reordering the operands keeps the value of their chain |
| CommutativeTransform.CollectFold | src/main/java/edu/kpi/lab/model/transform/commutative/CommutativeTransformer.java:148-157 | a tree is worth its chain's operands joined by the operator |
| CommutativeTransform.BuildFold | src/main/java/edu/kpi/lab/model/transform/commutative/CommutativeTransformer.java:159-173 | a rebuilt chain is worth its operands joined by the operator |
| CommutativeTransform.BalanceKeepsValue | src/main/java/edu/kpi/lab/model/transform/commutative/CommutativeTransformer.java:123-146 | balancing keeps the value wherever plus and times are associative and commutative |
| CommutativeTransform.RebalancedKeepsValue | src/main/java/edu/kpi/lab/model/transform/commutative/CommutativeTransformer.java:128-136 | the tree the first pass leaves behind keeps the value |
| CommutativeTransform.DescendingForm | src/main/java/edu/kpi/lab/model/transform/commutative/CommutativeTransformer.java:114 | the first form keeps the root's category |
| CommutativeTransform.TextForm | src/main/java/edu/kpi/lab/model/transform/commutative/CommutativeTransformer.java:117 | the second form, computed from what the first pass left, keeps the root's category |
| CommutativeTransform.EquivalentForms | src/main/java/edu/kpi/lab/model/transform/commutative/CommutativeTransformer.java:105-121 | the forms exist exactly when the whole token list parses, the parse error otherwise, and there are one or two distinct forms |
| CommutativeTransform.FormsMeanTheInput | src/main/java/edu/kpi/lab/model/transform/commutative/CommutativeTransformer.java:105-121 | both forms have the parsed expression's value, the first printed first and the second last |
| CommutativeTransform.GenerateEquivalentExpressions | src/main/java/edu/kpi/lab/model/transform/commutative/CommutativeTransformer.java:105-121 | the method computes `EquivalentForms` |
| CommutativeTransform.ExpressionLoop | src/main/java/edu/kpi/lab/model/transform/commutative/CommutativeTransformer.java:26-38 | the sum loop never moves the cursor back or past the end |
| CommutativeTransform.TermLoop | src/main/java/edu/kpi/lab/model/transform/commutative/CommutativeTransformer.java:44-56 | the product loop never moves the cursor back or past the end |
| CommutativeTransform.CallFrom | src/main/java/edu/kpi/lab/model/transform/commutative/CommutativeTransformer.java:69-83 | a call consumes at least its name and stays within the list |
| CommutativeTransform.BracketFrom | src/main/java/edu/kpi/lab/model/transform/commutative/CommutativeTransformer.java:84-91 | a bracketed factor consumes at least its bracket and stays within the list |
| CommutativeTransform.Insert | src/main/java/edu/kpi/lab/model/transform/commutative/CommutativeTransformer.java:141 | inserting adds exactly the one operand, keeping the others |
| CommutativeTransform.InsertSorted | src/main/java/edu/kpi/lab/model/transform/commutative/CommutativeTransformer.java:141 | inserting into sorted operands keeps them sorted |
| CommutativeTransform.RebuildKeepsValue | src/main/java/edu/kpi/lab/model/transform/commutative/CommutativeTransformer.java:139-143 | collecting, sorting and rebuilding a chain keeps its value |
| CommutativeTransform.RebuildKeepsWeight | src/main/java/edu/kpi/lab/model/transform/commutative/CommutativeTransformer.java:139-143 | collecting, sorting and rebuilding a chain keeps its number of nodes |
| CommutativeTransform.BuildIsFixed | src/main/java/edu/kpi/lab/model/transform/commutative/CommutativeTransformer.java:159-173 | a chain rebuilt from sorted operands that are their own balanced forms is its own balanced form |
| BracketNode.Precedence | src/main/java/edu/kpi/lab/model/transformation/node/ExpressionNode.java:6-12 | plus and minus bind at 1, times and divide at 2, any other text at 0 |
| BracketNode.UnaryBrackets | src/main/java/edu/kpi/lab/model/transformation/node/ExpressionNode.java:14-32 | under a unary operation exactly a binary child is bracketed; under a binary operation a unary child never is |
| BracketNode.MinusChainExample | src/main/java/edu/kpi/lab/model/transformation/node/BinaryNode.java:15-26 | example, one fixed shape of operands: a difference chained to the left prints as `a-b-c`, one chained to the right as `a-(b-c)` |
| BracketNode.PrintBalanced | src/main/java/edu/kpi/lab/model/transformation/node/BinaryNode.java:15-26 | a node whose texts hold no brackets prints with balanced brackets |
| BracketNode.ToExpression | src/main/java/edu/kpi/lab/model/transformation/node/BinaryNode.java:15-26 | the printer; no contract of its own: `PrintBalanced` proves balanced brackets, `UnaryBrackets` when a unary operand is wrapped, and `MinusChainExample` that a left-chained difference needs no brackets |
| BracketExpand.ExpressionFrom | src/main/java/edu/kpi/lab/model/transformation/BracketExpander.java:37-46 | a successful read consumes at least one token and stays within the list; reading never fails with `MissingOperator`, because an operator without text is stored in the tree as Java stores `null` |
| BracketExpand.ChainRootIsLastOperator | src/main/java/edu/kpi/lab/model/transformation/BracketExpander.java:37-46 | for every token list, a `+`/`-` chain nests to the left: unless nothing was read, the root is a node for the last additive operator, whose right operand is the term read just after it and ending where the chain ends; the node keeps that token's text exactly, a missing one included |
| BracketExpand.ExpressionLoop | src/main/java/edu/kpi/lab/model/transformation/BracketExpander.java:39-44 | the plus/minus loop never moves the cursor back or past the end, and reads on past an operator without text instead of failing there |
| BracketExpand.TermFrom | src/main/java/edu/kpi/lab/model/transformation/BracketExpander.java:48-57 | a term consumes at least one token and stays within the list, and never fails with `MissingOperator` |
| BracketExpand.TermLoop | src/main/java/edu/kpi/lab/model/transformation/BracketExpander.java:50-55 | the times/divide loop never moves the cursor back or past the end, and reads on past an operator without text instead of failing there |
| BracketExpand.FactorFrom | src/main/java/edu/kpi/lab/model/transformation/BracketExpander.java:59-77 | a factor consumes at least one token and stays within the list, and never fails with `MissingOperator` |
| BracketExpand.Built | src/main/java/edu/kpi/lab/model/transformation/BracketExpander.java:95-122 | the parsed tree becomes the node tree the pass rewrites exactly when every operator has its text; otherwise it fails with `MissingOperator`, where the pass calls `equals` on a `null` operator; a built tree gives back the parsed tree under `Unbuilt` |
| BracketExpand.BuiltUnbuilt | src/main/java/edu/kpi/lab/model/transformation/BracketExpander.java:37-57 | every node tree is built back from its parsed form, so `Built` loses nothing |
| BracketExpand.PresentExpression | src/main/java/edu/kpi/lab/model/transformation/BracketExpander.java:37-46 | for every token list whose operator tokens all have their texts, every expression read has all its operator texts |
| BracketExpand.PresentExpressionLoop | src/main/java/edu/kpi/lab/model/transformation/BracketExpander.java:39-44 | the same for the plus/minus loop, from a tree with all its operator texts |
| BracketExpand.PresentTerm | src/main/java/edu/kpi/lab/model/transformation/BracketExpander.java:48-57 | the same for a term |
| BracketExpand.PresentTermLoop | src/main/java/edu/kpi/lab/model/transformation/BracketExpander.java:50-55 | the same for the times/divide loop |
| BracketExpand.PresentFactor | src/main/java/edu/kpi/lab/model/transformation/BracketExpander.java:59-77 | the same for a factor |
| BracketExpand.Flatten | src/main/java/edu/kpi/lab/model/transformation/BracketExpander.java:173-199 | a node has at least one signed term, none of them a sum, a difference or a negation, and a normal node's terms are normal |
| BracketExpand.FlattenValue | src/main/java/edu/kpi/lab/model/transformation/BracketExpander.java:173-199 | the signed terms add up to the node's value, negated when the starting sign is negative |
| BracketExpand.Inverted | src/main/java/edu/kpi/lab/model/transformation/BracketExpander.java:201-205 | flipping signs keeps the number of terms |
| BracketExpand.InvertedTwice | src/main/java/edu/kpi/lab/model/transformation/BracketExpander.java:201-205 | each term keeps its node and has its sign flipped, and flipping twice gives the terms back |
| BracketExpand.InvertedValue | src/main/java/edu/kpi/lab/model/transformation/BracketExpander.java:201-205 | flipping every sign negates the total |
| BracketExpand.Row | src/main/java/edu/kpi/lab/model/transformation/BracketExpander.java:141-145 | one product per right term |
| BracketExpand.Products | src/main/java/edu/kpi/lab/model/transformation/BracketExpander.java:136-148 | two non-empty term lists give a non-empty list of products |
| BracketExpand.ProductsLength | src/main/java/edu/kpi/lab/model/transformation/BracketExpander.java:136-148 | there is one product per pair of terms |
| BracketExpand.ProductsEntry | src/main/java/edu/kpi/lab/model/transformation/BracketExpander.java:140-146 | position `i*|rs|+j` holds left term `i` times right term `j`, positive exactly when their signs agree |
| BracketExpand.ProductsValue | src/main/java/edu/kpi/lab/model/transformation/BracketExpander.java:136-148 | the products add up to the product of the two totals |
| BracketExpand.Quotients | src/main/java/edu/kpi/lab/model/transformation/BracketExpander.java:149-157 | one quotient per dividend term |
| BracketExpand.QuotientsLayout | src/main/java/edu/kpi/lab/model/transformation/BracketExpander.java:152-155 | quotient `i` divides dividend term `i` by the shared divisor and keeps its sign |
| BracketExpand.QuotientsValue | src/main/java/edu/kpi/lab/model/transformation/BracketExpander.java:149-157 | the quotients add up to the dividend's total times the divisor's reciprocal |
| BracketExpand.SumValue | src/main/java/edu/kpi/lab/model/transformation/BracketExpander.java:207-225 | a chain built from signed terms has their total as its value |
| BracketExpand.SumNormal | src/main/java/edu/kpi/lab/model/transformation/BracketExpander.java:207-225 | a chain built from normal terms has nothing to rewrite |
| BracketExpand.DistributedNormal | src/main/java/edu/kpi/lab/model/transformation/BracketExpander.java:129-171 | rewriting a distributable node with normal children leaves nothing to rewrite |
| BracketExpand.DistributedValue | src/main/java/edu/kpi/lab/model/transformation/BracketExpander.java:129-171 | each of the three distributive rewrites keeps the value |
| BracketExpand.Distributed | src/main/java/edu/kpi/lab/model/transformation/BracketExpander.java:129-171 | the distributive rewrite of one node; no contract of its own: `DistributedNormal` proves nothing is left to rewrite after it and `DistributedValue` that it keeps the value |
| BracketExpand.ProcessNormal | src/main/java/edu/kpi/lab/model/transformation/BracketExpander.java:95-111 | after one pass no node is left to rewrite |
| BracketExpand.NormalIsFixed | src/main/java/edu/kpi/lab/model/transformation/BracketExpander.java:95-111 | a pass over a tree with nothing to rewrite gives the same tree |
| BracketExpand.ProcessIsIdempotent | src/main/java/edu/kpi/lab/model/transformation/BracketExpander.java:95-111 | a second pass changes nothing |
| BracketExpand.ProcessKeepsValue | src/main/java/edu/kpi/lab/model/transformation/BracketExpander.java:95-111 | a pass keeps the value of the expression |
| BracketExpand.Process | src/main/java/edu/kpi/lab/model/transformation/BracketExpander.java:95-111 | one bottom-up rewriting pass; no contract of its own: `ProcessNormal`, `NormalIsFixed`, `ProcessIsIdempotent` and `ProcessKeepsValue` prove it leaves nothing to rewrite, fixes normal trees, is idempotent and keeps the value |
| BracketExpand.ProcessKeepsKind | src/main/java/edu/kpi/lab/model/transformation/BracketExpander.java:95-111 | a pass keeps leaves and never turns an operation into a leaf |
| BracketExpand.ProductExpands | src/main/java/edu/kpi/lab/model/transformation/BracketExpander.java:136-148 | `(a+b)*c` is multiplied out to `a*c+b*c` |
| BracketExpand.ProductExample | src/main/java/edu/kpi/lab/model/transformation/BracketExpander.java:136-148 | example, one fixed shape of operands: `(x+y)*z` becomes `x*z+y*z` for any three texts |
| BracketExpand.DifferenceExpands | src/main/java/edu/kpi/lab/model/transformation/BracketExpander.java:158-164 | `a-(b+c)` becomes `a-b-c` |
| BracketExpand.DifferenceExample | src/main/java/edu/kpi/lab/model/transformation/BracketExpander.java:158-164 | example, one fixed shape of operands: `x-(y+z)` becomes `x-y-z` for any three texts |
| BracketExpand.BuildAdditive | src/main/java/edu/kpi/lab/model/transformation/BracketExpander.java:207-225 | the loop computes `Sum` |
| BracketExpand.MultiplyOut | src/main/java/edu/kpi/lab/model/transformation/BracketExpander.java:137-147 | the nested loops compute `Products` |
| BracketExpand.DivideOut | src/main/java/edu/kpi/lab/model/transformation/BracketExpander.java:150-156 | the loop computes `Quotients` |
| BracketExpand.InvertSigns | src/main/java/edu/kpi/lab/model/transformation/BracketExpander.java:201-205 | the signs are flipped in place: the array ends as `Inverted` of its old contents |
| BracketExpand.Distribute | src/main/java/edu/kpi/lab/model/transformation/BracketExpander.java:129-171 | the method computes `Distributed` |
| BracketExpand.EquivalentForm | src/main/java/edu/kpi/lab/model/transformation/BracketExpander.java:16-35 | a token list that does not parse yields the parse failure; the form fails with `MissingOperator` exactly when the whole list parses and the tree holds an operator without text, so any reading error comes first; otherwise the form is what the rewriting loop settles on for the built tree |
| BracketExpand.OperatorTextsNeverMissing | src/main/java/edu/kpi/lab/model/transformation/BracketExpander.java:16-35 | for every token list whose operator tokens all have their texts, the form never fails with `MissingOperator` |
| BracketExpand.ReadingErrorComesFirst | src/main/java/edu/kpi/lab/model/transformation/BracketExpander.java:16-46 | example, one fixed shape of operands: `a +` with the plus without text fails reading past the end, and `a + b` fails with `MissingOperator` only after both operands are read |
| BracketExpand.NullTextOnlyForBareLeaf | src/main/java/edu/kpi/lab/model/transformation/BracketExpander.java:24-33 | the loop fails only for an expression that is one leaf without text |
| BracketExpand.EquivalentFormMeaning | src/main/java/edu/kpi/lab/model/transformation/BracketExpander.java:16-35 | the form is the tokens' own text when a pass changes nothing printed (the pass runs on the built tree), and otherwise the printed pass result, which has the input's value and nothing left to rewrite |
| BracketExpand.RepeatUntilStable | src/main/java/edu/kpi/lab/model/transformation/BracketExpander.java:23-34 | the loop computes `Settled` and ends after at most two passes |
| BracketExpand.Settled | src/main/java/edu/kpi/lab/model/transformation/BracketExpander.java:23-34 | what the rewriting loop returns; no contract of its own: `RepeatUntilStable` computes it, `NullTextOnlyForBareLeaf` proves it fails exactly for a leaf without text, and `EquivalentFormMeaning` that a changed form keeps the value and is normal |
| BracketExpand.BracketExpander.constructor | src/main/java/edu/kpi/lab/model/transformation/BracketExpander.java:13-14 | the expander starts with no tokens and the cursor at 0 |
| BracketExpand.BracketExpander.GenerateEquivalents | src/main/java/edu/kpi/lab/model/transformation/BracketExpander.java:16-35 | the method computes `EquivalentForm` |
| BracketExpand.BracketExpander.ParseExpression | src/main/java/edu/kpi/lab/model/transformation/BracketExpander.java:37-46 | the method reads exactly what `ExpressionFrom` reads and fails as it fails, storing an operator without text in the tree and reading on |
| BracketExpand.BracketExpander.ParseTerm | src/main/java/edu/kpi/lab/model/transformation/BracketExpander.java:48-57 | the method reads exactly what `TermFrom` reads and fails as it fails, storing an operator without text in the tree and reading on |
| BracketExpand.BracketExpander.ParseFactor | src/main/java/edu/kpi/lab/model/transformation/BracketExpander.java:59-77 | the method reads exactly what `FactorFrom` reads and fails as it fails |
| BracketExpand.RowLayout | src/main/java/edu/kpi/lab/model/transformation/BracketExpander.java:141-145 | product `j` of a row multiplies the left term by right term `j`, positive exactly when their signs agree |
| BracketExpand.RowValue | src/main/java/edu/kpi/lab/model/transformation/BracketExpander.java:141-145 | a row adds up to the left term times the total of the right terms |
| BracketExpand.SignedSumAppend | src/main/java/edu/kpi/lab/model/transformation/BracketExpander.java:162 | the total of two joined term lists is the sum of their totals |
| BracketExpand.PrintedProducts | src/main/java/edu/kpi/lab/model/transformation/node/BinaryNode.java:15-26 | the sum of products `x*z + y*z` prints without brackets |
| BracketExpand.PrintedDifference | src/main/java/edu/kpi/lab/model/transformation/node/BinaryNode.java:15-26 | the left-chained difference `(x-y)-z` prints as `x-y-z` |
| BracketExpand.ThreeTerms | src/main/java/edu/kpi/lab/model/transformation/BracketExpander.java:207-225 | example, one fixed shape of operands: a positive term followed by two negative ones is built as `x-y-z` |

## Left out

- Console output is not modelled: the demo drivers `Lab.java` and `Lab1.java`, the `printTreeStructure` methods, the validators' error printing and the trace lines in `distribute`. Errors are modelled as records (a start, an end and a kind), not as formatted messages.
- Lab1Lexer.Lex: the Java lexer loops over `toCharArray()`, that is over UTF-16 code units; the model's sentence is a Dafny `string`, a sequence of Unicode scalar values. A character outside the Basic Multilingual Plane is therefore one position and one `ERROR` token in the model, where Java sees two surrogate units, emits two one-character `ERROR` tokens and shifts every later position by one. For text inside the Basic Multilingual Plane the two agree.
- LexSucceeds (`Lab1Lexer.LexSucceeds`): states the lexer's result over Unicode scalar values, so for text with characters outside the Basic Multilingual Plane its positions and its count of `ERROR` tokens are not Java's (see the `Lab1Lexer.Lex` line).
- Step (`Lab1Lexer.Step`): one turn reads one Unicode scalar value, where a Java turn reads one UTF-16 code unit; the two coincide inside the Basic Multilingual Plane only.
- ProcessMathSentence (`Lab1Lexer.ProcessMathSentence`): runs `Step` over the scalar values of the sentence, with the same limit as the `Lab1Lexer.Lex` line.
- The lab1 lexer's `Character.isDigit` and `Character.isLetter` are modelled as ASCII tests. Non-ASCII letters and digits are not classified as the Java code would classify them.
- Java exceptions are modelled as `Result` failures that name the error kind. The exception classes and their message strings are not modelled.
- `Lexical.Token` is modelled as a value. Its setters and `addToValue` become functions that return the updated token, so sharing of one `Token` object between lists is not captured. The validators' in-place retagging is kept: they take an `array` of tokens and overwrite slots.
- `CommutativeTransform.Rebalanced`: `balanceTree` overwrites node fields in place. The model works on values; it captures the one effect that matters, namely that the second ordering starts from the tree the first pass left behind, but not object identity.
- `CommutativeTransform.SortBy`: `List.sort` is a stable merge sort. It is modelled by a stable insertion sort, which yields the same list for the same comparator. String comparison is by character code, which agrees with Java's `compareTo` for characters in the Basic Multilingual Plane.
- AssociativeTransform.GenerateEquivalentExpressions: the grouping rule is a parameter. The Java code always groups per occurrence of a factor (`PerOccurrence`), which can change the value (see Findings); the value-keeping property is proved for the corrected `PerTerm` rule only.
- Iteration order of `HashMap` and `HashSet` in the associative enumerator is not modelled. Its results are sets of strings.
- `getFactoredVariants` is only ever called with `"+"`. Its branch for any other operator is unreachable and is not modelled.
- `AssociativeParser.FactorFrom`: a token that starts no factor makes the whole parse fail. The Java code instead returns `null` and builds a tree with a hole in it. What the enumerator then does with that tree (an empty result, or a `NullPointerException` when printing) is not modelled.
- AssociativeParser.ExpressionLoop, AssociativeParser.TermLoop, AssociativeParser.Parser.ParseExpression, AssociativeParser.Parser.ParseTerm: an operator token without text ends the read with `MissingOperator` once the operand after it is read. The Java parser stores the `null` operator and reads on, and the enumerator then throws on it, since it visits every node. The two agree except when a later token starts no factor, which is the hole case of the line above.
- AssociativeTransform.EquivalentForms: a query that is one literal without text yields the form `"null"`. There Java's `toString` returns the `null` reference itself, and the result set holds `null`.
- The associative parser and the bracket expander's parser stop at the first token they cannot continue with, and leave later tokens unread, as the Java code does. The commutative parser reports leftover tokens as `ExtraTokens`, as its Java code does.
- The bracket expander returns `NullText` when the whole tree is a leaf without text. There the Java loop calls `equals` on a `null` string and throws a `NullPointerException`; the model names that failure instead of modelling the exception.
- A missing leaf text prints as `"?"` in the commutative printer and as `"null"` in the bracket printer, following the two Java printers. Nodes with missing children cannot be built by the modelled parsers and are not modelled.
- The duplicate `processTokenQuery` in `model/syntax/SyntaxAnalyzer.java` runs the same table and checks as `SyntaxValidator`. Its model delegates to the validator's model.
- Arithmetic meaning is stated over abstract algebras. The Java code never evaluates expressions, and floating point is not modelled. The real-number instance uses the convention that the inverse of `0` is `0`.
- The newer lexer that `Lab.java` imports is not part of this model. Nor are the `SyntaxType`, `Node` and `Expression` base classes, beyond the shapes the modelled code uses.

## Findings

| source | as written | input that shows it | evidently intended | confidence | as-written member | corrected member |
|---|---|---|---|---|---|---|
| src/main/java/edu/kpi/lab/model/transform/associative/AssociativeTransformer.java:80-90 | a factor that occurs twice in one term records that term's index twice, so the term is taken into the group twice | `a*a+c` yields the variant `c+a*(a+a)`, which is 2 where the input is 1 at `a=1`, `c=0` | record each term at most once per factor, so every variant keeps the input's value | not executed | AssociativeTransform.RepeatedFactorChangesValue | AssociativeTransform.FactoredVariantValue |
