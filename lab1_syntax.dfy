/**
 * The first grammar-table validator, over the first lexer's tokens with
 * merged operator kinds.  Each token is checked against the categories its
 * predecessor allows; a stack pairs brackets; misplaced tokens are retagged
 * `Error` in place and the errors are collected.  Only a closing bracket of
 * the wrong kind stops the scan, and the first lexer never produces one.
 */
module Lab1Syntax {
  import opened Wrappers
  import Lab1Lexer

  /** The grammar categories of the first validator, plus the two ends of a query. */
  datatype SyntaxType =
    | Start | OpenBracket | Operand | Function
    | OperationAddOrMinus | OperationMultiplyOrDivide
    | CloseBracket | FunctionOpenBracket | FunctionCloseBracket | Finish | Error

  /** What an error record says went wrong. */
  datatype ErrorKind =
    | Unexpected(tokenType: Lab1Lexer.Lab1TokenType)
    | CannotBeFinished(tokenType: Lab1Lexer.Lab1TokenType)
    | UnclosedBrackets

  /** An error record: the span it covers and its kind. */
  datatype SyntaxError = SyntaxError(startPosition: int, endPosition: int, kind: ErrorKind)

  /** The ways the scan stops instead of recording an error. */
  datatype ValidationFailure = EmptyQuery | RegularBracketMustBeClosed | FunctionBracketMustBeClosed

  /** The errors found so far and the brackets still open, innermost last. */
  datatype Scan = Scan(errors: seq<SyntaxError>, openedBrackets: seq<SyntaxType>)

  /** The category of a token kind: a function name, any other operand, an
    * operator or bracket as itself, an error token as `Error`. */
  function CategoryOf(k: Lab1Lexer.Lab1TokenType): (r: SyntaxType)
    ensures r == Operand <==> k in {Lab1Lexer.Integer, Lab1Lexer.Decimal, Lab1Lexer.Constant}
    ensures r == Function <==> k == Lab1Lexer.Function
    ensures r == Error <==> k == Lab1Lexer.Error
    ensures r != Start && r != Finish
  {
    match k
    case Function => Function
    case Integer => Operand
    case Decimal => Operand
    case Constant => Operand
    case OperationAddOrMinus => OperationAddOrMinus
    case OperationMultiplyOrDivide => OperationMultiplyOrDivide
    case OpenBracket => OpenBracket
    case CloseBracket => CloseBracket
    case FunctionOpenBracket => FunctionOpenBracket
    case FunctionCloseBracket => FunctionCloseBracket
    case Error => Error
  }

  function Category(t: Lab1Lexer.Lab1Token): SyntaxType
  {
    CategoryOf(t.tokenType)
  }

  /** What may come after a value: an operator, a closing bracket or the end. */
  const AfterValue: set<SyntaxType> :=
    {OperationAddOrMinus, OperationMultiplyOrDivide, CloseBracket, FunctionCloseBracket, Finish}

  /** The transition table: the categories allowed right after `prev`. */
  function AllowedAfter(prev: SyntaxType): (r: set<SyntaxType>)
    requires prev != Finish
    ensures Error !in r
    ensures prev == Start ==> OperationMultiplyOrDivide !in r && CloseBracket !in r
    ensures prev in {OperationAddOrMinus, OperationMultiplyOrDivide} ==> r == {Operand, Function, OpenBracket}
    ensures prev == Function ==> r == {FunctionOpenBracket}
  {
    match prev
    case Start => {OpenBracket, Operand, Function, OperationAddOrMinus}
    case OpenBracket => {OpenBracket, Operand, Function, OperationAddOrMinus}
    case OperationAddOrMinus => {Operand, Function, OpenBracket}
    case OperationMultiplyOrDivide => {OpenBracket, Function, Operand}
    case Operand => AfterValue
    case CloseBracket => AfterValue
    case Function => {FunctionOpenBracket}
    case FunctionOpenBracket => {Function, Operand, OpenBracket, FunctionCloseBracket}
    case FunctionCloseBracket => AfterValue
    case Error =>
      {Start, OpenBracket, Operand, Function, OperationAddOrMinus, OperationMultiplyOrDivide,
       CloseBracket, FunctionOpenBracket, FunctionCloseBracket, Finish}
  }

  /** After an error token, every category but `Error` itself may follow. */
  lemma ErrorAllowsAllButError(c: SyntaxType)
    ensures c in AllowedAfter(Error) <==> c != Error
  {
    match c
    case Start => case OpenBracket => case Operand => case Function =>
    case OperationAddOrMinus => case OperationMultiplyOrDivide =>
    case CloseBracket => case FunctionOpenBracket => case FunctionCloseBracket => case Finish =>
    case Error =>
  }

  /** The categories a query may end with. */
  const FinishCategories: set<SyntaxType> := {CloseBracket, FunctionCloseBracket, Operand, Error}

  /** The table check after the bracket stack has been updated; a token out
    * of place is retagged `Error` and recorded over its whole span. */
  function Place(s: Scan, t: Lab1Lexer.Lab1Token, prev: SyntaxType): (r: (Scan, Lab1Lexer.Lab1Token))
    requires prev != Finish
    ensures r.0.openedBrackets == s.openedBrackets
    ensures Category(t) in AllowedAfter(prev) ==> r == (s, t)
    ensures Category(t) !in AllowedAfter(prev) ==>
      && r.1 == t.(tokenType := Lab1Lexer.Error)
      && r.0.errors == s.errors + [SyntaxError(t.startPosition, t.endPosition, Unexpected(t.tokenType))]
  {
    if Category(t) in AllowedAfter(prev) then (s, t)
    else
      var e := SyntaxError(t.startPosition, t.endPosition, Unexpected(t.tokenType));
      (Scan(s.errors + [e], s.openedBrackets), t.(tokenType := Lab1Lexer.Error))
  }

  /** A token is out of place when it closes a bracket while none is open,
    * or when the table does not allow its category after `prev`. */
  predicate Misplaced(s: Scan, t: Lab1Lexer.Lab1Token, prev: SyntaxType)
    requires prev != Finish
  {
    || ((Category(t) == CloseBracket || Category(t) == FunctionCloseBracket) && s.openedBrackets == [])
    || Category(t) !in AllowedAfter(prev)
  }

  /** One token against the allowed categories of its predecessor: brackets
    * first, where a closing bracket with nothing open is an error and one of
    * the wrong kind stops the scan, then `Place`.  The scan stops exactly on
    * a closing bracket whose kind differs from the innermost open one; an
    * opening bracket is pushed and a closing one pops; the token is retagged
    * `Error`, with one error over its span, exactly when it is out of place. */
  function ValidateToken(s: Scan, t: Lab1Lexer.Lab1Token, prev: SyntaxType): (r: Result<(Scan, Lab1Lexer.Lab1Token), ValidationFailure>)
    requires prev != Finish
    ensures var c, stack := Category(t), s.openedBrackets;
      r.Failure? <==>
        stack != [] &&
        ((c == CloseBracket && stack[|stack| - 1] != OpenBracket) ||
         (c == FunctionCloseBracket && stack[|stack| - 1] != FunctionOpenBracket))
    ensures r.Failure? ==>
      r.error == (if Category(t) == CloseBracket then RegularBracketMustBeClosed else FunctionBracketMustBeClosed)
    ensures r.Success? && (Category(t) == OpenBracket || Category(t) == FunctionOpenBracket) ==>
      r.value.0.openedBrackets == s.openedBrackets + [Category(t)]
    ensures r.Success? && (Category(t) == CloseBracket || Category(t) == FunctionCloseBracket) ==>
      r.value.0.openedBrackets == if s.openedBrackets == [] then [] else s.openedBrackets[..|s.openedBrackets| - 1]
    ensures r.Success? && Category(t) !in {OpenBracket, FunctionOpenBracket, CloseBracket, FunctionCloseBracket} ==>
      r.value.0.openedBrackets == s.openedBrackets
    ensures r.Success? ==> r.value.1 == if Misplaced(s, t, prev) then t.(tokenType := Lab1Lexer.Error) else t
    ensures r.Success? ==> (
      r.value.0.errors ==
        s.errors + (if Misplaced(s, t, prev) then [SyntaxError(t.startPosition, t.endPosition, Unexpected(t.tokenType))] else []))
  {
    var c := Category(t);
    var stack := s.openedBrackets;
    if c == OpenBracket || c == FunctionOpenBracket then
      Success(Place(Scan(s.errors, stack + [c]), t, prev))
    else if c == CloseBracket || c == FunctionCloseBracket then
      if stack == [] then
        var e := SyntaxError(t.startPosition, t.endPosition, Unexpected(t.tokenType));
        Success((Scan(s.errors + [e], stack), t.(tokenType := Lab1Lexer.Error)))
      else if c == CloseBracket && stack[|stack| - 1] != OpenBracket then
        Failure(RegularBracketMustBeClosed)
      else if c == FunctionCloseBracket && stack[|stack| - 1] != FunctionOpenBracket then
        Failure(FunctionBracketMustBeClosed)
      else
        Success(Place(Scan(s.errors, stack[..|stack| - 1]), t, prev))
    else
      Success(Place(s, t, prev))
  }

  /** The category the next token is checked against: `Start` for the first,
    * otherwise the current category of the token before it. */
  function PrevCategory(done: seq<Lab1Lexer.Lab1Token>): (r: SyntaxType)
    ensures r != Finish
  {
    if done == [] then Start else Category(done[|done| - 1])
  }

  /** The scan over `rest` after `done` has been checked: the token list as
    * it then stands and the final scan state, or the failure that stopped it. */
  function ValidateRest(rest: seq<Lab1Lexer.Lab1Token>, s: Scan, done: seq<Lab1Lexer.Lab1Token>)
    : (r: (seq<Lab1Lexer.Lab1Token>, Result<Scan, ValidationFailure>))
    ensures |r.0| == |done| + |rest|
    decreases |rest|
  {
    if rest == [] then (done, Success(s))
    else
      match ValidateToken(s, rest[0], PrevCategory(done))
      case Failure(f) => (done + rest, Failure(f))
      case Success(step) => ValidateRest(rest[1..], step.0, done + [step.1])
  }

  /** The two checks made once after the loop, on the last token as it then stands. */
  function Conclude(s: Scan, last: Lab1Lexer.Lab1Token): (r: seq<SyntaxError>)
    ensures r == [] <==> s.errors == [] && Category(last) in FinishCategories && s.openedBrackets == []
    ensures |s.errors| <= |r| <= |s.errors| + 2 && r[..|s.errors|] == s.errors
    ensures var added := r[|s.errors|..];
      var unfinished := SyntaxError(last.endPosition, last.endPosition, CannotBeFinished(last.tokenType));
      var unclosed := SyntaxError(last.endPosition, last.endPosition, UnclosedBrackets);
      && (unfinished in added <==> Category(last) !in FinishCategories)
      && (unclosed in added <==> s.openedBrackets != [])
      && (forall e :: e in added ==> e == unfinished || e == unclosed)
      && (|added| == 2 ==> added == [unfinished, unclosed])
  {
    var unfinished :=
      if Category(last) !in FinishCategories
      then [SyntaxError(last.endPosition, last.endPosition, CannotBeFinished(last.tokenType))]
      else [];
    var unclosed :=
      if s.openedBrackets != []
      then [SyntaxError(last.endPosition, last.endPosition, UnclosedBrackets)]
      else [];
    assert (s.errors + unfinished + unclosed)[|s.errors|..] == unfinished + unclosed;
    s.errors + unfinished + unclosed
  }

  /** The whole validation of a token list: the list as it stands afterwards
    * and the errors found, or the failure. */
  function Validate(tokens: seq<Lab1Lexer.Lab1Token>): (seq<Lab1Lexer.Lab1Token>, Result<seq<SyntaxError>, ValidationFailure>)
  {
    if tokens == [] then (tokens, Failure(EmptyQuery))
    else
      var run := ValidateRest(tokens, Scan([], []), []);
      match run.1
      case Failure(f) => (run.0, Failure(f))
      case Success(s) => (run.0, Success(Conclude(s, run.0[|run.0| - 1])))
  }

  /** Checks the query, retagging misplaced tokens in place, and returns the errors. */
  method ProcessTokenQuery(tokens: array<Lab1Lexer.Lab1Token>) returns (r: Result<seq<SyntaxError>, ValidationFailure>)
    modifies tokens
    ensures (tokens[..], r) == Validate(old(tokens[..]))
  {
    ghost var input := tokens[..];
    if tokens.Length == 0 {
      return Failure(EmptyQuery);
    }
    var errors: seq<SyntaxError> := [];
    var openedBrackets: seq<SyntaxType> := [];
    var i := 0;
    while i < tokens.Length
      invariant 0 <= i <= tokens.Length
      invariant tokens[i..] == input[i..]
      invariant ValidateRest(input[i..], Scan(errors, openedBrackets), tokens[..i])
             == ValidateRest(input, Scan([], []), [])
    {
      assert input[i..][1..] == input[i + 1..];
      var prev := if i == 0 then Start else Category(tokens[i - 1]);
      assert prev == PrevCategory(tokens[..i]);
      var step := ValidateToken(Scan(errors, openedBrackets), tokens[i], prev);
      RestStep(input[i..], Scan(errors, openedBrackets), tokens[..i]);
      if step.Failure? {
        assert tokens[..] == tokens[..i] + input[i..];
        return Failure(step.error);
      }
      var t := step.value.1;
      ghost var before := tokens[..i];
      tokens[i] := t;
      assert tokens[..i + 1] == before + [t];
      errors := step.value.0.errors;
      openedBrackets := step.value.0.openedBrackets;
      i := i + 1;
    }
    assert tokens[..] == tokens[..i];
    r := Success(Conclude(Scan(errors, openedBrackets), tokens[tokens.Length - 1]));
  }

  // ---------------------------------------------------------------------
  // What a scan may do to the tokens and the errors

  /** The scan over a non-empty rest is the check of its first token
    * followed by the scan over the others. */
  lemma RestStep(rest: seq<Lab1Lexer.Lab1Token>, s: Scan, done: seq<Lab1Lexer.Lab1Token>)
    requires rest != []
    ensures var v := ValidateToken(s, rest[0], PrevCategory(done));
      && (v.Failure? ==> ValidateRest(rest, s, done) == (done + rest, Failure(v.error)))
      && (v.Success? ==> ValidateRest(rest, s, done) == ValidateRest(rest[1..], v.value.0, done + [v.value.1]))
  {
  }

  /** A scan from `done` over `rest` keeps the tokens of `done`, leaves
    * each token of `rest` in its place either as it was or retagged as
    * `Error`, and, when it succeeds, only appends errors, at most one per
    * token. */
  predicate RunShapeHolds(rest: seq<Lab1Lexer.Lab1Token>, s: Scan, done: seq<Lab1Lexer.Lab1Token>)
  {
    var r := ValidateRest(rest, s, done);
    && r.0[..|done|] == done
    && (forall k :: |done| <= k < |r.0| ==>
          r.0[k] == rest[k - |done|] || r.0[k] == rest[k - |done|].(tokenType := Lab1Lexer.Error))
    && (r.1.Success? ==>
          && |s.errors| <= |r.1.value.errors| <= |s.errors| + |rest|
          && r.1.value.errors[..|s.errors|] == s.errors)
  }

  /** A scan leaves the tokens already checked alone, retags only to `Error`,
    * keeps every error recorded before it and adds at most one per token. */
  lemma {:induction false} RunShape(rest: seq<Lab1Lexer.Lab1Token>, s: Scan, done: seq<Lab1Lexer.Lab1Token>)
    ensures RunShapeHolds(rest, s, done)
    decreases |rest|
  {
    if rest != [] {
      RestStep(rest, s, done);
      var v := ValidateToken(s, rest[0], PrevCategory(done));
      if v.Success? {
        RunShape(rest[1..], v.value.0, done + [v.value.1]);
        ShapeStep(rest, s, done);
      } else {
        ConcatShape(rest, s, done);
      }
    }
  }

  /** The step of `RunShape` over a first token whose check fails: the
    * tokens are left as they were. */
  lemma ConcatShape(rest: seq<Lab1Lexer.Lab1Token>, s: Scan, done: seq<Lab1Lexer.Lab1Token>)
    requires rest != []
    requires ValidateRest(rest, s, done).0 == done + rest
    requires ValidateRest(rest, s, done).1.Failure?
    ensures RunShapeHolds(rest, s, done)
  {
    var r := done + rest;
    assert r[..|done|] == done;
    forall k | |done| <= k < |r|
      ensures r[k] == rest[k - |done|]
    {
    }
  }

  /** A checked token keeps its place and text and either keeps its kind or
    * becomes `Error`, and the step appends at most one error. */
  lemma StepShape(s: Scan, t: Lab1Lexer.Lab1Token, prev: SyntaxType)
    requires prev != Finish
    ensures ValidateToken(s, t, prev).Success? ==>
      var (s', t') := ValidateToken(s, t, prev).value;
      && (t' == t || t' == t.(tokenType := Lab1Lexer.Error))
      && |s.errors| <= |s'.errors| <= |s.errors| + 1
      && s'.errors[..|s.errors|] == s.errors
  {
  }

  /** The step of `RunShape` over a first token that passes its check. */
  lemma ShapeStep(rest: seq<Lab1Lexer.Lab1Token>, s: Scan, done: seq<Lab1Lexer.Lab1Token>)
    requires rest != []
    requires var v := ValidateToken(s, rest[0], PrevCategory(done));
      v.Success? && RunShapeHolds(rest[1..], v.value.0, done + [v.value.1])
    ensures RunShapeHolds(rest, s, done)
  {
    var step := ValidateToken(s, rest[0], PrevCategory(done)).value;
    StepShape(s, rest[0], PrevCategory(done));
    RestStep(rest, s, done);
    JoinShape(rest, s, done, step.0, step.1);
  }

  /** A first token turned into `t` with the errors of `s'`, followed by a
    * scan of the others that keeps the shape, keeps it as a whole. */
  lemma JoinShape(rest: seq<Lab1Lexer.Lab1Token>, s: Scan, done: seq<Lab1Lexer.Lab1Token>, s': Scan, t: Lab1Lexer.Lab1Token)
    requires rest != []
    requires t == rest[0] || t == rest[0].(tokenType := Lab1Lexer.Error)
    requires |s.errors| <= |s'.errors| <= |s.errors| + 1 && s'.errors[..|s.errors|] == s.errors
    requires ValidateRest(rest, s, done) == ValidateRest(rest[1..], s', done + [t])
    requires RunShapeHolds(rest[1..], s', done + [t])
    ensures RunShapeHolds(rest, s, done)
  {
    var r := ValidateRest(rest, s, done);
    assert r.0[..|done| + 1] == done + [t];
    assert r.0[..|done|] == (done + [t])[..|done|];
    forall k | |done| <= k < |r.0|
      ensures r.0[k] == rest[k - |done|] || r.0[k] == rest[k - |done|].(tokenType := Lab1Lexer.Error)
    {
      if k == |done| {
        assert r.0[k] == (done + [t])[k];
      } else {
        assert rest[1..][k - (|done| + 1)] == rest[k - |done|];
      }
    }
    if r.1.Success? {
      var e := r.1.value.errors;
      assert e[..|s'.errors|][..|s.errors|] == e[..|s.errors|];
    }
  }

  /** At most one error per token, plus the two final checks. */
  lemma ErrorCountBound(tokens: seq<Lab1Lexer.Lab1Token>)
    ensures Validate(tokens).1.Success? ==> |Validate(tokens).1.value| <= |tokens| + 2
  {
    if tokens != [] {
      var run := ValidateRest(tokens, Scan([], []), []);
      assert Validate(tokens).0 == run.0;
      RunShape(tokens, Scan([], []), []);
      assert forall k :: 0 <= k < |run.0| ==>
        run.0[k] == tokens[k - 0] || run.0[k] == tokens[k - 0].(tokenType := Lab1Lexer.Error);
    }
  }

  /** A token changes at most its kind, and only to `Error`. */
  lemma RetagsOnlyToError(tokens: seq<Lab1Lexer.Lab1Token>)
    ensures |Validate(tokens).0| == |tokens|
    ensures forall k :: 0 <= k < |tokens| ==>
      Validate(tokens).0[k] == tokens[k] || Validate(tokens).0[k] == tokens[k].(tokenType := Lab1Lexer.Error)
  {
    if tokens != [] {
      var run := ValidateRest(tokens, Scan([], []), []);
      assert Validate(tokens).0 == run.0;
      RunShape(tokens, Scan([], []), []);
      assert forall k :: 0 <= k < |run.0| ==>
        run.0[k] == tokens[k - 0] || run.0[k] == tokens[k - 0].(tokenType := Lab1Lexer.Error);
    }
  }

  // ---------------------------------------------------------------------
  // The first lexer never hands the validator a mismatched bracket

  /** The categories of the lexer's open brackets, innermost last. */
  function Categories(open: seq<Lab1Lexer.Lab1TokenType>): (r: seq<SyntaxType>)
    ensures |r| == |open|
  {
    seq(|open|, i requires 0 <= i < |open| => CategoryOf(open[i]))
  }

  /** The lexer only ever keeps opening brackets on its stack. */
  lemma {:induction false} OpenStackHoldsOpeners(toks: seq<Lab1Lexer.Lab1Token>)
    ensures forall x :: x in Lab1Lexer.OpenStack(toks) ==>
      x == Lab1Lexer.OpenBracket || x == Lab1Lexer.FunctionOpenBracket
    decreases |toks|
  {
    if toks != [] {
      var p := Lab1Lexer.OpenStack(toks[..|toks| - 1]);
      OpenStackHoldsOpeners(toks[..|toks| - 1]);
      assert Lab1Lexer.OpenStack(toks) == Lab1Lexer.StackAfter(p, toks[|toks| - 1].tokenType);
      forall x | x in Lab1Lexer.OpenStack(toks)
        ensures x == Lab1Lexer.OpenBracket || x == Lab1Lexer.FunctionOpenBracket
      {
        if x !in p {
          if p != [] {
            assert forall y :: y in p[..|p| - 1] ==> y in p;
          }
        }
      }
    }
  }

  /** With the validator's stack mirroring the lexer's, a bracket that fits
    * the lexer's stack passes the bracket check, and the stacks still mirror
    * each other afterwards. */
  lemma StepMirrorsLexer(s: Scan, t: Lab1Lexer.Lab1Token, prev: SyntaxType, open: seq<Lab1Lexer.Lab1TokenType>)
    requires prev != Finish
    requires s.openedBrackets == Categories(open)
    requires forall x :: x in open ==> x == Lab1Lexer.OpenBracket || x == Lab1Lexer.FunctionOpenBracket
    requires Lab1Lexer.CloserFits(open, t.tokenType)
    ensures ValidateToken(s, t, prev).Success?
    ensures ValidateToken(s, t, prev).value.0.openedBrackets == Categories(Lab1Lexer.StackAfter(open, t.tokenType))
  {
    var k := t.tokenType;
    if k == Lab1Lexer.OpenBracket || k == Lab1Lexer.FunctionOpenBracket {
      assert Categories(open + [k]) == Categories(open) + [CategoryOf(k)];
    } else if (k == Lab1Lexer.CloseBracket || k == Lab1Lexer.FunctionCloseBracket) && open != [] {
      assert open[|open| - 1] in open;
      assert Categories(open[..|open| - 1]) == Categories(open)[..|open| - 1];
    }
  }

  /** From token `j` on, lexer-shaped tokens never stop the scan. */
  lemma {:induction false} NoMismatchFrom(ts: seq<Lab1Lexer.Lab1Token>, j: int, s: Scan, done: seq<Lab1Lexer.Lab1Token>)
    requires 0 <= j <= |ts|
    requires forall k :: 0 <= k < |ts| ==> Lab1Lexer.CloserFits(Lab1Lexer.OpenStack(ts[..k]), ts[k].tokenType)
    requires s.openedBrackets == Categories(Lab1Lexer.OpenStack(ts[..j]))
    ensures ValidateRest(ts[j..], s, done).1.Success?
    decreases |ts| - j
  {
    if j < |ts| {
      var t := ts[j];
      var open := Lab1Lexer.OpenStack(ts[..j]);
      OpenStackHoldsOpeners(ts[..j]);
      StepMirrorsLexer(s, t, PrevCategory(done), open);
      var step := ValidateToken(s, t, PrevCategory(done)).value;
      assert ts[j..][0] == t && ts[j..][1..] == ts[j + 1..];
      assert ts[..j + 1][..j] == ts[..j];
      assert Lab1Lexer.OpenStack(ts[..j + 1]) == Lab1Lexer.StackAfter(open, t.tokenType);
      NoMismatchFrom(ts, j + 1, step.0, done + [step.1]);
    }
  }

  /** Whatever sentence the first lexer accepts, validating its tokens never
    * stops on a closing bracket of the wrong kind: the lexer has already
    * chosen each closing bracket's kind from the same stack. */
  lemma LexedNeverMismatches(text: string)
    ensures Lab1Lexer.Lex(text).Success? ==> Validate(Lab1Lexer.Lex(text).value).1.Success?
  {
    if Lab1Lexer.Lex(text).Success? {
      var toks := Lab1Lexer.Lex(text).value;
      Lab1Lexer.LexSucceeds(text);
      Lab1Lexer.LexedEach(text, toks, |text|);
      NoMismatchFrom(toks, 0, Scan([], []), []);
      assert toks[0..] == toks;
    }
  }

  // ---------------------------------------------------------------------
  // The first token

  /** The first token is checked against what may start a query: one that
    * may not (an operator other than plus or minus, a closing bracket, an
    * error token) is retagged `Error` and is the first error reported, as
    * in "*2+3" or ")+5*3". */
  lemma FirstTokenCheckedAgainstStart(tokens: seq<Lab1Lexer.Lab1Token>)
    requires tokens != [] && Category(tokens[0]) !in AllowedAfter(Start)
    ensures var (out, r) := Validate(tokens);
      && out[0] == tokens[0].(tokenType := Lab1Lexer.Error)
      && (r.Success? ==>
            r.value != [] && r.value[0] == SyntaxError(tokens[0].startPosition, tokens[0].endPosition, Unexpected(tokens[0].tokenType)))
  {
    var t := tokens[0];
    var e := SyntaxError(t.startPosition, t.endPosition, Unexpected(t.tokenType));
    var step := ValidateToken(Scan([], []), t, Start);
    assert step.Success? && step.value.1 == t.(tokenType := Lab1Lexer.Error) && step.value.0.errors == [e] by {
      assert [] + [e] == [e];
    }
    assert tokens[0] == t && PrevCategory([]) == Start;
    assert ValidateRest(tokens, Scan([], []), []) == ValidateRest(tokens[1..], step.value.0, [] + [step.value.1]);
    assert [] + [step.value.1] == [step.value.1];
    RunShape(tokens[1..], step.value.0, [step.value.1]);
  }
}
