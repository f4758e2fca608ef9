/**
 * The grammar-table validator over the thirteen-kind token vocabulary.
 * Each token is checked against the set of categories its predecessor
 * allows, a stack pairs opening and closing brackets, a literal zero right
 * after a division is flagged, and every misplaced token is retagged
 * `Error` in place.  Errors are collected; only a bracket of the wrong
 * kind aborts the scan.
 */
module SyntaxValidation {
  import opened Wrappers
  import Lexical

  /** The grammar categories a token can fall into, plus the two ends of a query. */
  datatype SyntaxType =
    | Start | OpenBracket | Operand | Function
    | OperationAdd | OperationMinus | OperationMultiply | OperationDivide
    | CloseBracket | FunctionOpenBracket | FunctionCloseBracket | Finish | Error

  /** What an error record says went wrong. */
  datatype ErrorKind =
    | Unexpected(tokenType: Lexical.TokenType)
    | DivideByZero
    | CannotBeFinished(tokenType: Lexical.TokenType)
    | UnclosedBrackets

  /** An error record: the span it covers and its kind. */
  datatype SyntaxError = SyntaxError(startPosition: Option<int>, endPosition: Option<int>, kind: ErrorKind)

  /** The ways the scan stops instead of recording an error: an empty
    * query, a closing bracket of the wrong kind, and a token whose kind is
    * missing, or an integer whose text is missing, which the Java code
    * dereferences and so throws a `NullPointerException` on. */
  datatype ValidationFailure =
    | EmptyQuery | RegularBracketMustBeClosed | FunctionBracketMustBeClosed
    | MissingTokenType | MissingValue

  /** The errors found so far and the brackets still open, innermost last. */
  datatype Scan = Scan(errors: seq<SyntaxError>, openedBrackets: seq<SyntaxType>)

  /** The verdict of a whole query: valid exactly when no error was recorded. */
  datatype Report = Report(valid: bool, errors: seq<SyntaxError>)

  /** The category of a token kind: a function name, any other operand, an
    * operator or bracket as itself, and an error token as `Error`. */
  function CategoryOf(k: Lexical.TokenType): (r: SyntaxType)
    ensures k in Lexical.OperandTypes <==> r == Operand || r == Function
    ensures r == Function <==> k == Lexical.Function
    ensures r == Error <==> k == Lexical.Error
    ensures r != Start && r != Finish
  {
    match k
    case Function => Function
    case Integer => Operand
    case Decimal => Operand
    case Constant => Operand
    case OperationAdd => OperationAdd
    case OperationMinus => OperationMinus
    case OperationMultiply => OperationMultiply
    case OperationDivide => OperationDivide
    case OpenBracket => OpenBracket
    case CloseBracket => CloseBracket
    case FunctionOpenBracket => FunctionOpenBracket
    case FunctionCloseBracket => FunctionCloseBracket
    case Error => Error
  }

  /** A token the validator can read: its kind is set and, for an integer, its text too. */
  predicate Typed(t: Lexical.Token)
  {
    t.tokenType.Some? && (t.tokenType == Some(Lexical.Integer) ==> t.value.Some?)
  }

  predicate AllTyped(ts: seq<Lexical.Token>)
  {
    forall k :: 0 <= k < |ts| ==> Typed(ts[k])
  }

  function Category(t: Lexical.Token): SyntaxType
    requires t.tokenType.Some?
  {
    CategoryOf(t.tokenType.value)
  }

  const Operators: set<SyntaxType> := {OperationAdd, OperationMinus, OperationMultiply, OperationDivide}

  /** What may come after a value: an operator, a closing bracket or the end. */
  const AfterValue: set<SyntaxType> :=
    Operators + {CloseBracket, FunctionCloseBracket, Finish}

  /** The transition table: the categories allowed right after `prev`. */
  function AllowedAfter(prev: SyntaxType): (r: set<SyntaxType>)
    requires prev != Finish
    ensures Error !in r
    ensures prev in Operators ==> r == {Operand, Function, OpenBracket}
    ensures prev == Function ==> r == {FunctionOpenBracket}
  {
    match prev
    case Start => {OpenBracket, Operand, Function, OperationAdd, OperationMinus}
    case OpenBracket => {OpenBracket, Operand, Function, OperationAdd, OperationMinus}
    case OperationAdd => {Operand, Function, OpenBracket}
    case OperationMinus => {Operand, Function, OpenBracket}
    case OperationMultiply => {OpenBracket, Function, Operand}
    case OperationDivide => {OpenBracket, Function, Operand}
    case Operand => AfterValue
    case CloseBracket => AfterValue
    case Function => {FunctionOpenBracket}
    case FunctionOpenBracket => {Function, Operand, OpenBracket, FunctionCloseBracket}
    case FunctionCloseBracket => AfterValue
    case Error =>
      {Start, OpenBracket, Operand, Function, OperationAdd, OperationMinus, OperationMultiply,
       OperationDivide, CloseBracket, FunctionOpenBracket, FunctionCloseBracket, Finish}
  }

  /** After an error token, every category but `Error` itself may follow. */
  lemma ErrorAllowsAllButError(c: SyntaxType)
    ensures c in AllowedAfter(Error) <==> c != Error
  {
    match c
    case Start => case OpenBracket => case Operand => case Function =>
    case OperationAdd => case OperationMinus => case OperationMultiply => case OperationDivide =>
    case CloseBracket => case FunctionOpenBracket => case FunctionCloseBracket => case Finish =>
    case Error =>
  }

  /** The categories a query may end with. */
  const FinishCategories: set<SyntaxType> := {CloseBracket, FunctionCloseBracket, Operand, Error}

  /** The textual division-by-zero test: an integer written "0" right after a division. */
  predicate DividesByZero(t: Lexical.Token, prev: SyntaxType)
  {
    t.tokenType == Some(Lexical.Integer) && t.value == Some("0") && prev == OperationDivide
  }

  /** The checks after the bracket stack has been updated: division by zero,
    * then the table; a token out of place is retagged `Error`. */
  function Place(s: Scan, t: Lexical.Token, prev: SyntaxType): (r: (Scan, Lexical.Token))
    requires Typed(t) && prev != Finish
    ensures r.0.openedBrackets == s.openedBrackets
    ensures Category(t) in AllowedAfter(prev) ==> r.1 == t
    ensures Category(t) !in AllowedAfter(prev) ==>
      r.1 == t.WithType(Lexical.Error) &&
      r.0.errors == s.errors + [SyntaxError(t.startPosition, t.endPosition, Unexpected(t.tokenType.value))]
    ensures !DividesByZero(t, prev) && Category(t) in AllowedAfter(prev) ==> r.0.errors == s.errors
    ensures DividesByZero(t, prev) ==>
      r.0.errors == s.errors + [SyntaxError(t.endPosition, t.endPosition, DivideByZero)]
  {
    var errors :=
      if DividesByZero(t, prev) then s.errors + [SyntaxError(t.endPosition, t.endPosition, DivideByZero)]
      else s.errors;
    if Category(t) in AllowedAfter(prev) then (Scan(errors, s.openedBrackets), t)
    else
      var e := SyntaxError(t.startPosition, t.endPosition, Unexpected(t.tokenType.value));
      (Scan(errors + [e], s.openedBrackets), t.WithType(Lexical.Error))
  }

  /** A token is out of place when it closes a bracket while none is open,
    * or when the table does not allow its category after `prev`. */
  predicate Misplaced(s: Scan, t: Lexical.Token, prev: SyntaxType)
    requires Typed(t) && prev != Finish
  {
    || ((Category(t) == CloseBracket || Category(t) == FunctionCloseBracket) && s.openedBrackets == [])
    || Category(t) !in AllowedAfter(prev)
  }

  /** One token against the allowed categories of its predecessor: brackets
    * first, where a closing bracket with nothing open is an error and one of
    * the wrong kind stops the scan, then `Place`.  The scan stops exactly on
    * a closing bracket whose kind differs from the innermost open one; an
    * opening bracket is pushed and a closing one pops; the token is retagged
    * `Error`, with one error over its span, exactly when it is out of place. */
  function ValidateToken(s: Scan, t: Lexical.Token, prev: SyntaxType): (r: Result<(Scan, Lexical.Token), ValidationFailure>)
    requires Typed(t) && prev != Finish
    ensures var c, stack := Category(t), s.openedBrackets;
      r.Failure? <==>
        stack != [] &&
        ((c == CloseBracket && stack[|stack| - 1] != OpenBracket) ||
         (c == FunctionCloseBracket && stack[|stack| - 1] != FunctionOpenBracket))
    ensures r.Failure? ==>
      r.error == (if Category(t) == CloseBracket then RegularBracketMustBeClosed else FunctionBracketMustBeClosed)
    ensures r.Success? && (Category(t) == OpenBracket || Category(t) == FunctionOpenBracket) ==>
      r.value.0.openedBrackets == s.openedBrackets + [Category(t)]
    ensures r.Success? && (Category(t) == CloseBracket || Category(t) == FunctionCloseBracket) ==>
      r.value.0.openedBrackets == if s.openedBrackets == [] then [] else s.openedBrackets[..|s.openedBrackets| - 1]
    ensures r.Success? && Category(t) !in {OpenBracket, FunctionOpenBracket, CloseBracket, FunctionCloseBracket} ==>
      r.value.0.openedBrackets == s.openedBrackets
    ensures r.Success? ==> r.value.1 == if Misplaced(s, t, prev) then t.WithType(Lexical.Error) else t
    ensures r.Success? ==> (
      r.value.0.errors ==
        s.errors
        + (if DividesByZero(t, prev) then [SyntaxError(t.endPosition, t.endPosition, DivideByZero)] else [])
        + (if Misplaced(s, t, prev) then [SyntaxError(t.startPosition, t.endPosition, Unexpected(t.tokenType.value))] else []))
  {
    var c := Category(t);
    var stack := s.openedBrackets;
    if c == OpenBracket || c == FunctionOpenBracket then
      Success(Place(Scan(s.errors, stack + [c]), t, prev))
    else if c == CloseBracket || c == FunctionCloseBracket then
      if stack == [] then
        var e := SyntaxError(t.startPosition, t.endPosition, Unexpected(t.tokenType.value));
        Success((Scan(s.errors + [e], stack), t.WithType(Lexical.Error)))
      else if c == CloseBracket && stack[|stack| - 1] != OpenBracket then
        Failure(RegularBracketMustBeClosed)
      else if c == FunctionCloseBracket && stack[|stack| - 1] != FunctionOpenBracket then
        Failure(FunctionBracketMustBeClosed)
      else
        Success(Place(Scan(s.errors, stack[..|stack| - 1]), t, prev))
    else
      Success(Place(s, t, prev))
  }

  /** The category the next token is checked against: `Start` for the first,
    * otherwise the current category of the token before it. */
  function PrevCategory(done: seq<Lexical.Token>): (r: SyntaxType)
    requires AllTyped(done)
    ensures r != Finish
  {
    if done == [] then Start else Category(done[|done| - 1])
  }

  /** The failure of a token the validator cannot read: its kind is read
    * first, and an integer's text when the zero-divisor test is reached. */
  function Unreadable(t: Lexical.Token): (r: ValidationFailure)
    requires !Typed(t)
    ensures r == MissingTokenType <==> t.tokenType.None?
    ensures r == MissingValue <==> t.tokenType == Some(Lexical.Integer) && t.value.None?
  {
    if t.tokenType.None? then MissingTokenType else MissingValue
  }

  /** The scan over `rest` after `done` has been checked: the token list as
    * it then stands (retagged tokens in place, the rest untouched) and the
    * final scan state, or the failure that stopped it.  It succeeds only
    * when every token of `rest` can be read. */
  function ValidateRest(rest: seq<Lexical.Token>, s: Scan, done: seq<Lexical.Token>)
    : (r: (seq<Lexical.Token>, Result<Scan, ValidationFailure>))
    requires AllTyped(done)
    ensures |r.0| == |done| + |rest|
    ensures r.1.Success? ==> AllTyped(rest) && AllTyped(r.0)
    decreases |rest|
  {
    if rest == [] then (done, Success(s))
    else if !Typed(rest[0]) then (done + rest, Failure(Unreadable(rest[0])))
    else
      match ValidateToken(s, rest[0], PrevCategory(done))
      case Failure(f) => (done + rest, Failure(f))
      case Success(step) =>
        assert AllTyped(done + [step.1]);
        ValidateRest(rest[1..], step.0, done + [step.1])
  }

  /** The two checks made once after the loop, on the last token as it then stands. */
  function Conclude(s: Scan, last: Lexical.Token): (r: Report)
    requires last.tokenType.Some?
    ensures r.valid <==> r.errors == []
    ensures r.valid <==> s.errors == [] && Category(last) in FinishCategories && s.openedBrackets == []
    ensures |s.errors| <= |r.errors| <= |s.errors| + 2 && r.errors[..|s.errors|] == s.errors
    ensures var added := r.errors[|s.errors|..];
      var unfinished := SyntaxError(last.endPosition, last.endPosition, CannotBeFinished(last.tokenType.value));
      var unclosed := SyntaxError(last.endPosition, last.endPosition, UnclosedBrackets);
      && (unfinished in added <==> Category(last) !in FinishCategories)
      && (unclosed in added <==> s.openedBrackets != [])
      && (forall e :: e in added ==> e == unfinished || e == unclosed)
      && (|added| == 2 ==> added == [unfinished, unclosed])
  {
    var unfinished := SyntaxError(last.endPosition, last.endPosition, CannotBeFinished(last.tokenType.value));
    var unclosed := SyntaxError(last.endPosition, last.endPosition, UnclosedBrackets);
    var errors := s.errors + (if Category(last) !in FinishCategories then [unfinished] else [])
                           + (if s.openedBrackets != [] then [unclosed] else []);
    AddedErrors(s.errors, unfinished, unclosed, Category(last) !in FinishCategories, s.openedBrackets != []);
    Report(errors == [], errors)
  }

  /** The errors after `base` when `a` is added if `p` holds and `b` after
    * it if `q` holds. */
  lemma AddedErrors(base: seq<SyntaxError>, a: SyntaxError, b: SyntaxError, p: bool, q: bool)
    requires a != b
    ensures var r := base + (if p then [a] else []) + (if q then [b] else []);
      var added := r[|base|..];
      && |base| <= |r| <= |base| + 2 && r[..|base|] == base
      && (r == [] <==> base == [] && !p && !q)
      && (a in added <==> p) && (b in added <==> q)
      && (forall e :: e in added ==> e == a || e == b)
      && (|added| == 2 ==> added == [a, b])
  {
    var r := base + (if p then [a] else []) + (if q then [b] else []);
    assert r[|base|..] == (if p then [a] else []) + (if q then [b] else []);
  }

  /** The whole validation of a token list: the list as it stands afterwards
    * and the report, or the failure. */
  function Validate(tokens: seq<Lexical.Token>): (seq<Lexical.Token>, Result<Report, ValidationFailure>)
  {
    if tokens == [] then (tokens, Failure(EmptyQuery))
    else
      var run := ValidateRest(tokens, Scan([], []), []);
      match run.1
      case Failure(f) => (run.0, Failure(f))
      case Success(s) => (run.0, Success(Conclude(s, run.0[|run.0| - 1])))
  }

  /** The scan over a non-empty rest is the check of its first token
    * followed by the scan over the others. */
  lemma RestStep(rest: seq<Lexical.Token>, s: Scan, done: seq<Lexical.Token>)
    requires AllTyped(done) && rest != [] && Typed(rest[0])
    ensures var v := ValidateToken(s, rest[0], PrevCategory(done));
      && (v.Failure? ==> ValidateRest(rest, s, done) == (done + rest, Failure(v.error)))
      && (v.Success? ==>
            && AllTyped(done + [v.value.1])
            && ValidateRest(rest, s, done) == ValidateRest(rest[1..], v.value.0, done + [v.value.1]))
  {
  }

  /** The scan stops at a first token it cannot read, leaving the tokens as they are. */
  lemma UnreadableStep(rest: seq<Lexical.Token>, s: Scan, done: seq<Lexical.Token>)
    requires AllTyped(done) && rest != [] && !Typed(rest[0])
    ensures ValidateRest(rest, s, done) == (done + rest, Failure(Unreadable(rest[0])))
  {
  }

  /** A query with a token the validator cannot read is never reported on:
    * the scan stops with a failure, at that token or at an earlier bracket
    * of the wrong kind. */
  lemma UnreadableQueryFails(tokens: seq<Lexical.Token>, k: int)
    requires 0 <= k < |tokens| && !Typed(tokens[k])
    ensures Validate(tokens).1.Failure?
    ensures (forall j :: 0 <= j < k ==> Typed(tokens[j]) && Category(tokens[j]) !in {CloseBracket, FunctionCloseBracket}) ==>
      Validate(tokens).1 == Failure(Unreadable(tokens[k]))
  {
    assert !AllTyped(tokens);
    if forall j :: 0 <= j < k ==> Typed(tokens[j]) && Category(tokens[j]) !in {CloseBracket, FunctionCloseBracket} {
      UnreadableAfterOpeners(tokens, k, 0, Scan([], []), []);
    }
  }

  /** The scan from token `j` on, over tokens that are read and close no
    * bracket before `k`, stops at the unreadable token `k`. */
  lemma {:induction false} UnreadableAfterOpeners(tokens: seq<Lexical.Token>, k: int, j: int, s: Scan, done: seq<Lexical.Token>)
    requires 0 <= j <= k < |tokens| && !Typed(tokens[k]) && AllTyped(done)
    requires forall i :: j <= i < k ==> Typed(tokens[i]) && Category(tokens[i]) !in {CloseBracket, FunctionCloseBracket}
    ensures ValidateRest(tokens[j..], s, done).1 == Failure(Unreadable(tokens[k]))
    decreases k - j
  {
    assert tokens[j..][0] == tokens[j];
    if j == k {
      UnreadableStep(tokens[j..], s, done);
    } else {
      assert tokens[j..][1..] == tokens[j + 1..];
      RestStep(tokens[j..], s, done);
      var v := ValidateToken(s, tokens[j], PrevCategory(done));
      UnreadableAfterOpeners(tokens, k, j + 1, v.value.0, done + [v.value.1]);
    }
  }

  /** Validates the query, retagging misplaced tokens in place. */
  method ValidateTokenQuery(tokens: array<Lexical.Token>) returns (r: Result<Report, ValidationFailure>)
    modifies tokens
    ensures (tokens[..], r) == Validate(old(tokens[..]))
    ensures r.Success? ==> (r.value.valid <==> r.value.errors == [])
  {
    ghost var input := tokens[..];
    if tokens.Length == 0 {
      return Failure(EmptyQuery);
    }
    var errors: seq<SyntaxError> := [];
    var openedBrackets: seq<SyntaxType> := [];
    var i := 0;
    while i < tokens.Length
      invariant 0 <= i <= tokens.Length
      invariant tokens[i..] == input[i..]
      invariant AllTyped(tokens[..i])
      invariant ValidateRest(input[i..], Scan(errors, openedBrackets), tokens[..i])
             == ValidateRest(input, Scan([], []), [])
    {
      assert input[i..][1..] == input[i + 1..];
      if !Typed(tokens[i]) {
        UnreadableStep(input[i..], Scan(errors, openedBrackets), tokens[..i]);
        Rejoin(tokens[..], i);
        return Failure(Unreadable(tokens[i]));
      }
      RestStep(input[i..], Scan(errors, openedBrackets), tokens[..i]);
      var prev := if i == 0 then Start else Category(tokens[i - 1]);
      assert prev == PrevCategory(tokens[..i]);
      var step := ValidateToken(Scan(errors, openedBrackets), tokens[i], prev);
      if step.Failure? {
        Rejoin(tokens[..], i);
        return Failure(step.error);
      }
      var t := step.value.1;
      ghost var before := tokens[..i];
      tokens[i] := t;
      assert tokens[..i + 1] == before + [t];
      errors := step.value.0.errors;
      openedBrackets := step.value.0.openedBrackets;
      i := i + 1;
    }
    assert tokens[..] == tokens[..i];
    r := Success(Conclude(Scan(errors, openedBrackets), tokens[tokens.Length - 1]));
  }

  /** A sequence is its prefix followed by the rest. */
  lemma Rejoin<T>(s: seq<T>, i: nat)
    requires i <= |s|
    ensures s[..i] + s[i..] == s
  {
  }

  // ---------------------------------------------------------------------
  // What one step and a whole scan may do to the tokens and the errors

  /** A checked token keeps its place and text and either keeps its kind or
    * becomes `Error`; the step appends at most one error, because a literal
    * zero after a division is always in its place. */
  lemma StepShape(s: Scan, t: Lexical.Token, prev: SyntaxType)
    requires Typed(t) && prev != Finish
    ensures ValidateToken(s, t, prev).Success? ==>
      var (s', t') := ValidateToken(s, t, prev).value;
      && (t' == t || t' == t.WithType(Lexical.Error))
      && |s.errors| <= |s'.errors| <= |s.errors| + 1
      && s'.errors[..|s.errors|] == s.errors
  {
    if DividesByZero(t, prev) {
      assert Category(t) == Operand;
    }
  }

  /** A scan leaves the tokens already checked alone, retags only to `Error`,
    * keeps every error recorded before it and adds at most one per token. */
  lemma {:induction false} RunShape(rest: seq<Lexical.Token>, s: Scan, done: seq<Lexical.Token>)
    requires AllTyped(done)
    ensures RunShapeHolds(rest, s, done)
    decreases |rest|
  {
    if rest != [] && !Typed(rest[0]) {
      UnreadableStep(rest, s, done);
      ConcatShape(rest, s, done);
    } else if rest != [] {
      var prev := PrevCategory(done);
      RestStep(rest, s, done);
      var v := ValidateToken(s, rest[0], prev);
      if v.Success? {
        RunShape(rest[1..], v.value.0, done + [v.value.1]);
        ShapeStep(rest, s, done);
      } else {
        ConcatShape(rest, s, done);
      }
    }
  }

  /** The step of `RunShape` over a first token whose check fails: the
    * tokens are left as they were. */
  lemma ConcatShape(rest: seq<Lexical.Token>, s: Scan, done: seq<Lexical.Token>)
    requires AllTyped(done) && rest != []
    requires ValidateRest(rest, s, done).0 == done + rest
    requires ValidateRest(rest, s, done).1.Failure?
    ensures RunShapeHolds(rest, s, done)
  {
    var r := done + rest;
    assert r[..|done|] == done;
    forall k | |done| <= k < |r|
      ensures r[k] == rest[k - |done|]
    {
    }
  }

  /** A scan from `done` over `rest` keeps the tokens of `done`, leaves
    * each token of `rest` in its place either as it was or retagged as
    * `Error`, and, when it succeeds, only appends errors, at most one per
    * token. */
  predicate RunShapeHolds(rest: seq<Lexical.Token>, s: Scan, done: seq<Lexical.Token>)
    requires AllTyped(done)
  {
    ShapeOf(ValidateRest(rest, s, done), rest, s, done)
  }

  /** The shape `RunShapeHolds` asks of a scan result `r`. */
  predicate ShapeOf(r: (seq<Lexical.Token>, Result<Scan, ValidationFailure>), rest: seq<Lexical.Token>, s: Scan, done: seq<Lexical.Token>)
  {
    && |r.0| == |done| + |rest|
    && r.0[..|done|] == done
    && (forall k :: |done| <= k < |r.0| ==>
          r.0[k] == rest[k - |done|] || r.0[k] == rest[k - |done|].WithType(Lexical.Error))
    && (r.1.Success? ==>
          && |s.errors| <= |r.1.value.errors| <= |s.errors| + |rest|
          && r.1.value.errors[..|s.errors|] == s.errors)
  }

  /** The step of `RunShape` over a first token that passes its check. */
  lemma ShapeStep(rest: seq<Lexical.Token>, s: Scan, done: seq<Lexical.Token>)
    requires AllTyped(done) && rest != [] && Typed(rest[0])
    requires var v := ValidateToken(s, rest[0], PrevCategory(done));
      v.Success? && AllTyped(done + [v.value.1]) && RunShapeHolds(rest[1..], v.value.0, done + [v.value.1])
    ensures RunShapeHolds(rest, s, done)
  {
    var step := ValidateToken(s, rest[0], PrevCategory(done)).value;
    StepShape(s, rest[0], PrevCategory(done));
    RestStep(rest, s, done);
    JoinShape(rest, s, done, step.0, step.1, ValidateRest(rest[1..], step.0, done + [step.1]));
  }

  /** A first token turned into `t` with the errors of `s'`, followed by a
    * scan of the others that keeps the shape, keeps it as a whole. */
  lemma JoinShape(rest: seq<Lexical.Token>, s: Scan, done: seq<Lexical.Token>, s': Scan, t: Lexical.Token,
                  r: (seq<Lexical.Token>, Result<Scan, ValidationFailure>))
    requires rest != []
    requires t == rest[0] || t == rest[0].WithType(Lexical.Error)
    requires |s.errors| <= |s'.errors| <= |s.errors| + 1 && s'.errors[..|s.errors|] == s.errors
    requires ShapeOf(r, rest[1..], s', done + [t])
    ensures ShapeOf(r, rest, s, done)
  {
    assert r.0[..|done| + 1] == done + [t];
    assert r.0[..|done|] == (done + [t])[..|done|];
    forall k | |done| <= k < |r.0|
      ensures r.0[k] == rest[k - |done|] || r.0[k] == rest[k - |done|].WithType(Lexical.Error)
    {
      if k == |done| {
        assert r.0[k] == (done + [t])[k];
      } else {
        assert rest[1..][k - (|done| + 1)] == rest[k - |done|];
      }
    }
    if r.1.Success? {
      var e := r.1.value.errors;
      assert e[..|s'.errors|][..|s.errors|] == e[..|s.errors|];
    }
  }

  /** Each token records at most one error, so a report holds at most two more
    * errors than there are tokens. */
  lemma ErrorCountBound(tokens: seq<Lexical.Token>)
    ensures Validate(tokens).1.Success? ==> |Validate(tokens).1.value.errors| <= |tokens| + 2
  {
    if tokens != [] {
      RunShape(tokens, Scan([], []), []);
    }
  }

  /** Validation changes no position and no text, and a kind only to `Error`. */
  lemma RetagsOnlyToError(tokens: seq<Lexical.Token>)
    ensures |Validate(tokens).0| == |tokens|
    ensures forall k :: 0 <= k < |tokens| ==>
      var t := Validate(tokens).0[k];
      && t.startPosition == tokens[k].startPosition && t.endPosition == tokens[k].endPosition
      && t.value == tokens[k].value
      && (t.tokenType == tokens[k].tokenType || t.tokenType == Some(Lexical.Error))
  {
    if tokens != [] {
      var run := ValidateRest(tokens, Scan([], []), []);
      assert Validate(tokens).0 == run.0;
      RunShape(tokens, Scan([], []), []);
      forall k | 0 <= k < |tokens|
        ensures var t := run.0[k];
          && t.startPosition == tokens[k].startPosition && t.endPosition == tokens[k].endPosition
          && t.value == tokens[k].value
          && (t.tokenType == tokens[k].tokenType || t.tokenType == Some(Lexical.Error))
      {
        assert run.0[k] == tokens[k - 0] || run.0[k] == tokens[k - 0].WithType(Lexical.Error);
      }
    }
  }

  // ---------------------------------------------------------------------
  // A query without errors, stated without the scan

  /** How one category moves the brackets still open: an opening bracket is
    * pushed, a closing bracket must close the innermost bracket of its own
    * kind, anything else leaves them alone. */
  function Nest(stack: seq<SyntaxType>, c: SyntaxType): Option<seq<SyntaxType>>
  {
    if c == OpenBracket || c == FunctionOpenBracket then Some(stack + [c])
    else if c == CloseBracket then
      if stack != [] && stack[|stack| - 1] == OpenBracket then Some(stack[..|stack| - 1]) else None
    else if c == FunctionCloseBracket then
      if stack != [] && stack[|stack| - 1] == FunctionOpenBracket then Some(stack[..|stack| - 1]) else None
    else Some(stack)
  }

  /** The brackets open after `ts`, starting from `stack`, if every closing bracket fits. */
  function NestAll(stack: seq<SyntaxType>, ts: seq<Lexical.Token>): Option<seq<SyntaxType>>
    requires AllTyped(ts)
    decreases |ts|
  {
    if ts == [] then Some(stack)
    else
      match Nest(stack, Category(ts[0]))
      case None => None
      case Some(stack') => NestAll(stack', ts[1..])
  }

  /** Token `k` may follow the tokens before it and is not a zero divisor. */
  predicate Fits(ts: seq<Lexical.Token>, k: int)
    requires AllTyped(ts) && 0 <= k < |ts|
  {
    var prev := PrevCategory(ts[..k]);
    Category(ts[k]) in AllowedAfter(prev) && !DividesByZero(ts[k], prev)
  }

  predicate FitsFrom(ts: seq<Lexical.Token>, j: nat)
    requires AllTyped(ts)
  {
    forall k :: j <= k < |ts| ==> Fits(ts, k)
  }

  /** A well-formed query: not empty, every token where the table allows it,
    * no zero divisor, a proper last token, and brackets that pair up by kind. */
  predicate Clean(ts: seq<Lexical.Token>)
    requires AllTyped(ts)
  {
    && ts != []
    && FitsFrom(ts, 0)
    && Category(ts[|ts| - 1]) in FinishCategories
    && NestAll([], ts) == Some([])
  }

  /** A step from a clean scan records nothing exactly when the token fits and
    * its bracket pairs up; the token is then left as it was. */
  lemma StepClean(stack: seq<SyntaxType>, t: Lexical.Token, prev: SyntaxType)
    requires Typed(t) && prev != Finish
    ensures var r := ValidateToken(Scan([], stack), t, prev);
      (r.Success? && r.value.0.errors == []) <==>
      (Category(t) in AllowedAfter(prev) && !DividesByZero(t, prev) && Nest(stack, Category(t)).Some?)
    ensures var r := ValidateToken(Scan([], stack), t, prev);
      r.Success? && r.value.0.errors == [] ==>
      r.value == (Scan([], Nest(stack, Category(t)).value), t)
  {
  }

  /** From token `j` on, a scan that has recorded nothing goes on recording
    * nothing exactly when every remaining token fits and its brackets pair up. */
  lemma {:induction false} CleanFrom(ts: seq<Lexical.Token>, j: int, stack: seq<SyntaxType>)
    requires AllTyped(ts) && 0 <= j <= |ts|
    ensures var r := ValidateRest(ts[j..], Scan([], stack), ts[..j]);
      (r.1.Success? && r.1.value.errors == []) <==> (FitsFrom(ts, j) && NestAll(stack, ts[j..]).Some?)
    ensures var r := ValidateRest(ts[j..], Scan([], stack), ts[..j]);
      FitsFrom(ts, j) && NestAll(stack, ts[j..]).Some? ==>
      r.0 == ts && r.1 == Success(Scan([], NestAll(stack, ts[j..]).value))
    decreases |ts| - j
  {
    if j == |ts| {
      assert ts[..j] == ts;
    } else {
      var t := ts[j];
      var prev := PrevCategory(ts[..j]);
      StepClean(stack, t, prev);
      var v := ValidateToken(Scan([], stack), t, prev);
      if v.Success? && v.value.0.errors == [] {
        CleanFrom(ts, j + 1, v.value.0.openedBrackets);
        CleanStep(ts, j, stack);
      } else {
        DirtyStep(ts, j, stack);
      }
    }
  }

  /** The two conclusions of `CleanFrom` at token `j`. */
  predicate CleanFromHolds(ts: seq<Lexical.Token>, j: int, stack: seq<SyntaxType>)
    requires AllTyped(ts) && 0 <= j <= |ts|
  {
    var r := ValidateRest(ts[j..], Scan([], stack), ts[..j]);
    && ((r.1.Success? && r.1.value.errors == []) <==> (FitsFrom(ts, j) && NestAll(stack, ts[j..]).Some?))
    && (FitsFrom(ts, j) && NestAll(stack, ts[j..]).Some? ==>
        r.0 == ts && r.1 == Success(Scan([], NestAll(stack, ts[j..]).value)))
  }

  /** The step of `CleanFrom` over a token that fits and records nothing. */
  lemma CleanStep(ts: seq<Lexical.Token>, j: int, stack: seq<SyntaxType>)
    requires AllTyped(ts) && 0 <= j < |ts|
    requires var v := ValidateToken(Scan([], stack), ts[j], PrevCategory(ts[..j]));
      v.Success? && v.value.0.errors == [] && v.value == (Scan([], Nest(stack, Category(ts[j])).value), ts[j])
    requires Category(ts[j]) in AllowedAfter(PrevCategory(ts[..j])) && !DividesByZero(ts[j], PrevCategory(ts[..j]))
    requires Nest(stack, Category(ts[j])).Some?
    requires CleanFromHolds(ts, j + 1, Nest(stack, Category(ts[j])).value)
    ensures CleanFromHolds(ts, j, stack)
  {
    var t := ts[j];
    var stack' := Nest(stack, Category(t)).value;
    assert ts[j..][0] == t;
    assert ts[j..][1..] == ts[j + 1..];
    assert ts[..j] + [t] == ts[..j + 1];
    RestStep(ts[j..], Scan([], stack), ts[..j]);
    assert Fits(ts, j);
    assert FitsFrom(ts, j) <==> Fits(ts, j) && FitsFrom(ts, j + 1);
    CleanJoin(ts, j, stack, stack');
  }

  /** `CleanFromHolds` carries back over one step that leaves the validation
    * of the rest, the nesting and the fit of the rest unchanged. */
  lemma CleanJoin(ts: seq<Lexical.Token>, j: int, stack: seq<SyntaxType>, stack': seq<SyntaxType>)
    requires AllTyped(ts) && 0 <= j < |ts|
    requires ValidateRest(ts[j..], Scan([], stack), ts[..j]) == ValidateRest(ts[j + 1..], Scan([], stack'), ts[..j + 1])
    requires NestAll(stack, ts[j..]) == NestAll(stack', ts[j + 1..])
    requires FitsFrom(ts, j) == FitsFrom(ts, j + 1)
    requires CleanFromHolds(ts, j + 1, stack')
    ensures CleanFromHolds(ts, j, stack)
  {
  }

  /** The step of `CleanFrom` over a token that fails, records an error, or
    * closes a bracket it does not match. */
  lemma DirtyStep(ts: seq<Lexical.Token>, j: int, stack: seq<SyntaxType>)
    requires AllTyped(ts) && 0 <= j < |ts|
    requires var v := ValidateToken(Scan([], stack), ts[j], PrevCategory(ts[..j]));
      !(v.Success? && v.value.0.errors == [])
    requires !(Category(ts[j]) in AllowedAfter(PrevCategory(ts[..j])) && !DividesByZero(ts[j], PrevCategory(ts[..j]))
      && Nest(stack, Category(ts[j])).Some?)
    ensures CleanFromHolds(ts, j, stack)
  {
    var t := ts[j];
    var prev := PrevCategory(ts[..j]);
    var r := ValidateRest(ts[j..], Scan([], stack), ts[..j]);
    assert ts[j..][0] == t;
    assert ts[j..][1..] == ts[j + 1..];
    assert NestAll(stack, ts[j..]) ==
      (match Nest(stack, Category(t)) case None => None case Some(s') => NestAll(s', ts[j + 1..]));
    assert !(FitsFrom(ts, j) && NestAll(stack, ts[j..]).Some?) by {
      if FitsFrom(ts, j) {
        assert Fits(ts, j);
      }
    }
    RestStep(ts[j..], Scan([], stack), ts[..j]);
    match ValidateToken(Scan([], stack), t, prev)
    case Failure(f) =>
    case Success(step) =>
      RunShape(ts[j + 1..], step.0, ts[..j] + [step.1]);
  }

  /** A query is reported valid, with no errors, exactly when every token
    * can be read and the query is clean; a clean query is left exactly as
    * it was. */
  lemma ValidIffClean(tokens: seq<Lexical.Token>)
    ensures Validate(tokens).1 == Success(Report(true, [])) <==> AllTyped(tokens) && Clean(tokens)
    ensures AllTyped(tokens) && Clean(tokens) ==> Validate(tokens).0 == tokens
  {
    if tokens != [] && AllTyped(tokens) {
      CleanFrom(tokens, 0, []);
      assert tokens[0..] == tokens && tokens[..0] == [];
    }
  }
}
