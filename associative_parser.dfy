/**
 * The recursive-descent parser of the associative rewrite engine.  It reads
 * a token list from a cursor: an expression is a left-associated chain of
 * terms joined by plus or minus, a term a left-associated chain of factors
 * joined by times or divide, and a factor a negation, a bracketed
 * expression, a function call or a literal.  Brackets are consumed only
 * when present, reading past the end yields an error token, and parsing
 * stops at the first token that continues nothing.
 */
module AssociativeParser {
  import opened Wrappers
  import Lexical
  import opened AssociativeExpr

  /** The token seen past the end of the list. */
  const EndToken: Lexical.Token := Lexical.Token(Some(0), Some(0), Some(Lexical.Error), Some(""))

  function PeekAt(tokens: seq<Lexical.Token>, pos: nat): (t: Lexical.Token)
    ensures pos >= |tokens| ==> t.tokenType == Some(Lexical.Error)
    ensures pos < |tokens| ==> t == tokens[pos]
  {
    if pos >= |tokens| then EndToken else tokens[pos]
  }

  /** Whether the token at `pos` (or past the end) is of kind `k`. */
  predicate At(tokens: seq<Lexical.Token>, pos: nat, k: Lexical.TokenType)
  {
    PeekAt(tokens, pos).tokenType == Some(k)
  }

  /** Why a read fails: a token that starts no factor, or a binary operator
    * token without text.  The Java code stores that `null` operator in the
    * tree, and the enumerator dereferences it on every tree holding it. */
  datatype ParseFailure = NoFactor | MissingOperator

  predicate IsOperatorKind(k: Option<Lexical.TokenType>)
  {
    k == Some(Lexical.OperationAdd) || k == Some(Lexical.OperationMinus)
    || k == Some(Lexical.OperationMultiply) || k == Some(Lexical.OperationDivide)
  }

  /** Every operator token carries its text. */
  predicate OperatorsValued(tokens: seq<Lexical.Token>)
  {
    forall k :: 0 <= k < |tokens| && IsOperatorKind(tokens[k].tokenType) ==> tokens[k].value.Some?
  }

  predicate IsLiteralKind(k: Option<Lexical.TokenType>)
  {
    k == Some(Lexical.Integer) || k == Some(Lexical.Decimal) || k == Some(Lexical.Constant)
  }

  // ---------------------------------------------------------------------
  // The grammar as functions: each returns the tree read and the position
  // after it, or why the read failed

  function ExpressionFrom(tokens: seq<Lexical.Token>, pos: nat): (r: Result<(Expr, nat), ParseFailure>)
    requires pos <= |tokens|
    ensures r.Success? ==> pos < r.value.1 <= |tokens|
    decreases |tokens| - pos, 3
  {
    match TermFrom(tokens, pos)
    case Failure(f) => Failure(f)
    case Success((e, p)) => ExpressionLoop(tokens, p, e)
  }

  /** The plus/minus loop after `acc`, the chain read so far. */
  function ExpressionLoop(tokens: seq<Lexical.Token>, pos: nat, acc: Expr): (r: Result<(Expr, nat), ParseFailure>)
    requires pos <= |tokens|
    ensures r.Success? ==> pos <= r.value.1 <= |tokens|
    decreases |tokens| - pos, 2
  {
    if pos >= |tokens| then Success((acc, pos))
    else
      var t := tokens[pos];
      if t.tokenType != Some(Lexical.OperationAdd) && t.tokenType != Some(Lexical.OperationMinus) then Success((acc, pos))
      else
        match TermFrom(tokens, pos + 1)
        case Failure(f) => Failure(f)
        case Success((right, p)) =>
          if t.value.None? then Failure(MissingOperator)
          else ExpressionLoop(tokens, p, BinaryExpr(acc, t.value.value, right))
  }

  function TermFrom(tokens: seq<Lexical.Token>, pos: nat): (r: Result<(Expr, nat), ParseFailure>)
    requires pos <= |tokens|
    ensures r.Success? ==> pos < r.value.1 <= |tokens|
    decreases |tokens| - pos, 1
  {
    match FactorFrom(tokens, pos)
    case Failure(f) => Failure(f)
    case Success((e, p)) => TermLoop(tokens, p, e)
  }

  /** The times/divide loop after `acc`. */
  function TermLoop(tokens: seq<Lexical.Token>, pos: nat, acc: Expr): (r: Result<(Expr, nat), ParseFailure>)
    requires pos <= |tokens|
    ensures r.Success? ==> pos <= r.value.1 <= |tokens|
    decreases |tokens| - pos, 0
  {
    if pos >= |tokens| then Success((acc, pos))
    else
      var t := tokens[pos];
      if t.tokenType != Some(Lexical.OperationMultiply) && t.tokenType != Some(Lexical.OperationDivide) then Success((acc, pos))
      else
        match FactorFrom(tokens, pos + 1)
        case Failure(f) => Failure(f)
        case Success((right, p)) =>
          if t.value.None? then Failure(MissingOperator)
          else TermLoop(tokens, p, BinaryExpr(acc, t.value.value, right))
  }

  function FactorFrom(tokens: seq<Lexical.Token>, pos: nat): (r: Result<(Expr, nat), ParseFailure>)
    requires pos <= |tokens|
    ensures r.Success? ==> pos < r.value.1 <= |tokens|
    decreases |tokens| - pos, 0
  {
    var t := PeekAt(tokens, pos);
    if t.tokenType == Some(Lexical.OperationMinus) then
      match FactorFrom(tokens, pos + 1)
      case Failure(f) => Failure(f)
      case Success((x, p)) => Success((UnaryExpr("-", x), p))
    else if t.tokenType == Some(Lexical.OpenBracket) then
      match ExpressionFrom(tokens, pos + 1)
      case Failure(f) => Failure(f)
      case Success((e, p)) => Success((e, if At(tokens, p, Lexical.CloseBracket) then p + 1 else p))
    else if t.tokenType == Some(Lexical.Function) then
      var p1 := if At(tokens, pos + 1, Lexical.FunctionOpenBracket) then pos + 2 else pos + 1;
      match ExpressionFrom(tokens, p1)
      case Failure(f) => Failure(f)
      case Success((arg, p)) =>
        Success((FunctionExpr(t.value, arg), if At(tokens, p, Lexical.FunctionCloseBracket) then p + 1 else p))
    else if IsLiteralKind(t.tokenType) then
      Success((Literal(t.value, t.tokenType.value), pos + 1))
    else Failure(NoFactor)
  }

  /** The tree of a whole token list; trailing tokens that continue nothing
    * are left unread. */
  function Parse(tokens: seq<Lexical.Token>): Result<Expr, ParseFailure>
  {
    match ExpressionFrom(tokens, 0)
    case Failure(f) => Failure(f)
    case Success((e, _)) => Success(e)
  }

  // ---------------------------------------------------------------------
  // Where parsing stops

  predicate ContinuesSum(tokens: seq<Lexical.Token>, p: nat)
  {
    p < |tokens| && (tokens[p].tokenType == Some(Lexical.OperationAdd) || tokens[p].tokenType == Some(Lexical.OperationMinus))
  }

  predicate ContinuesProduct(tokens: seq<Lexical.Token>, p: nat)
  {
    p < |tokens| && (tokens[p].tokenType == Some(Lexical.OperationMultiply) || tokens[p].tokenType == Some(Lexical.OperationDivide))
  }

  lemma {:induction false} TermLoopStops(tokens: seq<Lexical.Token>, pos: nat, acc: Expr)
    requires pos <= |tokens|
    requires TermLoop(tokens, pos, acc).Success?
    ensures !ContinuesProduct(tokens, TermLoop(tokens, pos, acc).value.1)
    decreases |tokens| - pos
  {
    if ContinuesProduct(tokens, pos) {
      var (right, p) := FactorFrom(tokens, pos + 1).value;
      TermLoopStops(tokens, p, BinaryExpr(acc, tokens[pos].value.value, right));
    }
  }

  lemma {:induction false} ExpressionLoopStops(tokens: seq<Lexical.Token>, pos: nat, acc: Expr)
    requires pos <= |tokens|
    requires !ContinuesProduct(tokens, pos)
    requires ExpressionLoop(tokens, pos, acc).Success?
    ensures !ContinuesSum(tokens, ExpressionLoop(tokens, pos, acc).value.1)
    ensures !ContinuesProduct(tokens, ExpressionLoop(tokens, pos, acc).value.1)
    decreases |tokens| - pos
  {
    if ContinuesSum(tokens, pos) {
      var (right, p) := TermFrom(tokens, pos + 1).value;
      var (f, q) := FactorFrom(tokens, pos + 1).value;
      TermLoopStops(tokens, q, f);
      ExpressionLoopStops(tokens, p, BinaryExpr(acc, tokens[pos].value.value, right));
    }
  }

  /** An expression is read up to the first token that continues neither a
    * sum nor a product: the end of the list or any other token. */
  lemma ExpressionStops(tokens: seq<Lexical.Token>, pos: nat)
    requires pos <= |tokens|
    requires ExpressionFrom(tokens, pos).Success?
    ensures !ContinuesSum(tokens, ExpressionFrom(tokens, pos).value.1)
    ensures !ContinuesProduct(tokens, ExpressionFrom(tokens, pos).value.1)
  {
    var (e, p) := TermFrom(tokens, pos).value;
    var (f, q) := FactorFrom(tokens, pos).value;
    TermLoopStops(tokens, q, f);
    ExpressionLoopStops(tokens, p, e);
  }

  // ---------------------------------------------------------------------
  // Where a missing operator text matters

  /** Every literal token carries its text. */
  predicate LiteralsValued(tokens: seq<Lexical.Token>)
  {
    forall k :: 0 <= k < |tokens| && IsLiteralKind(tokens[k].tokenType) ==> tokens[k].value.Some?
  }

  /** A read fails with `MissingOperator` only when some operator token
    * lacks its text, and a tree read from tokens whose literals all carry
    * their texts holds no literal without text. */
  lemma {:induction false} ValuedExpression(tokens: seq<Lexical.Token>, pos: nat)
    requires pos <= |tokens|
    ensures OperatorsValued(tokens) ==> ExpressionFrom(tokens, pos) != Failure(MissingOperator)
    ensures LiteralsValued(tokens) && ExpressionFrom(tokens, pos).Success? ==> LiteralsTexted(ExpressionFrom(tokens, pos).value.0)
    decreases |tokens| - pos, 3
  {
    ValuedTerm(tokens, pos);
    if TermFrom(tokens, pos).Success? {
      var (e, p) := TermFrom(tokens, pos).value;
      ValuedExpressionLoop(tokens, p, e);
    }
  }

  lemma {:induction false} ValuedExpressionLoop(tokens: seq<Lexical.Token>, pos: nat, acc: Expr)
    requires pos <= |tokens|
    ensures OperatorsValued(tokens) ==> ExpressionLoop(tokens, pos, acc) != Failure(MissingOperator)
    ensures LiteralsValued(tokens) && LiteralsTexted(acc) && ExpressionLoop(tokens, pos, acc).Success? ==>
      LiteralsTexted(ExpressionLoop(tokens, pos, acc).value.0)
    decreases |tokens| - pos, 2
  {
    if ContinuesSum(tokens, pos) {
      ValuedTerm(tokens, pos + 1);
      if TermFrom(tokens, pos + 1).Success? && tokens[pos].value.Some? {
        var (right, p) := TermFrom(tokens, pos + 1).value;
        ValuedExpressionLoop(tokens, p, BinaryExpr(acc, tokens[pos].value.value, right));
      }
    }
  }

  lemma {:induction false} ValuedTerm(tokens: seq<Lexical.Token>, pos: nat)
    requires pos <= |tokens|
    ensures OperatorsValued(tokens) ==> TermFrom(tokens, pos) != Failure(MissingOperator)
    ensures LiteralsValued(tokens) && TermFrom(tokens, pos).Success? ==> LiteralsTexted(TermFrom(tokens, pos).value.0)
    decreases |tokens| - pos, 1
  {
    ValuedFactor(tokens, pos);
    if FactorFrom(tokens, pos).Success? {
      var (e, p) := FactorFrom(tokens, pos).value;
      ValuedTermLoop(tokens, p, e);
    }
  }

  lemma {:induction false} ValuedTermLoop(tokens: seq<Lexical.Token>, pos: nat, acc: Expr)
    requires pos <= |tokens|
    ensures OperatorsValued(tokens) ==> TermLoop(tokens, pos, acc) != Failure(MissingOperator)
    ensures LiteralsValued(tokens) && LiteralsTexted(acc) && TermLoop(tokens, pos, acc).Success? ==>
      LiteralsTexted(TermLoop(tokens, pos, acc).value.0)
    decreases |tokens| - pos, 0
  {
    if ContinuesProduct(tokens, pos) {
      ValuedFactor(tokens, pos + 1);
      if FactorFrom(tokens, pos + 1).Success? && tokens[pos].value.Some? {
        var (right, p) := FactorFrom(tokens, pos + 1).value;
        ValuedTermLoop(tokens, p, BinaryExpr(acc, tokens[pos].value.value, right));
      }
    }
  }

  lemma {:induction false} ValuedFactor(tokens: seq<Lexical.Token>, pos: nat)
    requires pos <= |tokens|
    ensures OperatorsValued(tokens) ==> FactorFrom(tokens, pos) != Failure(MissingOperator)
    ensures LiteralsValued(tokens) && FactorFrom(tokens, pos).Success? ==> LiteralsTexted(FactorFrom(tokens, pos).value.0)
    decreases |tokens| - pos, 0
  {
    var t := PeekAt(tokens, pos);
    if t.tokenType == Some(Lexical.OperationMinus) {
      ValuedFactor(tokens, pos + 1);
    } else if t.tokenType == Some(Lexical.OpenBracket) {
      ValuedExpression(tokens, pos + 1);
    } else if t.tokenType == Some(Lexical.Function) {
      ValuedExpression(tokens, if At(tokens, pos + 1, Lexical.FunctionOpenBracket) then pos + 2 else pos + 1);
    }
  }

  /** A plus without text between two literals fails the read, where the
    * Java parser stores a `null` operator. */
  lemma NullOperatorFails(a: Lexical.Token, plus: Lexical.Token, b: Lexical.Token)
    requires IsLiteral(a) && IsLiteral(b)
    requires plus.tokenType == Some(Lexical.OperationAdd) && plus.value.None?
    ensures !OperatorsValued([a, plus, b])
    ensures ExpressionFrom([a, plus, b], 0) == Failure(MissingOperator)
  {
    var ts := [a, plus, b];
    assert IsOperatorKind(ts[1].tokenType);
    assert FactorFrom(ts, 0) == Success((LiteralOf(a), 1));
    assert TermFrom(ts, 0) == Success((LiteralOf(a), 1));
    assert FactorFrom(ts, 2) == Success((LiteralOf(b), 3));
    assert TermFrom(ts, 2) == Success((LiteralOf(b), 3));
  }

  // ---------------------------------------------------------------------
  // How chains group

  predicate IsLiteral(t: Lexical.Token)
  {
    IsLiteralKind(t.tokenType)
  }

  function LiteralOf(t: Lexical.Token): Expr
    requires IsLiteral(t)
  {
    Literal(t.value, t.tokenType.value)
  }

  /** Plus and minus chains associate to the left: `a - b - c` is read as
    * `(a - b) - c`. */
  lemma LeftAssociative(a: Lexical.Token, m1: Lexical.Token, b: Lexical.Token, m2: Lexical.Token, c: Lexical.Token)
    requires IsLiteral(a) && IsLiteral(b) && IsLiteral(c)
    requires m1.tokenType == Some(Lexical.OperationMinus) && m1.value == Some("-")
    requires m2.tokenType == Some(Lexical.OperationMinus) && m2.value == Some("-")
    ensures ExpressionFrom([a, m1, b, m2, c], 0)
         == Success((BinaryExpr(BinaryExpr(LiteralOf(a), "-", LiteralOf(b)), "-", LiteralOf(c)), 5))
  {
    var ts := [a, m1, b, m2, c];
    assert FactorFrom(ts, 0) == Success((LiteralOf(a), 1));
    assert TermFrom(ts, 0) == Success((LiteralOf(a), 1));
    assert FactorFrom(ts, 2) == Success((LiteralOf(b), 3));
    assert TermFrom(ts, 2) == Success((LiteralOf(b), 3));
    assert FactorFrom(ts, 4) == Success((LiteralOf(c), 5));
    assert TermFrom(ts, 4) == Success((LiteralOf(c), 5));
    var ab := BinaryExpr(LiteralOf(a), "-", LiteralOf(b));
    assert ExpressionLoop(ts, 5, BinaryExpr(ab, "-", LiteralOf(c))) == Success((BinaryExpr(ab, "-", LiteralOf(c)), 5));
    assert ExpressionLoop(ts, 3, ab) == ExpressionLoop(ts, 5, BinaryExpr(ab, "-", LiteralOf(c)));
    assert ExpressionLoop(ts, 1, LiteralOf(a)) == ExpressionLoop(ts, 3, ab);
  }

  /** Times binds tighter than plus: `a + b * c` is read as `a + (b * c)`. */
  lemma ProductsBindTighter(a: Lexical.Token, plus: Lexical.Token, b: Lexical.Token, times: Lexical.Token, c: Lexical.Token)
    requires IsLiteral(a) && IsLiteral(b) && IsLiteral(c)
    requires plus.tokenType == Some(Lexical.OperationAdd) && plus.value == Some("+")
    requires times.tokenType == Some(Lexical.OperationMultiply) && times.value == Some("*")
    ensures ExpressionFrom([a, plus, b, times, c], 0)
         == Success((BinaryExpr(LiteralOf(a), "+", BinaryExpr(LiteralOf(b), "*", LiteralOf(c))), 5))
  {
    var ts := [a, plus, b, times, c];
    assert FactorFrom(ts, 0) == Success((LiteralOf(a), 1));
    assert TermFrom(ts, 0) == Success((LiteralOf(a), 1));
    assert FactorFrom(ts, 2) == Success((LiteralOf(b), 3));
    assert FactorFrom(ts, 4) == Success((LiteralOf(c), 5));
    var bc := BinaryExpr(LiteralOf(b), "*", LiteralOf(c));
    assert TermLoop(ts, 5, bc) == Success((bc, 5));
    assert TermLoop(ts, 3, LiteralOf(b)) == TermLoop(ts, 5, bc);
    assert TermFrom(ts, 2) == Success((bc, 5));
    assert ExpressionLoop(ts, 5, BinaryExpr(LiteralOf(a), "+", bc)) == Success((BinaryExpr(LiteralOf(a), "+", bc), 5));
    assert ExpressionLoop(ts, 1, LiteralOf(a)) == ExpressionLoop(ts, 5, BinaryExpr(LiteralOf(a), "+", bc));
  }

  /** A minus in factor position negates the factor after it, repeatedly. */
  lemma NegationNests(m1: Lexical.Token, m2: Lexical.Token, a: Lexical.Token)
    requires IsLiteral(a)
    requires m1.tokenType == Some(Lexical.OperationMinus)
    requires m2.tokenType == Some(Lexical.OperationMinus)
    ensures ExpressionFrom([m1, m2, a], 0) == Success((UnaryExpr("-", UnaryExpr("-", LiteralOf(a))), 3))
  {
    var ts := [m1, m2, a];
    assert FactorFrom(ts, 2) == Success((LiteralOf(a), 3));
    assert FactorFrom(ts, 1) == Success((UnaryExpr("-", LiteralOf(a)), 3));
    assert FactorFrom(ts, 0) == Success((UnaryExpr("-", UnaryExpr("-", LiteralOf(a))), 3));
    assert TermFrom(ts, 0) == FactorFrom(ts, 0);
  }

  /** Missing brackets are no error: a function name followed directly by
    * its argument is a call, and an unclosed bracket ends at the end. */
  lemma BracketsAreOptional(f: Lexical.Token, open: Lexical.Token, a: Lexical.Token)
    requires f.tokenType == Some(Lexical.Function)
    requires open.tokenType == Some(Lexical.OpenBracket)
    requires IsLiteral(a)
    ensures ExpressionFrom([f, a], 0) == Success((FunctionExpr(f.value, LiteralOf(a)), 2))
    ensures ExpressionFrom([open, a], 0) == Success((LiteralOf(a), 2))
  {
    var call := [f, a];
    assert !At(call, 1, Lexical.FunctionOpenBracket);
    assert FactorFrom(call, 1) == Success((LiteralOf(a), 2));
    assert TermFrom(call, 1) == Success((LiteralOf(a), 2));
    assert ExpressionFrom(call, 1) == Success((LiteralOf(a), 2));
    assert FactorFrom(call, 0) == Success((FunctionExpr(f.value, LiteralOf(a)), 2));
    assert TermFrom(call, 0) == Success((FunctionExpr(f.value, LiteralOf(a)), 2));
    var group := [open, a];
    assert FactorFrom(group, 1) == Success((LiteralOf(a), 2));
    assert TermFrom(group, 1) == Success((LiteralOf(a), 2));
    assert ExpressionFrom(group, 1) == Success((LiteralOf(a), 2));
    assert FactorFrom(group, 0) == Success((LiteralOf(a), 2));
  }

  // ---------------------------------------------------------------------
  // The parser object

  /** A parser over a fixed token list with a cursor that only moves forward. */
  class Parser {
    const tokens: seq<Lexical.Token>
    var pos: nat

    constructor(tokens: seq<Lexical.Token>)
      ensures this.tokens == tokens && pos == 0
    {
      this.tokens := tokens;
      pos := 0;
    }

    function Peek(): (t: Lexical.Token)
      reads this
    {
      PeekAt(tokens, pos)
    }

    method Advance()
      modifies this
      ensures pos == old(pos) + 1
    {
      pos := pos + 1;
    }

    method Parse() returns (e: Result<Expr, ParseFailure>)
      requires pos <= |tokens|
      modifies this
      ensures old(pos) <= pos <= |tokens|
      ensures e.Success? <==> ExpressionFrom(tokens, old(pos)).Success?
      ensures e.Success? ==> ExpressionFrom(tokens, old(pos)) == Success((e.value, pos))
      ensures e.Failure? ==> ExpressionFrom(tokens, old(pos)) == Failure(e.error)
    {
      e := ParseExpression();
    }

    method ParseExpression() returns (e: Result<Expr, ParseFailure>)
      requires pos <= |tokens|
      modifies this
      ensures old(pos) <= pos <= |tokens|
      ensures e.Success? <==> ExpressionFrom(tokens, old(pos)).Success?
      ensures e.Success? ==> ExpressionFrom(tokens, old(pos)) == Success((e.value, pos))
      ensures e.Failure? ==> ExpressionFrom(tokens, old(pos)) == Failure(e.error)
      decreases |tokens| - pos, 3
    {
      var first := ParseTerm();
      if first.Failure? {
        return Failure(first.error);
      }
      var expr := first.value;
      while pos < |tokens|
        invariant old(pos) <= pos <= |tokens|
        invariant ExpressionLoop(tokens, pos, expr) == ExpressionFrom(tokens, old(pos))
        decreases |tokens| - pos
      {
        var t := Peek();
        if t.tokenType != Some(Lexical.OperationAdd) && t.tokenType != Some(Lexical.OperationMinus) {
          break;
        }
        Advance();
        var right := ParseTerm();
        if right.Failure? {
          return Failure(right.error);
        }
        if t.value.None? {
          return Failure(MissingOperator);
        }
        expr := BinaryExpr(expr, t.value.value, right.value);
      }
      return Success(expr);
    }

    method ParseTerm() returns (e: Result<Expr, ParseFailure>)
      requires pos <= |tokens|
      modifies this
      ensures old(pos) <= pos <= |tokens|
      ensures e.Success? <==> TermFrom(tokens, old(pos)).Success?
      ensures e.Success? ==> TermFrom(tokens, old(pos)) == Success((e.value, pos))
      ensures e.Failure? ==> TermFrom(tokens, old(pos)) == Failure(e.error)
      decreases |tokens| - pos, 1
    {
      var first := ParseFactor();
      if first.Failure? {
        return Failure(first.error);
      }
      var expr := first.value;
      while pos < |tokens|
        invariant old(pos) <= pos <= |tokens|
        invariant TermLoop(tokens, pos, expr) == TermFrom(tokens, old(pos))
        decreases |tokens| - pos
      {
        var t := Peek();
        if t.tokenType != Some(Lexical.OperationMultiply) && t.tokenType != Some(Lexical.OperationDivide) {
          break;
        }
        Advance();
        var right := ParseFactor();
        if right.Failure? {
          return Failure(right.error);
        }
        if t.value.None? {
          return Failure(MissingOperator);
        }
        expr := BinaryExpr(expr, t.value.value, right.value);
      }
      return Success(expr);
    }

    method ParseFactor() returns (e: Result<Expr, ParseFailure>)
      requires pos <= |tokens|
      modifies this
      ensures old(pos) <= pos <= |tokens|
      ensures e.Success? <==> FactorFrom(tokens, old(pos)).Success?
      ensures e.Success? ==> FactorFrom(tokens, old(pos)) == Success((e.value, pos))
      ensures e.Failure? ==> FactorFrom(tokens, old(pos)) == Failure(e.error)
      decreases |tokens| - pos, 0
    {
      var t := Peek();
      if t.tokenType == Some(Lexical.OperationMinus) {
        Advance();
        var x := ParseFactor();
        if x.Failure? {
          return Failure(x.error);
        }
        return Success(UnaryExpr("-", x.value));
      } else if t.tokenType == Some(Lexical.OpenBracket) {
        Advance();
        var inner := ParseExpression();
        if inner.Failure? {
          return inner;
        }
        if Peek().tokenType == Some(Lexical.CloseBracket) {
          Advance();
        }
        return inner;
      } else if t.tokenType == Some(Lexical.Function) {
        Advance();
        if Peek().tokenType == Some(Lexical.FunctionOpenBracket) {
          Advance();
        }
        var arg := ParseExpression();
        if arg.Failure? {
          return Failure(arg.error);
        }
        if Peek().tokenType == Some(Lexical.FunctionCloseBracket) {
          Advance();
        }
        return Success(FunctionExpr(t.value, arg.value));
      } else if IsLiteralKind(t.tokenType) {
        Advance();
        return Success(Literal(t.value, t.tokenType.value));
      }
      return Failure(NoFactor);
    }
  }
}
