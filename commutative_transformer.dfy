/**
 * The commutative rewrite engine.  It parses a token list into a node tree
 * (a negation stored as `0 - x`) and prints two canonical forms of it.  In
 * each form every maximal chain of one commutative operator (plus, or
 * times) is flattened into its operands, the operands are sorted, and the
 * chain is rebuilt as a balanced tree; minus, divide and calls keep the
 * order of their children, whose own chains are balanced.  The first form
 * sorts heavier operands first and equal weights by their text, the second
 * by text alone.
 *
 * The Java code overwrites the children of the input tree as it balances,
 * so the second form is computed from the tree the first pass left behind;
 * `Rebalanced` is that tree, and the second pass starts from it.
 */
module CommutativeTransform {
  import opened Wrappers
  import Lexical
  import S = SyntaxValidation
  import opened Algebraic
  import opened CommutativeNode

  // ---------------------------------------------------------------------
  // Parsing

  /** Why parsing stops: the three bracket checks, a token no factor starts
    * with, tokens left over, reading past the end of the list, and a token
    * without a kind. */
  datatype ParseError =
    | ExpectedFunctionOpenBracket
    | ExpectedFunctionCloseBracket
    | ExpectedCloseBracket
    | UnexpectedToken(token: Lexical.Token)
    | ExtraTokens
    | OutOfRange
    | MissingTokenType

  /** The category of the node an operator token builds. */
  function OperatorKind(k: Option<Lexical.TokenType>): (r: S.SyntaxType)
    ensures k == Some(Lexical.OperationAdd) <==> r == S.OperationAdd
    ensures k == Some(Lexical.OperationMinus) <==> r == S.OperationMinus
    ensures k == Some(Lexical.OperationMultiply) <==> r == S.OperationMultiply
    ensures k == Some(Lexical.OperationDivide) <==> r == S.OperationDivide
    ensures IsOperator(r) || r == S.Error
  {
    if k == Some(Lexical.OperationAdd) then S.OperationAdd
    else if k == Some(Lexical.OperationMinus) then S.OperationMinus
    else if k == Some(Lexical.OperationMultiply) then S.OperationMultiply
    else if k == Some(Lexical.OperationDivide) then S.OperationDivide
    else S.Error
  }

  function Operand(value: Option<string>): Tree
  {
    Node(S.Operand, value, Null, Null, Null)
  }

  predicate IsKind(tokens: seq<Lexical.Token>, pos: nat, k: Lexical.TokenType)
    requires pos < |tokens|
  {
    tokens[pos].tokenType == Some(k)
  }

  /** An expression: a left-leaning chain of terms joined by plus or minus. */
  function ExpressionFrom(tokens: seq<Lexical.Token>, pos: nat): (r: Result<(Tree, nat), ParseError>)
    requires pos <= |tokens|
    ensures r.Success? ==> pos < r.value.1 <= |tokens|
    decreases |tokens| - pos, 6
  {
    match TermFrom(tokens, pos)
    case Failure(e) => Failure(e)
    case Success((t, p)) => ExpressionLoop(tokens, p, t)
  }

  function ExpressionLoop(tokens: seq<Lexical.Token>, pos: nat, acc: Tree): (r: Result<(Tree, nat), ParseError>)
    requires pos <= |tokens|
    ensures r.Success? ==> pos <= r.value.1 <= |tokens|
    decreases |tokens| - pos, 5
  {
    if pos == |tokens| || !(IsKind(tokens, pos, Lexical.OperationAdd) || IsKind(tokens, pos, Lexical.OperationMinus)) then
      Success((acc, pos))
    else
      match TermFrom(tokens, pos + 1)
      case Failure(e) => Failure(e)
      case Success((right, p)) =>
        ExpressionLoop(tokens, p, Node(OperatorKind(tokens[pos].tokenType), None, acc, right, Null))
  }

  /** A term: a left-leaning chain of factors joined by times or divide. */
  function TermFrom(tokens: seq<Lexical.Token>, pos: nat): (r: Result<(Tree, nat), ParseError>)
    requires pos <= |tokens|
    ensures r.Success? ==> pos < r.value.1 <= |tokens|
    decreases |tokens| - pos, 4
  {
    match FactorFrom(tokens, pos)
    case Failure(e) => Failure(e)
    case Success((t, p)) => TermLoop(tokens, p, t)
  }

  function TermLoop(tokens: seq<Lexical.Token>, pos: nat, acc: Tree): (r: Result<(Tree, nat), ParseError>)
    requires pos <= |tokens|
    ensures r.Success? ==> pos <= r.value.1 <= |tokens|
    decreases |tokens| - pos, 3
  {
    if pos == |tokens| || !(IsKind(tokens, pos, Lexical.OperationMultiply) || IsKind(tokens, pos, Lexical.OperationDivide)) then
      Success((acc, pos))
    else
      match FactorFrom(tokens, pos + 1)
      case Failure(e) => Failure(e)
      case Success((right, p)) =>
        TermLoop(tokens, p, Node(OperatorKind(tokens[pos].tokenType), None, acc, right, Null))
  }

  /** One step of an expression's loop over a plus or minus token. */
  lemma ExpressionStep(tokens: seq<Lexical.Token>, pos: nat, acc: Tree, right: Result<Tree, ParseError>, p: nat)
    requires pos < |tokens|
    requires IsKind(tokens, pos, Lexical.OperationAdd) || IsKind(tokens, pos, Lexical.OperationMinus)
    requires TermFrom(tokens, pos + 1) == Positioned(right, p)
    ensures right.Failure? ==> ExpressionLoop(tokens, pos, acc) == Failure(right.error)
    ensures right.Success? ==> p <= |tokens|
    ensures right.Success? ==> ExpressionLoop(tokens, pos, acc) == ExpressionLoop(tokens, p, Node(OperatorKind(tokens[pos].tokenType), None, acc, right.value, Null))
  {
  }

  /** One step of a term's loop over a times or divide token. */
  lemma TermStep(tokens: seq<Lexical.Token>, pos: nat, acc: Tree, right: Result<Tree, ParseError>, p: nat)
    requires pos < |tokens|
    requires IsKind(tokens, pos, Lexical.OperationMultiply) || IsKind(tokens, pos, Lexical.OperationDivide)
    requires FactorFrom(tokens, pos + 1) == Positioned(right, p)
    ensures right.Failure? ==> TermLoop(tokens, pos, acc) == Failure(right.error)
    ensures right.Success? ==> p <= |tokens|
    ensures right.Success? ==> TermLoop(tokens, pos, acc) == TermLoop(tokens, p, Node(OperatorKind(tokens[pos].tokenType), None, acc, right.value, Null))
  {
  }

  /** An expression's loop stops at the end or before any token other
    * than plus or minus. */
  lemma ExpressionExit(tokens: seq<Lexical.Token>, pos: nat, acc: Tree)
    requires pos <= |tokens|
    requires pos < |tokens| ==> !IsKind(tokens, pos, Lexical.OperationAdd) && !IsKind(tokens, pos, Lexical.OperationMinus)
    ensures ExpressionLoop(tokens, pos, acc) == Success((acc, pos))
  {
  }

  /** A term's loop stops at the end or before any token other than times
    * or divide. */
  lemma TermExit(tokens: seq<Lexical.Token>, pos: nat, acc: Tree)
    requires pos <= |tokens|
    requires pos < |tokens| ==> !IsKind(tokens, pos, Lexical.OperationMultiply) && !IsKind(tokens, pos, Lexical.OperationDivide)
    ensures TermLoop(tokens, pos, acc) == Success((acc, pos))
  {
  }

  /** A factor: a literal, a call with both of its brackets, a bracketed
    * expression, or a negation stored as `0 - factor`. */
  function FactorFrom(tokens: seq<Lexical.Token>, pos: nat): (r: Result<(Tree, nat), ParseError>)
    requires pos <= |tokens|
    ensures r.Success? ==> pos < r.value.1 <= |tokens|
    decreases |tokens| - pos, 2
  {
    if pos == |tokens| then Failure(OutOfRange)
    else
      var current := tokens[pos];
      match current.tokenType
      case None => Failure(MissingTokenType)
      case Some(k) =>
        if k == Lexical.Constant || k == Lexical.Integer || k == Lexical.Decimal then
          Success((Operand(current.value), pos + 1))
        else if k == Lexical.Function then CallFrom(tokens, pos)
        else if k == Lexical.OpenBracket then BracketFrom(tokens, pos)
        else if k == Lexical.OperationMinus then
          match FactorFrom(tokens, pos + 1)
          case Failure(e) => Failure(e)
          case Success((child, p)) => Success((Node(S.OperationMinus, None, Operand(Some("0")), child, Null), p))
        else Failure(UnexpectedToken(current))
  }

  /** A call at `pos` once its argument, parsed from just after the
    * opening bracket, is known to be `arg` ending at `p`. */
  lemma CallStep(tokens: seq<Lexical.Token>, pos: nat, arg: Result<Tree, ParseError>, p: nat)
    requires pos + 2 <= |tokens|
    requires IsKind(tokens, pos, Lexical.Function) && IsKind(tokens, pos + 1, Lexical.FunctionOpenBracket)
    requires ExpressionFrom(tokens, pos + 2) == Positioned(arg, p)
    ensures arg.Failure? ==> FactorFrom(tokens, pos) == Failure(arg.error)
    ensures arg.Success? ==> p <= |tokens|
    ensures arg.Success? && p == |tokens| ==> FactorFrom(tokens, pos) == Failure(OutOfRange)
    ensures arg.Success? && p < |tokens| && !IsKind(tokens, p, Lexical.FunctionCloseBracket) ==>
              FactorFrom(tokens, pos) == Failure(ExpectedFunctionCloseBracket)
    ensures arg.Success? && p < |tokens| && IsKind(tokens, p, Lexical.FunctionCloseBracket) ==>
              FactorFrom(tokens, pos) == Success((Node(S.Function, tokens[pos].value, Null, Null, arg.value), p + 1))
  {
  }

  /** A bracketed factor at `pos` once the inner expression is known to
    * be `inner` ending at `p`. */
  lemma BracketStep(tokens: seq<Lexical.Token>, pos: nat, inner: Result<Tree, ParseError>, p: nat)
    requires pos < |tokens| && IsKind(tokens, pos, Lexical.OpenBracket)
    requires ExpressionFrom(tokens, pos + 1) == Positioned(inner, p)
    ensures inner.Failure? ==> FactorFrom(tokens, pos) == Failure(inner.error)
    ensures inner.Success? ==> p <= |tokens|
    ensures inner.Success? && p == |tokens| ==> FactorFrom(tokens, pos) == Failure(OutOfRange)
    ensures inner.Success? && p < |tokens| && !IsKind(tokens, p, Lexical.CloseBracket) ==>
              FactorFrom(tokens, pos) == Failure(ExpectedCloseBracket)
    ensures inner.Success? && p < |tokens| && IsKind(tokens, p, Lexical.CloseBracket) ==>
              FactorFrom(tokens, pos) == Success((inner.value, p + 1))
  {
  }

  /** A negated factor at `pos` once the factor after the minus is known
    * to be `child` ending at `p`. */
  lemma MinusStep(tokens: seq<Lexical.Token>, pos: nat, child: Result<Tree, ParseError>, p: nat)
    requires pos < |tokens| && IsKind(tokens, pos, Lexical.OperationMinus)
    requires FactorFrom(tokens, pos + 1) == Positioned(child, p)
    ensures child.Failure? ==> FactorFrom(tokens, pos) == Failure(child.error)
    ensures child.Success? ==>
              FactorFrom(tokens, pos) == Success((Node(S.OperationMinus, None, Operand(Some("0")), child.value, Null), p))
  {
  }

  /** A call: the function token at `pos`, its opening bracket, the
    * argument expression and its closing bracket. */
  function CallFrom(tokens: seq<Lexical.Token>, pos: nat): (r: Result<(Tree, nat), ParseError>)
    requires pos < |tokens|
    ensures r.Success? ==> pos < r.value.1 <= |tokens|
    decreases |tokens| - pos, 1
  {
    if pos + 1 == |tokens| then Failure(OutOfRange)
    else if !IsKind(tokens, pos + 1, Lexical.FunctionOpenBracket) then Failure(ExpectedFunctionOpenBracket)
    else
      match ExpressionFrom(tokens, pos + 2)
      case Failure(e) => Failure(e)
      case Success((arg, p)) =>
        if p == |tokens| then Failure(OutOfRange)
        else if !IsKind(tokens, p, Lexical.FunctionCloseBracket) then Failure(ExpectedFunctionCloseBracket)
        else Success((Node(S.Function, tokens[pos].value, Null, Null, arg), p + 1))
  }

  /** A bracketed expression opened at `pos`, with its closing bracket. */
  function BracketFrom(tokens: seq<Lexical.Token>, pos: nat): (r: Result<(Tree, nat), ParseError>)
    requires pos < |tokens|
    ensures r.Success? ==> pos < r.value.1 <= |tokens|
    decreases |tokens| - pos, 1
  {
    match ExpressionFrom(tokens, pos + 1)
    case Failure(e) => Failure(e)
    case Success((inner, p)) =>
      if p == |tokens| then Failure(OutOfRange)
      else if !IsKind(tokens, p, Lexical.CloseBracket) then Failure(ExpectedCloseBracket)
      else Success((inner, p + 1))
  }

  // ---------------------------------------------------------------------
  // Every parsed tree is shaped

  /** An expression the parser reads is a shaped tree. */
  lemma {:induction false} ExpressionShaped(tokens: seq<Lexical.Token>, pos: nat)
    requires pos <= |tokens|
    ensures ExpressionFrom(tokens, pos).Success? ==> Shaped(ExpressionFrom(tokens, pos).value.0)
    decreases |tokens| - pos, 6
  {
    TermShaped(tokens, pos);
    if TermFrom(tokens, pos).Success? {
      var (t, p) := TermFrom(tokens, pos).value;
      ExpressionLoopShaped(tokens, p, t);
    }
  }

  lemma {:induction false} ExpressionLoopShaped(tokens: seq<Lexical.Token>, pos: nat, acc: Tree)
    requires pos <= |tokens| && Shaped(acc)
    ensures ExpressionLoop(tokens, pos, acc).Success? ==> Shaped(ExpressionLoop(tokens, pos, acc).value.0)
    decreases |tokens| - pos, 5
  {
    if pos < |tokens| && (IsKind(tokens, pos, Lexical.OperationAdd) || IsKind(tokens, pos, Lexical.OperationMinus)) {
      TermShaped(tokens, pos + 1);
      if TermFrom(tokens, pos + 1).Success? {
        var (right, p) := TermFrom(tokens, pos + 1).value;
        ExpressionLoopShaped(tokens, p, Node(OperatorKind(tokens[pos].tokenType), None, acc, right, Null));
      }
    }
  }

  lemma {:induction false} TermShaped(tokens: seq<Lexical.Token>, pos: nat)
    requires pos <= |tokens|
    ensures TermFrom(tokens, pos).Success? ==> Shaped(TermFrom(tokens, pos).value.0)
    decreases |tokens| - pos, 4
  {
    FactorShaped(tokens, pos);
    if FactorFrom(tokens, pos).Success? {
      var (t, p) := FactorFrom(tokens, pos).value;
      TermLoopShaped(tokens, p, t);
    }
  }

  lemma {:induction false} TermLoopShaped(tokens: seq<Lexical.Token>, pos: nat, acc: Tree)
    requires pos <= |tokens| && Shaped(acc)
    ensures TermLoop(tokens, pos, acc).Success? ==> Shaped(TermLoop(tokens, pos, acc).value.0)
    decreases |tokens| - pos, 3
  {
    if pos < |tokens| && (IsKind(tokens, pos, Lexical.OperationMultiply) || IsKind(tokens, pos, Lexical.OperationDivide)) {
      FactorShaped(tokens, pos + 1);
      if FactorFrom(tokens, pos + 1).Success? {
        var (right, p) := FactorFrom(tokens, pos + 1).value;
        TermLoopShaped(tokens, p, Node(OperatorKind(tokens[pos].tokenType), None, acc, right, Null));
      }
    }
  }

  lemma {:induction false} FactorShaped(tokens: seq<Lexical.Token>, pos: nat)
    requires pos <= |tokens|
    ensures FactorFrom(tokens, pos).Success? ==> Shaped(FactorFrom(tokens, pos).value.0)
    decreases |tokens| - pos, 2
  {
    if pos < |tokens| && tokens[pos].tokenType.Some? {
      var k := tokens[pos].tokenType.value;
      if k == Lexical.Function {
        CallShaped(tokens, pos);
      } else if k == Lexical.OpenBracket {
        BracketShaped(tokens, pos);
      } else if k == Lexical.OperationMinus {
        FactorShaped(tokens, pos + 1);
      }
    }
  }

  lemma {:induction false} CallShaped(tokens: seq<Lexical.Token>, pos: nat)
    requires pos < |tokens|
    ensures CallFrom(tokens, pos).Success? ==> Shaped(CallFrom(tokens, pos).value.0)
    decreases |tokens| - pos, 1
  {
    if pos + 2 <= |tokens| {
      ExpressionShaped(tokens, pos + 2);
    }
  }

  lemma {:induction false} BracketShaped(tokens: seq<Lexical.Token>, pos: nat)
    requires pos < |tokens|
    ensures BracketFrom(tokens, pos).Success? ==> Shaped(BracketFrom(tokens, pos).value.0)
    decreases |tokens| - pos, 1
  {
    ExpressionShaped(tokens, pos + 1);
  }

  /** The tree of the whole list; tokens left after it are an error. */
  function ParseAll(tokens: seq<Lexical.Token>): (r: Result<Tree, ParseError>)
    ensures r.Success? ==> Shaped(r.value)
  {
    ExpressionShaped(tokens, 0);
    match ExpressionFrom(tokens, 0)
    case Failure(e) => Failure(e)
    case Success((t, p)) => if p != |tokens| then Failure(ExtraTokens) else Success(t)
  }

  /** A parser method's result with the position it stopped at, in the
    * form the parsing functions return. */
  function Positioned(r: Result<Tree, ParseError>, p: nat): (pr: Result<(Tree, nat), ParseError>)
    ensures pr.Success? <==> r.Success?
    ensures pr.Success? ==> pr.value == (r.value, p)
    ensures pr.Failure? ==> pr.error == r.error
  {
    match r
    case Failure(e) => Failure(e)
    case Success(t) => Success((t, p))
  }

  /** The parser's cursor over a token list, advanced as factors are read. */
  class Parser {
    const tokens: seq<Lexical.Token>
    var position: nat

    constructor(tokens: seq<Lexical.Token>)
      ensures this.tokens == tokens && position == 0
    {
      this.tokens := tokens;
      position := 0;
    }

    method ParseExpression() returns (r: Result<Tree, ParseError>)
      requires position <= |tokens|
      modifies this
      ensures ExpressionFrom(tokens, old(position)) == Positioned(r, position)
      decreases |tokens| - position, 6
    {
      var first := ParseTerm();
      if first.Failure? {
        return first;
      }
      var result := first.value;
      while position < |tokens| && (IsKind(tokens, position, Lexical.OperationAdd) || IsKind(tokens, position, Lexical.OperationMinus))
        invariant old(position) < position <= |tokens|
        invariant ExpressionLoop(tokens, position, result) == ExpressionFrom(tokens, old(position))
        decreases |tokens| - position
      {
        var current := tokens[position];
        ghost var at := position;
        position := position + 1;
        var right := ParseTerm();
        ExpressionStep(tokens, at, result, right, position);
        if right.Failure? {
          return right;
        }
        result := Node(OperatorKind(current.tokenType), None, result, right.value, Null);
      }
      ExpressionExit(tokens, position, result);
      return Success(result);
    }

    method ParseTerm() returns (r: Result<Tree, ParseError>)
      requires position <= |tokens|
      modifies this
      ensures TermFrom(tokens, old(position)) == Positioned(r, position)
      decreases |tokens| - position, 4
    {
      var first := ParseFactor();
      if first.Failure? {
        return first;
      }
      var result := first.value;
      while position < |tokens| && (IsKind(tokens, position, Lexical.OperationMultiply) || IsKind(tokens, position, Lexical.OperationDivide))
        invariant old(position) < position <= |tokens|
        invariant TermLoop(tokens, position, result) == TermFrom(tokens, old(position))
        decreases |tokens| - position
      {
        var current := tokens[position];
        ghost var at := position;
        position := position + 1;
        var right := ParseFactor();
        TermStep(tokens, at, result, right, position);
        if right.Failure? {
          return right;
        }
        result := Node(OperatorKind(current.tokenType), None, result, right.value, Null);
      }
      TermExit(tokens, position, result);
      return Success(result);
    }

    method ParseFactor() returns (r: Result<Tree, ParseError>)
      requires position <= |tokens|
      modifies this
      ensures FactorFrom(tokens, old(position)) == Positioned(r, position)
      decreases |tokens| - position, 2
    {
      if position == |tokens| {
        return Failure(OutOfRange);
      }
      var current := tokens[position];
      position := position + 1;
      if current.tokenType.None? {
        return Failure(MissingTokenType);
      }
      var k := current.tokenType.value;
      if k == Lexical.Constant || k == Lexical.Integer || k == Lexical.Decimal {
        return Success(Operand(current.value));
      } else if k == Lexical.Function {
        r := ParseCall(current);
        return;
      } else if k == Lexical.OpenBracket {
        r := ParseBracket();
        return;
      } else if k == Lexical.OperationMinus {
        ghost var at := position - 1;
        var child := ParseFactor();
        MinusStep(tokens, at, child, position);
        if child.Failure? {
          return child;
        }
        return Success(Node(S.OperationMinus, None, Operand(Some("0")), child.value, Null));
      }
      return Failure(UnexpectedToken(current));
    }

    /** The call branch of `ParseFactor`: `current`, the function token,
      * has just been consumed. */
    method ParseCall(current: Lexical.Token) returns (r: Result<Tree, ParseError>)
      requires 0 < position <= |tokens| && tokens[position - 1] == current
      requires current.tokenType == Some(Lexical.Function)
      modifies this
      ensures FactorFrom(tokens, old(position) - 1) == Positioned(r, position)
      decreases |tokens| - position + 1, 1
    {
      if position == |tokens| {
        return Failure(OutOfRange);
      }
      if tokens[position].tokenType != Some(Lexical.FunctionOpenBracket) {
        return Failure(ExpectedFunctionOpenBracket);
      }
      ghost var at := position - 1;
      position := position + 1;
      var arg := ParseExpression();
      CallStep(tokens, at, arg, position);
      if arg.Failure? {
        return arg;
      }
      if position == |tokens| {
        return Failure(OutOfRange);
      }
      if tokens[position].tokenType != Some(Lexical.FunctionCloseBracket) {
        return Failure(ExpectedFunctionCloseBracket);
      }
      position := position + 1;
      return Success(Node(S.Function, current.value, Null, Null, arg.value));
    }

    /** The bracket branch of `ParseFactor`: the opening bracket has just
      * been consumed. */
    method ParseBracket() returns (r: Result<Tree, ParseError>)
      requires 0 < position <= |tokens| && IsKind(tokens, position - 1, Lexical.OpenBracket)
      modifies this
      ensures FactorFrom(tokens, old(position) - 1) == Positioned(r, position)
      decreases |tokens| - position + 1, 1
    {
      ghost var at := position - 1;
      var inner := ParseExpression();
      BracketStep(tokens, at, inner, position);
      if inner.Failure? {
        return inner;
      }
      if position == |tokens| {
        return Failure(OutOfRange);
      }
      if tokens[position].tokenType != Some(Lexical.CloseBracket) {
        return Failure(ExpectedCloseBracket);
      }
      position := position + 1;
      return inner;
    }
  }

  // ---------------------------------------------------------------------
  // Sorting operands

  /** The two orders operands are sorted in: heavier first and equal
    * weights by text, or by text alone. */
  datatype Order = HeavierFirst | ByText

  /** The string order of the Java code: the first differing character
    * decides, and a proper prefix comes first. */
  predicate TextLe(a: string, b: string)
    decreases |a|
  {
    a == [] || (b != [] && (a[0] < b[0] || (a[0] == b[0] && TextLe(a[1..], b[1..]))))
  }

  /** The string order is total, antisymmetric and transitive. */
  lemma {:induction false} TextOrder(a: string, b: string, c: string)
    ensures TextLe(a, b) || TextLe(b, a)
    ensures TextLe(a, b) && TextLe(b, a) ==> a == b
    ensures TextLe(a, b) && TextLe(b, c) ==> TextLe(a, c)
    decreases |a|
  {
    if a != [] && b != [] {
      TextOrder(a[1..], b[1..], if c != [] then c[1..] else b[1..]);
      if a[0] == b[0] && TextLe(a[1..], b[1..]) && TextLe(b[1..], a[1..]) {
        assert a == [a[0]] + a[1..] && b == [b[0]] + b[1..];
      }
    }
  }

  /** Whether `a` may come before `b` in the order. */
  predicate Precedes(a: Tree, b: Tree, order: Order)
    requires Shaped(a) && Shaped(b)
  {
    match order
    case HeavierFirst =>
      Weight(a) > Weight(b) || (Weight(a) == Weight(b) && TextLe(Expression(a), Expression(b)))
    case ByText => TextLe(Expression(a), Expression(b))
  }

  lemma PrecedesTotal(a: Tree, b: Tree, order: Order)
    requires Shaped(a) && Shaped(b)
    ensures Precedes(a, b, order) || Precedes(b, a, order)
  {
    TextOrder(Expression(a), Expression(b), Expression(b));
  }

  predicate AllShaped(ts: seq<Tree>)
  {
    forall i :: 0 <= i < |ts| ==> Shaped(ts[i])
  }

  predicate Sorted(ts: seq<Tree>, order: Order)
    requires AllShaped(ts)
  {
    forall i :: 0 < i < |ts| ==> Precedes(ts[i - 1], ts[i], order)
  }

  /** `x` placed before the first element it may precede; placed before
    * the elements equal to it, it keeps a stable order. */
  function Insert(x: Tree, s: seq<Tree>, order: Order): (r: seq<Tree>)
    requires Shaped(x) && AllShaped(s)
    ensures multiset(r) == multiset(s) + multiset{x} && AllShaped(r)
    ensures |r| == |s| + 1
  {
    if s == [] then [x]
    else if Precedes(x, s[0], order) then [x] + s
    else
      assert s == [s[0]] + s[1..] && AllShaped(s[1..]);
      [s[0]] + Insert(x, s[1..], order)
  }

  /** The operands in order, as the library's stable sort leaves them. */
  function SortBy(ts: seq<Tree>, order: Order): (r: seq<Tree>)
    requires AllShaped(ts)
    ensures multiset(r) == multiset(ts) && AllShaped(r)
    ensures |r| == |ts|
  {
    if ts == [] then []
    else
      assert ts == [ts[0]] + ts[1..] && AllShaped(ts[1..]);
      Insert(ts[0], SortBy(ts[1..], order), order)
  }

  lemma {:induction false} InsertSorted(x: Tree, s: seq<Tree>, order: Order)
    requires Shaped(x) && AllShaped(s) && Sorted(s, order)
    ensures Sorted(Insert(x, s, order), order)
    ensures s != [] ==> Insert(x, s, order)[0] == x || Insert(x, s, order)[0] == s[0]
  {
    if s != [] && !Precedes(x, s[0], order) {
      PrecedesTotal(x, s[0], order);
      InsertSorted(x, s[1..], order);
      var r := Insert(x, s[1..], order);
      assert Insert(x, s, order) == [s[0]] + r;
    }
  }

  /** Sorting leaves the operands sorted. */
  lemma {:induction false} SortSorted(ts: seq<Tree>, order: Order)
    requires AllShaped(ts)
    ensures Sorted(SortBy(ts, order), order)
  {
    if ts != [] {
      SortSorted(ts[1..], order);
      InsertSorted(ts[0], SortBy(ts[1..], order), order);
    }
  }

  // ---------------------------------------------------------------------
  // Chains of one commutative operator

  predicate IsChainOperator(k: S.SyntaxType)
  {
    k == S.OperationAdd || k == S.OperationMultiply
  }

  /** The operands of the maximal `op` chain at `t`, left to right. */
  function Collect(t: Tree, op: S.SyntaxType): (r: seq<Tree>)
    requires Shaped(t) && IsChainOperator(op)
    ensures |r| >= 1 && AllShaped(r)
    ensures forall i :: 0 <= i < |r| ==> r[i].kind != op
  {
    if t.kind == op then Collect(t.left, op) + Collect(t.right, op) else [t]
  }

  /** The operands joined by `op` into a balanced tree, the first half on
    * the left; `Null` for no operands. */
  function Build(ts: seq<Tree>, op: S.SyntaxType): (r: Tree)
    requires AllShaped(ts) && IsChainOperator(op)
    ensures ts == [] <==> r.Null?
    ensures ts != [] ==> Shaped(r)
    ensures |ts| >= 2 ==> r.kind == op
    decreases |ts|
  {
    if ts == [] then Null
    else if |ts| == 1 then ts[0]
    else
      var mid := |ts| / 2;
      assert AllShaped(ts[..mid]) && AllShaped(ts[mid..]);
      Node(op, None, Build(ts[..mid], op), Build(ts[mid..], op), Null)
  }

  /** A node balanced: its children first, then, for a plus or times node,
    * the operands of its chain sorted and rebuilt. */
  function Balance(t: Tree, order: Order): (r: Tree)
    requires Shaped(t)
    ensures Shaped(r) && r.kind == t.kind
    decreases Weight(t), 1
  {
    var m := Rebalanced(t, order);
    if IsChainOperator(m.kind) then
      var operands := Collect(m, m.kind);
      assert |operands| >= 2;
      Build(SortBy(operands, order), m.kind)
    else m
  }

  /** The node with its children replaced by their balanced forms: what a
    * pass leaves in place of the node it was given. */
  function Rebalanced(t: Tree, order: Order): (r: Tree)
    requires Shaped(t)
    ensures Shaped(r) && r.kind == t.kind && r.value == t.value
    decreases Weight(t), 0
  {
    if IsOperator(t.kind) then Node(t.kind, t.value, Balance(t.left, order), Balance(t.right, order), Null)
    else if t.kind == S.Function then Node(t.kind, t.value, Null, Null, Balance(t.param, order))
    else t
  }

  // ---------------------------------------------------------------------
  // Rebuilding keeps the chain, its size and its value

  /** The operators' nesting depth along the `op` chain at `t`. */
  function ChainDepth(t: Tree, op: S.SyntaxType): nat
  {
    if t.Node? && t.kind == op then 1 + Max(ChainDepth(t.left, op), ChainDepth(t.right, op)) else 0
  }

  function Max(a: nat, b: nat): nat
  {
    if a < b then b else a
  }

  function Pow2(k: nat): (r: nat)
    ensures r >= 1
  {
    if k == 0 then 1 else 2 * Pow2(k - 1)
  }

  predicate NoneOfKind(ts: seq<Tree>, op: S.SyntaxType)
  {
    forall i :: 0 <= i < |ts| ==> ts[i].Null? || ts[i].kind != op
  }

  /** Collecting a rebuilt chain gives back the operands in their order. */
  lemma {:induction false} CollectBuild(ts: seq<Tree>, op: S.SyntaxType)
    requires ts != [] && AllShaped(ts) && IsChainOperator(op) && NoneOfKind(ts, op)
    ensures Collect(Build(ts, op), op) == ts
    decreases |ts|
  {
    if |ts| >= 2 {
      var mid := |ts| / 2;
      HalvesShapedAndFree(ts, op, mid);
      CollectBuild(ts[..mid], op);
      CollectBuild(ts[mid..], op);
      CollectJoin(ts, op);
    }
  }

  lemma HalvesShapedAndFree(ts: seq<Tree>, op: S.SyntaxType, mid: nat)
    requires mid <= |ts| && AllShaped(ts) && NoneOfKind(ts, op)
    ensures AllShaped(ts[..mid]) && NoneOfKind(ts[..mid], op)
    ensures AllShaped(ts[mid..]) && NoneOfKind(ts[mid..], op)
  {
    var a, b := ts[..mid], ts[mid..];
    forall i | 0 <= i < |a| ensures Shaped(a[i]) && (a[i].Null? || a[i].kind != op) {
      assert a[i] == ts[i];
    }
    forall i | 0 <= i < |b| ensures Shaped(b[i]) && (b[i].Null? || b[i].kind != op) {
      assert b[i] == ts[mid + i];
    }
  }

  /** The split step of `CollectBuild`, given both halves. */
  lemma CollectJoin(ts: seq<Tree>, op: S.SyntaxType)
    requires |ts| >= 2 && AllShaped(ts) && IsChainOperator(op)
    requires AllShaped(ts[..|ts| / 2]) && AllShaped(ts[|ts| / 2..])
    requires Collect(Build(ts[..|ts| / 2], op), op) == ts[..|ts| / 2]
    requires Collect(Build(ts[|ts| / 2..], op), op) == ts[|ts| / 2..]
    ensures Collect(Build(ts, op), op) == ts
  {
    var mid := |ts| / 2;
    var a, b := ts[..mid], ts[mid..];
    var t := Build(ts, op);
    assert t == Node(op, None, Build(a, op), Build(b, op), Null);
    assert Collect(t, op) == Collect(Build(a, op), op) + Collect(Build(b, op), op);
    assert ts == a + b;
  }

  /** A rebuilt chain of at most 2^k operands is at most k operators deep:
    * the tree is balanced. */
  lemma {:induction false} BuildDepth(ts: seq<Tree>, op: S.SyntaxType, k: nat)
    requires ts != [] && AllShaped(ts) && IsChainOperator(op) && NoneOfKind(ts, op)
    requires |ts| <= Pow2(k)
    ensures ChainDepth(Build(ts, op), op) <= k
    decreases |ts|
  {
    if |ts| >= 2 {
      var mid := |ts| / 2;
      HalfFits(|ts|, k);
      HalvesShapedAndFree(ts, op, mid);
      BuildDepth(ts[..mid], op, k - 1);
      BuildDepth(ts[mid..], op, k - 1);
      DepthJoin(ts, op, k);
    }
  }

  /** Both halves of at most `2^k` operands, two or more, hold at most
    * `2^(k-1)`. */
  lemma HalfFits(n: nat, k: nat)
    requires 2 <= n <= Pow2(k)
    ensures 1 <= k && n / 2 <= Pow2(k - 1) && n - n / 2 <= Pow2(k - 1)
  {
    assert k != 0;
    assert Pow2(k) == 2 * Pow2(k - 1);
  }

  /** The split step of `BuildDepth`, given both halves. */
  lemma DepthJoin(ts: seq<Tree>, op: S.SyntaxType, k: nat)
    requires |ts| >= 2 && 1 <= k && AllShaped(ts) && IsChainOperator(op)
    requires AllShaped(ts[..|ts| / 2]) && AllShaped(ts[|ts| / 2..])
    requires ChainDepth(Build(ts[..|ts| / 2], op), op) <= k - 1
    requires ChainDepth(Build(ts[|ts| / 2..], op), op) <= k - 1
    ensures ChainDepth(Build(ts, op), op) <= k
  {
  }

  function WeightSum(ts: seq<Tree>): nat
  {
    if ts == [] then 0 else Weight(ts[0]) + WeightSum(ts[1..])
  }

  lemma {:induction false} WeightSumAppend(a: seq<Tree>, b: seq<Tree>)
    ensures WeightSum(a + b) == WeightSum(a) + WeightSum(b)
  {
    if a != [] {
      assert (a + b)[1..] == a[1..] + b;
      WeightSumAppend(a[1..], b);
    } else {
      assert a + b == b;
    }
  }

  lemma {:induction false} SortWeight(ts: seq<Tree>, order: Order)
    requires AllShaped(ts)
    ensures WeightSum(SortBy(ts, order)) == WeightSum(ts)
  {
    if ts != [] {
      SortWeight(ts[1..], order);
      InsertWeight(ts[0], SortBy(ts[1..], order), order);
    }
  }

  lemma {:induction false} InsertWeight(x: Tree, s: seq<Tree>, order: Order)
    requires Shaped(x) && AllShaped(s)
    ensures WeightSum(Insert(x, s, order)) == Weight(x) + WeightSum(s)
  {
    if s != [] && !Precedes(x, s[0], order) {
      InsertWeight(x, s[1..], order);
    }
  }

  /** A chain of n operands holds n - 1 operators besides the operands. */
  lemma {:induction false} CollectWeight(t: Tree, op: S.SyntaxType)
    requires Shaped(t) && IsChainOperator(op)
    ensures Weight(t) + 1 == WeightSum(Collect(t, op)) + |Collect(t, op)|
  {
    if t.kind == op {
      ShapedSides(t);
      CollectWeight(t.left, op);
      CollectWeight(t.right, op);
      WeightSumAppend(Collect(t.left, op), Collect(t.right, op));
    }
  }

  lemma {:induction false} BuildWeight(ts: seq<Tree>, op: S.SyntaxType)
    requires ts != [] && AllShaped(ts) && IsChainOperator(op)
    ensures Weight(Build(ts, op)) + 1 == WeightSum(ts) + |ts|
    decreases |ts|
  {
    if |ts| >= 2 {
      var mid := |ts| / 2;
      var a, b := ts[..mid], ts[mid..];
      assert AllShaped(a) && AllShaped(b);
      BuildWeight(a, op);
      BuildWeight(b, op);
      WeightJoin(ts, op);
    }
  }

  /** The split step of `BuildWeight`, given both halves. */
  lemma WeightJoin(ts: seq<Tree>, op: S.SyntaxType)
    requires |ts| >= 2 && AllShaped(ts) && IsChainOperator(op)
    requires AllShaped(ts[..|ts| / 2]) && AllShaped(ts[|ts| / 2..])
    requires Weight(Build(ts[..|ts| / 2], op)) + 1 == WeightSum(ts[..|ts| / 2]) + |ts| / 2
    requires Weight(Build(ts[|ts| / 2..], op)) + 1 == WeightSum(ts[|ts| / 2..]) + (|ts| - |ts| / 2)
    ensures Weight(Build(ts, op)) + 1 == WeightSum(ts) + |ts|
  {
    var mid := |ts| / 2;
    var a, b := ts[..mid], ts[mid..];
    assert Build(ts, op) == Node(op, None, Build(a, op), Build(b, op), Null);
    assert ts == a + b;
    WeightSumAppend(a, b);
  }

  /** Balancing keeps the number of nodes. */
  lemma {:induction false} BalanceKeepsWeight(t: Tree, order: Order)
    requires Shaped(t)
    ensures Weight(Balance(t, order)) == Weight(t)
    decreases Weight(t), 1
  {
    RebalancedKeepsWeight(t, order);
    var m := Rebalanced(t, order);
    if IsChainOperator(m.kind) {
      RebuildKeepsWeight(m, order);
    }
  }

  lemma RebuildKeepsWeight(m: Tree, order: Order)
    requires Shaped(m) && IsChainOperator(m.kind)
    ensures Weight(Build(SortBy(Collect(m, m.kind), order), m.kind)) == Weight(m)
  {
    var operands := Collect(m, m.kind);
    CollectWeight(m, m.kind);
    SortWeight(operands, order);
    BuildWeight(SortBy(operands, order), m.kind);
  }

  lemma {:induction false} RebalancedKeepsWeight(t: Tree, order: Order)
    requires Shaped(t)
    ensures Weight(Rebalanced(t, order)) == Weight(t)
    decreases Weight(t), 0
  {
    if IsOperator(t.kind) {
      ShapedSides(t);
      BalanceKeepsWeight(t.left, order);
      BalanceKeepsWeight(t.right, order);
    } else if t.kind == S.Function {
      BalanceKeepsWeight(t.param, order);
    }
  }

  /** After balancing, a plus or times node heads a chain whose operands
    * are those of the chain below it, children balanced, in sorted order. */
  lemma BalancedChainSorted(t: Tree, order: Order)
    requires Shaped(t) && IsChainOperator(t.kind)
    ensures var operands := Collect(Rebalanced(t, order), t.kind);
      Collect(Balance(t, order), t.kind) == SortBy(operands, order) &&
      Sorted(Collect(Balance(t, order), t.kind), order) &&
      multiset(Collect(Balance(t, order), t.kind)) == multiset(operands)
  {
    var operands := Collect(Rebalanced(t, order), t.kind);
    var sorted := SortBy(operands, order);
    assert NoneOfKind(sorted, t.kind) by {
      forall i | 0 <= i < |sorted|
        ensures sorted[i].kind != t.kind
      {
        assert sorted[i] in multiset(operands);
      }
    }
    CollectBuild(sorted, t.kind);
    SortSorted(operands, order);
  }

  /** After balancing, a plus or times chain of at most 2^k operands is at
    * most k operators deep. */
  lemma BalancedChainShallow(t: Tree, order: Order, k: nat)
    requires Shaped(t) && IsChainOperator(t.kind)
    requires |Collect(Rebalanced(t, order), t.kind)| <= Pow2(k)
    ensures ChainDepth(Balance(t, order), t.kind) <= k
  {
    var operands := Collect(Rebalanced(t, order), t.kind);
    var sorted := SortBy(operands, order);
    assert NoneOfKind(sorted, t.kind) by {
      forall i | 0 <= i < |sorted|
        ensures sorted[i].Null? || sorted[i].kind != t.kind
      {
        assert sorted[i] in multiset(operands);
      }
    }
    BuildDepth(sorted, t.kind, k);
  }

  // ---------------------------------------------------------------------
  // A second pass in the same order changes nothing

  /** Sorting operands already in order leaves them where they are. */
  lemma {:induction false} SortSortedIsIdentity(ts: seq<Tree>, order: Order)
    requires AllShaped(ts) && Sorted(ts, order)
    ensures SortBy(ts, order) == ts
  {
    if ts != [] {
      assert Sorted(ts[1..], order);
      SortSortedIsIdentity(ts[1..], order);
      assert ts == [ts[0]] + ts[1..];
    }
  }

  /** Every operand is its own balanced form. */
  predicate AllFixed(ts: seq<Tree>, order: Order)
    requires AllShaped(ts)
  {
    forall i :: 0 <= i < |ts| ==> Balance(ts[i], order) == ts[i]
  }

  /** A chain rebuilt from sorted operands that are their own balanced
    * forms is its own balanced form. */
  lemma {:induction false} BuildIsFixed(ts: seq<Tree>, op: S.SyntaxType, order: Order)
    requires ts != [] && AllShaped(ts) && IsChainOperator(op) && NoneOfKind(ts, op)
    requires Sorted(ts, order) && AllFixed(ts, order)
    ensures Balance(Build(ts, op), order) == Build(ts, op)
    decreases |ts|
  {
    if |ts| >= 2 {
      var mid := |ts| / 2;
      var left, right := ts[..mid], ts[mid..];
      assert Sorted(left, order) && AllFixed(left, order) && NoneOfKind(left, op);
      assert Sorted(right, order) && AllFixed(right, order) && NoneOfKind(right, op);
      BuildIsFixed(left, op, order);
      BuildIsFixed(right, op, order);
      BuildFixedStep(ts, op, order);
    }
  }

  /** The split step of `BuildIsFixed`, given both halves. */
  lemma BuildFixedStep(ts: seq<Tree>, op: S.SyntaxType, order: Order)
    requires |ts| >= 2 && AllShaped(ts) && IsChainOperator(op) && NoneOfKind(ts, op)
    requires Sorted(ts, order) && AllFixed(ts, order)
    requires Balance(Build(ts[..|ts| / 2], op), order) == Build(ts[..|ts| / 2], op)
    requires Balance(Build(ts[|ts| / 2..], op), order) == Build(ts[|ts| / 2..], op)
    ensures Balance(Build(ts, op), order) == Build(ts, op)
  {
    CollectBuild(ts, op);
    SortSortedIsIdentity(ts, order);
  }

  /** Balancing twice in the same order gives what balancing once gives;
    * and the operands of a balanced chain are their own balanced forms. */
  lemma {:induction false} BalanceIdempotent(t: Tree, order: Order)
    requires Shaped(t)
    ensures Balance(Balance(t, order), order) == Balance(t, order)
    ensures IsChainOperator(t.kind) ==> AllFixed(Collect(Balance(t, order), t.kind), order)
    decreases Weight(t)
  {
    if IsOperator(t.kind) {
      ShapedSides(t);
      BalanceIdempotent(t.left, order);
      BalanceIdempotent(t.right, order);
      if IsChainOperator(t.kind) {
        ChainIsFixed(t, order);
      }
    } else if t.kind == S.Function {
      BalanceIdempotent(t.param, order);
    }
  }

  lemma ChainIsFixed(t: Tree, order: Order)
    requires Shaped(t) && IsChainOperator(t.kind)
    requires Shaped(t.left) && Balance(Balance(t.left, order), order) == Balance(t.left, order)
    requires IsChainOperator(t.left.kind) ==> AllFixed(Collect(Balance(t.left, order), t.left.kind), order)
    requires Shaped(t.right) && Balance(Balance(t.right, order), order) == Balance(t.right, order)
    requires IsChainOperator(t.right.kind) ==> AllFixed(Collect(Balance(t.right, order), t.right.kind), order)
    ensures Balance(Balance(t, order), order) == Balance(t, order)
    ensures AllFixed(Collect(Balance(t, order), t.kind), order)
  {
    var op := t.kind;
    var operands := Collect(Rebalanced(t, order), op);
    SidesFixed(t, order);
    var sorted := SortBy(operands, order);
    assert AllFixed(sorted, order) && NoneOfKind(sorted, op) by {
      forall i | 0 <= i < |sorted|
        ensures Balance(sorted[i], order) == sorted[i] && (sorted[i].Null? || sorted[i].kind != op)
      {
        assert sorted[i] in multiset(operands);
      }
    }
    SortSorted(operands, order);
    BuildIsFixed(sorted, op, order);
    CollectBuild(sorted, op);
  }

  lemma SidesFixed(t: Tree, order: Order)
    requires Shaped(t) && IsChainOperator(t.kind)
    requires Shaped(t.left) && Balance(Balance(t.left, order), order) == Balance(t.left, order)
    requires IsChainOperator(t.left.kind) ==> AllFixed(Collect(Balance(t.left, order), t.left.kind), order)
    requires Shaped(t.right) && Balance(Balance(t.right, order), order) == Balance(t.right, order)
    requires IsChainOperator(t.right.kind) ==> AllFixed(Collect(Balance(t.right, order), t.right.kind), order)
    ensures AllFixed(Collect(Rebalanced(t, order), t.kind), order)
  {
    var op := t.kind;
    var l, r := Collect(Balance(t.left, order), op), Collect(Balance(t.right, order), op);
    assert Collect(Rebalanced(t, order), op) == l + r;
    assert AllFixed(l, order) && AllFixed(r, order);
    AllFixedAppend(l, r, order);
  }

  lemma AllFixedAppend(a: seq<Tree>, b: seq<Tree>, order: Order)
    requires AllShaped(a) && AllShaped(b) && AllFixed(a, order) && AllFixed(b, order)
    ensures AllShaped(a + b) && AllFixed(a + b, order)
  {
    forall i | 0 <= i < |a + b|
      ensures Shaped((a + b)[i]) && Balance((a + b)[i], order) == (a + b)[i]
    {
      if i < |a| {
        assert (a + b)[i] == a[i];
      } else {
        assert (a + b)[i] == b[i - |a|];
      }
    }
  }

  // ---------------------------------------------------------------------
  // Rebuilding keeps the value

  /** The chain operator's operation. */
  function Combine<V(!new)>(op: S.SyntaxType, A: Algebra<V>, x: V, y: V): V
  {
    if op == S.OperationAdd then A.add(x, y) else A.mul(x, y)
  }

  /** The chain operator's unit. */
  function Unit<V(!new)>(op: S.SyntaxType, A: Algebra<V>): V
  {
    if op == S.OperationAdd then A.zero else A.one
  }

  /** The value of the operands joined by `op`. */
  function Fold<V(!new)>(ts: seq<Tree>, op: S.SyntaxType, M: Meaning<V>): V
  {
    if ts == [] then Unit(op, M.alg) else Combine(op, M.alg, Value(ts[0], M), Fold(ts[1..], op, M))
  }

  lemma CombineLaws<V(!new)>(op: S.SyntaxType, A: Algebra<V>, x: V, y: V, z: V)
    requires Laws(A)
    ensures Combine(op, A, Combine(op, A, x, y), z) == Combine(op, A, x, Combine(op, A, y, z))
    ensures Combine(op, A, x, y) == Combine(op, A, y, x)
    ensures Combine(op, A, x, Unit(op, A)) == x && Combine(op, A, Unit(op, A), x) == x
  {
    AddAssoc(A, x, y, z);
    MulAssoc(A, x, y, z);
    AddComm(A, x, y);
    MulComm(A, x, y);
    Units(A, x);
    AddComm(A, x, A.zero);
    MulComm(A, x, A.one);
  }

  lemma {:induction false} FoldAppend<V(!new)>(a: seq<Tree>, b: seq<Tree>, op: S.SyntaxType, M: Meaning<V>)
    requires Laws(M.alg)
    ensures Fold(a + b, op, M) == Combine(op, M.alg, Fold(a, op, M), Fold(b, op, M))
  {
    if a == [] {
      assert a + b == b;
      CombineLaws(op, M.alg, Fold(b, op, M), Fold(b, op, M), Fold(b, op, M));
    } else {
      assert (a + b)[1..] == a[1..] + b;
      FoldAppend(a[1..], b, op, M);
      CombineLaws(op, M.alg, Value(a[0], M), Fold(a[1..], op, M), Fold(b, op, M));
    }
  }

  lemma {:induction false} InsertFold<V(!new)>(x: Tree, s: seq<Tree>, order: Order, op: S.SyntaxType, M: Meaning<V>)
    requires Shaped(x) && AllShaped(s) && Laws(M.alg)
    ensures Fold(Insert(x, s, order), op, M) == Combine(op, M.alg, Value(x, M), Fold(s, op, M))
  {
    if s != [] && !Precedes(x, s[0], order) {
      InsertFold(x, s[1..], order, op, M);
      var A := M.alg;
      var u, v, w := Value(s[0], M), Value(x, M), Fold(s[1..], op, M);
      calc {
        Fold(Insert(x, s, order), op, M);
        Combine(op, A, u, Combine(op, A, v, w));
        { CombineLaws(op, A, u, v, w); }
        Combine(op, A, Combine(op, A, u, v), w);
        { CombineLaws(op, A, v, u, w); }
        Combine(op, A, Combine(op, A, v, u), w);
        { CombineLaws(op, A, v, u, w); }
        Combine(op, A, v, Combine(op, A, u, w));
      }
    }
  }

  /** Reordering the operands keeps the value of their chain. */
  lemma {:induction false} SortFold<V(!new)>(ts: seq<Tree>, order: Order, op: S.SyntaxType, M: Meaning<V>)
    requires AllShaped(ts) && Laws(M.alg)
    ensures Fold(SortBy(ts, order), op, M) == Fold(ts, op, M)
  {
    if ts != [] {
      SortFold(ts[1..], order, op, M);
      InsertFold(ts[0], SortBy(ts[1..], order), order, op, M);
    }
  }

  /** A tree's value is the value of its `op` chain's operands joined. */
  lemma {:induction false} CollectFold<V(!new)>(t: Tree, op: S.SyntaxType, M: Meaning<V>)
    requires Shaped(t) && IsChainOperator(op) && Laws(M.alg)
    ensures Fold(Collect(t, op), op, M) == Value(t, M)
  {
    if t.kind == op {
      ShapedSides(t);
      CollectFold(t.left, op, M);
      CollectFold(t.right, op, M);
      FoldAppend(Collect(t.left, op), Collect(t.right, op), op, M);
    } else {
      CombineLaws(op, M.alg, Value(t, M), Value(t, M), Value(t, M));
    }
  }

  lemma ChainValue<V(!new)>(t: Tree, M: Meaning<V>)
    requires t.Node? && IsChainOperator(t.kind)
    ensures Value(t, M) == Combine(t.kind, M.alg, Value(t.left, M), Value(t.right, M))
  {
  }

  /** A rebuilt chain's value is its operands' values joined. */
  lemma {:induction false} BuildFold<V(!new)>(ts: seq<Tree>, op: S.SyntaxType, M: Meaning<V>)
    requires ts != [] && AllShaped(ts) && IsChainOperator(op) && Laws(M.alg)
    ensures Value(Build(ts, op), M) == Fold(ts, op, M)
    decreases |ts|
  {
    if |ts| == 1 {
      CombineLaws(op, M.alg, Value(ts[0], M), Value(ts[0], M), Value(ts[0], M));
    } else {
      var mid := |ts| / 2;
      HalvesShaped(ts, mid);
      BuildFold(ts[..mid], op, M);
      BuildFold(ts[mid..], op, M);
      FoldAppend(ts[..mid], ts[mid..], op, M);
      FoldJoin(ts, op, M);
    }
  }

  lemma HalvesShaped(ts: seq<Tree>, mid: nat)
    requires mid <= |ts| && AllShaped(ts)
    ensures AllShaped(ts[..mid]) && AllShaped(ts[mid..])
  {
    assert forall i :: 0 <= i < |ts[mid..]| ==> ts[mid..][i] == ts[mid + i];
  }

  /** The split step of `BuildFold`, given both halves and how a fold
    * splits between them. */
  lemma FoldJoin<V(!new)>(ts: seq<Tree>, op: S.SyntaxType, M: Meaning<V>)
    requires |ts| >= 2 && AllShaped(ts) && IsChainOperator(op)
    requires Value(Build(ts[..|ts| / 2], op), M) == Fold(ts[..|ts| / 2], op, M)
    requires Value(Build(ts[|ts| / 2..], op), M) == Fold(ts[|ts| / 2..], op, M)
    requires Fold(ts[..|ts| / 2] + ts[|ts| / 2..], op, M) == Combine(op, M.alg, Fold(ts[..|ts| / 2], op, M), Fold(ts[|ts| / 2..], op, M))
    ensures Value(Build(ts, op), M) == Fold(ts, op, M)
  {
    var mid := |ts| / 2;
    HalvesFold(ts, op, M);
    Rejoin(ts, mid);
  }

  /** A sequence is its prefix followed by the rest. */
  lemma Rejoin<T>(s: seq<T>, i: nat)
    requires i <= |s|
    ensures s[..i] + s[i..] == s
  {
  }

  /** The split step of `BuildFold`: a rebuilt chain joins the values of
    * its two halves. */
  lemma HalvesFold<V(!new)>(ts: seq<Tree>, op: S.SyntaxType, M: Meaning<V>)
    requires |ts| >= 2 && AllShaped(ts) && IsChainOperator(op)
    requires Value(Build(ts[..|ts| / 2], op), M) == Fold(ts[..|ts| / 2], op, M)
    requires Value(Build(ts[|ts| / 2..], op), M) == Fold(ts[|ts| / 2..], op, M)
    ensures Value(Build(ts, op), M) == Combine(op, M.alg, Fold(ts[..|ts| / 2], op, M), Fold(ts[|ts| / 2..], op, M))
  {
    var mid := |ts| / 2;
    var t := Build(ts, op);
    assert t == Node(op, None, Build(ts[..mid], op), Build(ts[mid..], op), Null);
    ChainValue(t, M);
  }

  lemma RebuildKeepsValue<V(!new)>(m: Tree, order: Order, M: Meaning<V>)
    requires Shaped(m) && IsChainOperator(m.kind) && Laws(M.alg)
    ensures Value(Build(SortBy(Collect(m, m.kind), order), m.kind), M) == Value(m, M)
  {
    var operands := Collect(m, m.kind);
    CollectFold(m, m.kind, M);
    SortFold(operands, order, m.kind, M);
    BuildFold(SortBy(operands, order), m.kind, M);
  }

  /** Balancing keeps the value wherever plus and times are associative
    * and commutative. */
  lemma {:induction false} BalanceKeepsValue<V(!new)>(t: Tree, order: Order, M: Meaning<V>)
    requires Shaped(t) && Laws(M.alg)
    ensures Value(Balance(t, order), M) == Value(t, M)
    decreases Weight(t), 1
  {
    RebalancedKeepsValue(t, order, M);
    var m := Rebalanced(t, order);
    if IsChainOperator(m.kind) {
      RebuildKeepsValue(m, order, M);
    }
  }

  lemma {:induction false} RebalancedKeepsValue<V(!new)>(t: Tree, order: Order, M: Meaning<V>)
    requires Shaped(t) && Laws(M.alg)
    ensures Value(Rebalanced(t, order), M) == Value(t, M)
    decreases Weight(t), 0
  {
    if IsOperator(t.kind) {
      ShapedSides(t);
      BalanceKeepsValue(t.left, order, M);
      BalanceKeepsValue(t.right, order, M);
    } else if t.kind == S.Function {
      BalanceKeepsValue(t.param, order, M);
    }
  }

  // ---------------------------------------------------------------------
  // The equivalent forms of an expression

  /** The first form: every chain sorted heavier operand first. */
  function DescendingForm(t: Tree): (r: Tree)
    requires Shaped(t)
    ensures Shaped(r) && r.kind == t.kind
  {
    Balance(t, HeavierFirst)
  }

  /** The second form: the tree the first pass left behind, every chain
    * sorted again by text. */
  function TextForm(t: Tree): (r: Tree)
    requires Shaped(t)
    ensures Shaped(r) && r.kind == t.kind
  {
    Balance(Rebalanced(t, HeavierFirst), ByText)
  }

  /** The distinct texts of the two forms, the first form first; the parse
    * error when the tokens do not form one expression. */
  function EquivalentForms(tokens: seq<Lexical.Token>): (r: Result<seq<string>, ParseError>)
    ensures r.Success? <==> ParseAll(tokens).Success?
    ensures r.Failure? ==> r.error == ParseAll(tokens).error
    ensures r.Success? ==> 1 <= |r.value| <= 2 && (|r.value| == 2 ==> r.value[0] != r.value[1])
  {
    match ParseAll(tokens)
    case Failure(e) => Failure(e)
    case Success(tree) =>
      var first := Expression(DescendingForm(tree));
      var second := Expression(TextForm(tree));
      Success(if first == second then [first] else [first, second])
  }

  /** Every form prints a tree with the value of the parsed expression, and
    * the forms are those of the two orders, each once. */
  lemma FormsMeanTheInput<V(!new)>(tokens: seq<Lexical.Token>, M: Meaning<V>)
    requires ParseAll(tokens).Success? && Laws(M.alg)
    ensures var t := ParseAll(tokens).value;
      var forms := EquivalentForms(tokens).value;
      Value(DescendingForm(t), M) == Value(t, M) &&
      Value(TextForm(t), M) == Value(t, M) &&
      forms[0] == Expression(DescendingForm(t)) &&
      forms[|forms| - 1] == Expression(TextForm(t))
  {
    var t := ParseAll(tokens).value;
    BalanceKeepsValue(t, HeavierFirst, M);
    RebalancedKeepsValue(t, HeavierFirst, M);
    BalanceKeepsValue(Rebalanced(t, HeavierFirst), ByText, M);
  }

  /** Parses the tokens, rejects leftover tokens, and prints the two
    * balanced forms. */
  method GenerateEquivalentExpressions(tokens: seq<Lexical.Token>) returns (r: Result<seq<string>, ParseError>)
    ensures r == EquivalentForms(tokens)
  {
    var parser := new Parser(tokens);
    var tree := parser.ParseExpression();
    if tree.Failure? {
      return Failure(tree.error);
    }
    if parser.position != |tokens| {
      return Failure(ExtraTokens);
    }
    ExpressionShaped(tokens, 0);
    var desc := Expression(Balance(tree.value, HeavierFirst));
    var lex := Expression(Balance(Rebalanced(tree.value, HeavierFirst), ByText));
    if desc == lex {
      r := Success([desc]);
    } else {
      r := Success([desc, lex]);
    }
  }
}
