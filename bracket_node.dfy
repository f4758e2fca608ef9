/**
 * The immutable expression nodes of the bracket expander: a leaf holding a
 * token's text, a unary operation on one child and a binary operation on
 * two, with the printer that puts brackets only where the precedence of the
 * parent operation needs them.
 */
module BracketNode {
  import opened Wrappers
  import opened Algebraic
  import C = CommutativeNode

  /** A leaf keeps its token's text, which may be missing; an operation
    * keeps the text of its operator. */
  datatype Node =
    | Leaf(value: Option<string>)
    | Unary(operation: string, child: Node)
    | Binary(operation: string, left: Node, right: Node)

  /** Plus and minus bind weakest, times and divide tighter, and any other
    * operation text at 0. */
  function Precedence(op: string): (p: int)
    ensures p == 1 <==> op == "+" || op == "-"
    ensures p == 2 <==> op == "*" || op == "/"
    ensures p == 0 <==> op != "+" && op != "-" && op != "*" && op != "/"
  {
    if op == "+" || op == "-" then 1
    else if op == "*" || op == "/" then 2
    else 0
  }

  /** Whether a child printed under an operation of precedence `parentPrec`
    * is bracketed.  A unary node binds at 3; a binary child is bracketed
    * when it binds more weakly, or equally on the right side. */
  predicate NeedsParens(n: Node, parentPrec: int, isLeft: bool)
  {
    match n
    case Leaf(_) => false
    case Unary(_, _) => 3 < parentPrec
    case Binary(op, _, _) => Precedence(op) < parentPrec || (Precedence(op) == parentPrec && !isLeft)
  }

  function Wrapped(s: string, parens: bool): string
  {
    if parens then "(" + s + ")" else s
  }

  /** The text of a node: operators and operands side by side, with no
    * spaces; a missing leaf text prints as "null". */
  function ToExpression(n: Node): string
  {
    match n
    case Leaf(v) => if v.Some? then v.value else "null"
    case Unary(op, c) => op + Wrapped(ToExpression(c), NeedsParens(c, 3, false))
    case Binary(op, l, r) =>
      var p := Precedence(op);
      Wrapped(ToExpression(l), NeedsParens(l, p, true)) + op + Wrapped(ToExpression(r), NeedsParens(r, p, false))
  }

  /** Under a unary operation a binary child is always bracketed and any
    * other child never; under a binary operation a unary child never is. */
  lemma UnaryBrackets(n: Node, parentPrec: int, isLeft: bool)
    ensures NeedsParens(n, 3, isLeft) <==> n.Binary?
    ensures n.Unary? && parentPrec <= 2 ==> !NeedsParens(n, parentPrec, isLeft)
  {
  }

  /** A difference chained to the left prints without brackets, and
    * chained to the right keeps them. */
  lemma MinusChainExample()
    ensures var a, b, c := Leaf(Some("a")), Leaf(Some("b")), Leaf(Some("c"));
      ToExpression(Binary("-", Binary("-", a, b), c)) == "a-b-c" &&
      ToExpression(Binary("-", a, Binary("-", b, c))) == "a-(b-c)"
  {
  }

  /** No leaf text or operator holds a bracket. */
  predicate PlainTexts(n: Node)
  {
    match n
    case Leaf(v) => v.Some? ==> C.BracketFree(v.value)
    case Unary(op, c) => C.BracketFree(op) && PlainTexts(c)
    case Binary(op, l, r) => C.BracketFree(op) && PlainTexts(l) && PlainTexts(r)
  }

  lemma WrappedBalanced(s: string, parens: bool)
    requires C.Balanced(s)
    ensures C.Balanced(Wrapped(s, parens))
  {
    if parens {
      C.BalancedWrap(s);
    }
  }

  /** With plain texts, every printed node has balanced brackets. */
  lemma {:induction false} PrintBalanced(n: Node)
    requires PlainTexts(n)
    ensures C.Balanced(ToExpression(n))
  {
    match n
    case Leaf(v) =>
      if v.Some? {
        C.FreeIsBalanced(v.value);
      } else {
        C.FreeIsBalanced("null");
      }
    case Unary(op, c) =>
      PrintBalanced(c);
      C.FreeIsBalanced(op);
      WrappedBalanced(ToExpression(c), NeedsParens(c, 3, false));
      C.BalancedConcat(op, Wrapped(ToExpression(c), NeedsParens(c, 3, false)));
    case Binary(op, l, r) =>
      var p := Precedence(op);
      var ls, rs := Wrapped(ToExpression(l), NeedsParens(l, p, true)), Wrapped(ToExpression(r), NeedsParens(r, p, false));
      PrintBalanced(l);
      PrintBalanced(r);
      C.FreeIsBalanced(op);
      WrappedBalanced(ToExpression(l), NeedsParens(l, p, true));
      WrappedBalanced(ToExpression(r), NeedsParens(r, p, false));
      C.BalancedConcat(ls, op);
      C.BalancedConcat(ls + op, rs);
  }

  /** What the nodes stand for: the algebra for the four arithmetic
    * operators and unary minus, the meaning of each leaf text, and
    * uninterpreted meanings for any other operation text. */
  datatype Semantics<!V> = Semantics(
    alg: Algebra<V>,
    operand: Option<string> -> V,
    unary: (string, V) -> V,
    binary: (string, V, V) -> V)

  function Value<V(!new)>(n: Node, M: Semantics<V>): V
  {
    match n
    case Leaf(v) => M.operand(v)
    case Unary(op, c) => if op == "-" then M.alg.neg(Value(c, M)) else M.unary(op, Value(c, M))
    case Binary(op, l, r) =>
      var a, b := Value(l, M), Value(r, M);
      if op == "+" then M.alg.add(a, b)
      else if op == "-" then M.alg.add(a, M.alg.neg(b))
      else if op == "*" then M.alg.mul(a, b)
      else if op == "/" then M.alg.mul(a, M.alg.inv(b))
      else M.binary(op, a, b)
  }
}
