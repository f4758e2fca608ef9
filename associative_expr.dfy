/**
 * The expressions of the associative rewrite engine and their printer.  An
 * expression is a literal, a unary node (`-` for a negation, `/` for a
 * reciprocal), a function call or a binary node, and it is printed with the
 * fewest parentheses its parent's precedence allows; a sum with a negated
 * side prints as a subtraction and a product with a reciprocal side as a
 * division.  The engine also carries a second, parallel hierarchy
 * (`Expression`) whose printer is a copy of this one.
 */
module AssociativeExpr {
  import opened Wrappers
  import Lexical

  /** A literal's text and a call's name may be missing (`null` in Java). */
  datatype Expr =
    | Literal(value: Option<string>, kind: Lexical.TokenType)
    | UnaryExpr(op: string, operand: Expr)
    | FunctionExpr(name: Option<string>, arg: Expr)
    | BinaryExpr(left: Expr, op: string, right: Expr)

  /** A text as string concatenation prints it: a missing one as "null". */
  function TextOf(v: Option<string>): string
  {
    if v.Some? then v.value else "null"
  }

  /** Every literal in `e` carries its text. */
  predicate LiteralsTexted(e: Expr)
  {
    match e
    case Literal(v, _) => v.Some?
    case UnaryExpr(_, x) => LiteralsTexted(x)
    case FunctionExpr(_, x) => LiteralsTexted(x)
    case BinaryExpr(l, _, r) => LiteralsTexted(l) && LiteralsTexted(r)
  }

  /** The binding strength of a binary operator: 1 for plus and minus,
    * 2 for times and divide, 0 for anything else. */
  function Prec(op: string): int
  {
    if op == "+" || op == "-" then 1
    else if op == "*" || op == "/" then 2
    else 0
  }

  function Wrap(s: string, parens: bool): string
  {
    if parens then "(" + s + ")" else s
  }

  /** Prints `e` as the child of a node of precedence `parentPrec`. */
  function ToStr(e: Expr, parentPrec: int): string
    decreases e, 1
  {
    match e
    case Literal(v, _) => TextOf(v)
    case UnaryExpr(op, x) =>
      if op == "-" then Wrap("-" + ToStr(x, 3), parentPrec >= 3)
      else if op == "/" then Wrap("1/" + ToStr(x, 3), parentPrec > 2)
      else ""
    case FunctionExpr(name, arg) => TextOf(name) + "(" + ToStr(arg, 0) + ")"
    case BinaryExpr(l, op, r) => Wrap(BinaryBody(l, op, r), Prec(op) <= parentPrec)
  }

  /** A binary node without its own parentheses: the children are printed
    * at the node's precedence, the right child of minus and divide one
    * higher; a plus with a negated side prints as a subtraction and a times
    * with a reciprocal side as a division, the other side first. */
  function BinaryBody(l: Expr, op: string, r: Expr): string
    decreases BinaryExpr(l, op, r), 0
  {
    var my := Prec(op);
    if op == "+" then
      if r.UnaryExpr? && r.op == "-" then ToStr(l, my) + "-" + ToStr(r.operand, my + 1)
      else if l.UnaryExpr? && l.op == "-" then ToStr(r, my) + "-" + ToStr(l.operand, my + 1)
      else ToStr(l, my) + "+" + ToStr(r, my)
    else if op == "*" then
      if r.UnaryExpr? && r.op == "/" then ToStr(l, my) + "/" + ToStr(r.operand, my + 1)
      else if l.UnaryExpr? && l.op == "/" then ToStr(r, my) + "/" + ToStr(l.operand, my + 1)
      else ToStr(l, my) + "*" + ToStr(r, my)
    else ToStr(l, my) + op + ToStr(r, my + (if op == "-" || op == "/" then 1 else 0))
  }

  /** The printed form of a whole expression: printed as the child of
    * precedence 0. */
  function ToString(e: Expr): string
  {
    ToStr(e, 0)
  }

  // ---------------------------------------------------------------------
  // Where parentheses go

  /** A plus, minus, times or divide node is printed bare at the top and in
    * parentheses exactly when its parent binds at least as strongly. */
  lemma BinaryParenthesisedIff(l: Expr, op: string, r: Expr, parentPrec: int)
    requires op in {"+", "-", "*", "/"}
    ensures Prec(op) >= 1
    ensures ToStr(BinaryExpr(l, op, r), parentPrec)
         == Wrap(ToString(BinaryExpr(l, op, r)), Prec(op) <= parentPrec)
  {
  }

  /** A negation is parenthesised exactly under a parent of precedence 3 or
    * more, a reciprocal exactly above 2; neither is at the top. */
  lemma UnaryParenthesisedIff(op: string, x: Expr, parentPrec: int)
    requires op == "-" || op == "/"
    ensures ToStr(UnaryExpr(op, x), parentPrec) == Wrap(ToString(UnaryExpr(op, x)), parentPrec >= 3)
    ensures ToString(UnaryExpr(op, x)) == (if op == "-" then "-" else "1/") + ToStr(x, 3)
  {
  }

  /** Literals and function calls are never wrapped, a missing text or name
    * prints as "null", and a call prints its argument as at the top. */
  lemma AtomsNeverParenthesised(e: Expr, parentPrec: int)
    requires e.Literal? || e.FunctionExpr?
    ensures ToStr(e, parentPrec) == ToString(e)
    ensures e.Literal? && e.value.Some? ==> ToString(e) == e.value.value
    ensures e.Literal? && e.value.None? ==> ToString(e) == "null"
    ensures e.FunctionExpr? ==> ToString(e) == TextOf(e.name) + "(" + ToString(e.arg) + ")"
  {
  }

  /** A sum nested in a sum keeps its parentheses on either side, so the
    * two groupings of three literals print differently. */
  lemma GroupingsPrintDifferently(a: Expr, b: Expr, c: Expr)
    requires a.Literal? && b.Literal? && c.Literal?
    ensures ToString(BinaryExpr(BinaryExpr(a, "+", b), "+", c))
         == "(" + TextOf(a.value) + "+" + TextOf(b.value) + ")+" + TextOf(c.value)
    ensures ToString(BinaryExpr(a, "+", BinaryExpr(b, "+", c)))
         == TextOf(a.value) + "+(" + TextOf(b.value) + "+" + TextOf(c.value) + ")"
  {
    var ab := BinaryExpr(a, "+", b);
    var bc := BinaryExpr(b, "+", c);
    assert BinaryBody(a, "+", b) == TextOf(a.value) + "+" + TextOf(b.value);
    assert BinaryBody(b, "+", c) == TextOf(b.value) + "+" + TextOf(c.value);
    assert ToStr(ab, 1) == "(" + TextOf(a.value) + "+" + TextOf(b.value) + ")";
    assert ToStr(bc, 1) == "(" + TextOf(b.value) + "+" + TextOf(c.value) + ")";
    assert BinaryBody(ab, "+", c) == ToStr(ab, 1) + "+" + TextOf(c.value);
    assert BinaryBody(a, "+", bc) == TextOf(a.value) + "+" + ToStr(bc, 1);
  }

  // ---------------------------------------------------------------------
  // The printed form is well parenthesised

  /** Opening minus closing parentheses. */
  function Opens(s: string): int
  {
    if s == [] then 0
    else Opens(s[..|s| - 1]) + (if s[|s| - 1] == '(' then 1 else if s[|s| - 1] == ')' then -1 else 0)
  }

  /** Every prefix closes no more than it opened, and the whole closes all. */
  predicate Balanced(s: string)
  {
    Opens(s) == 0 && forall k :: 0 <= k <= |s| ==> Opens(s[..k]) >= 0
  }

  predicate Plain(s: string)
  {
    forall k :: 0 <= k < |s| ==> s[k] != '(' && s[k] != ')'
  }

  /** The texts of literals, names and operators hold no parentheses. */
  predicate PlainAtoms(e: Expr)
  {
    match e
    case Literal(v, _) => Plain(TextOf(v))
    case UnaryExpr(_, x) => PlainAtoms(x)
    case FunctionExpr(name, arg) => Plain(TextOf(name)) && PlainAtoms(arg)
    case BinaryExpr(l, op, r) => Plain(op) && PlainAtoms(l) && PlainAtoms(r)
  }

  lemma {:induction false} OpensAppend(a: string, b: string)
    ensures Opens(a + b) == Opens(a) + Opens(b)
    decreases |b|
  {
    if b == [] {
      assert a + b == a;
    } else {
      var b' := b[..|b| - 1];
      assert (a + b)[..|a + b| - 1] == a + b';
      OpensAppend(a, b');
    }
  }

  lemma {:induction false} PlainBalanced(s: string)
    requires Plain(s)
    ensures Balanced(s)
    ensures forall k :: 0 <= k <= |s| ==> Opens(s[..k]) == 0
  {
    forall k | 0 <= k <= |s|
      ensures Opens(s[..k]) == 0
    {
      PlainOpens(s, k);
    }
    assert s[..|s|] == s;
  }

  lemma {:induction false} PlainOpens(s: string, k: nat)
    requires Plain(s) && k <= |s|
    ensures Opens(s[..k]) == 0
    decreases k
  {
    if k > 0 {
      assert s[..k][..k - 1] == s[..k - 1];
      PlainOpens(s, k - 1);
    }
  }

  lemma BalancedAppend(a: string, b: string)
    requires Balanced(a) && Balanced(b)
    ensures Balanced(a + b)
  {
    OpensAppend(a, b);
    forall k | 0 <= k <= |a + b|
      ensures Opens((a + b)[..k]) >= 0
    {
      if k <= |a| {
        assert (a + b)[..k] == a[..k];
      } else {
        assert (a + b)[..k] == a + b[..k - |a|];
        OpensAppend(a, b[..k - |a|]);
      }
    }
  }

  lemma BalancedWrap(s: string, parens: bool)
    requires Balanced(s)
    ensures Balanced(Wrap(s, parens))
  {
    if parens {
      var o: string := "(";
      var c: string := ")";
      assert Opens(o) == 1 by { assert o[..0] == []; }
      assert Opens(c) == -1 by { assert c[..0] == []; }
      OpensAppend(o, s);
      OpensAppend(o + s, c);
      var w := o + s + c;
      forall k | 0 <= k <= |w|
        ensures Opens(w[..k]) >= 0
      {
        if k == 0 {
          assert w[..k] == [];
        } else if k <= |s| + 1 {
          assert w[..k] == o + s[..k - 1];
          OpensAppend(o, s[..k - 1]);
        } else {
          assert w[..k] == w;
        }
      }
    }
  }

  lemma Balanced3(a: string, b: string, c: string)
    requires Balanced(a) && Balanced(b) && Balanced(c)
    ensures Balanced(a + b + c)
  {
    BalancedAppend(a, b);
    BalancedAppend(a + b, c);
  }

  /** Whatever the context, the printed form of an expression whose texts
    * hold no parentheses is well parenthesised. */
  lemma {:induction false} PrintedBalanced(e: Expr, parentPrec: int)
    requires PlainAtoms(e)
    ensures Balanced(ToStr(e, parentPrec))
    decreases e, 1
  {
    match e
    case Literal(v, _) =>
      PlainBalanced(TextOf(v));
    case UnaryExpr(op, x) =>
      PrintedBalanced(x, 3);
      if op == "-" {
        SignedBalanced("-", ToStr(x, 3), parentPrec >= 3);
      } else if op == "/" {
        SignedBalanced("1/", ToStr(x, 3), parentPrec > 2);
      } else {
        PlainBalanced("");
      }
    case FunctionExpr(name, arg) =>
      PrintedBalanced(arg, 0);
      CallBalanced(TextOf(name), ToStr(arg, 0));
    case BinaryExpr(l, op, r) =>
      BinaryBodyBalanced(l, op, r);
      BalancedWrap(BinaryBody(l, op, r), Prec(op) <= parentPrec);
  }

  /** A sign before a balanced text, in parentheses or not. */
  lemma SignedBalanced(sign: string, inner: string, parens: bool)
    requires Plain(sign) && Balanced(inner)
    ensures Balanced(Wrap(sign + inner, parens))
  {
    PlainBalanced(sign);
    BalancedAppend(sign, inner);
    BalancedWrap(sign + inner, parens);
  }

  /** A plain name before a balanced argument in parentheses. */
  lemma CallBalanced(name: string, arg: string)
    requires Plain(name) && Balanced(arg)
    ensures Balanced(name + "(" + arg + ")")
  {
    PlainBalanced(name);
    BalancedWrap(arg, true);
    BalancedAppend(name, "(" + arg + ")");
    assert name + "(" + arg + ")" == name + ("(" + arg + ")");
  }

  /** The text between the outer parentheses of a binary node is balanced. */
  lemma {:induction false} BinaryBodyBalanced(l: Expr, op: string, r: Expr)
    requires PlainAtoms(BinaryExpr(l, op, r))
    ensures Balanced(BinaryBody(l, op, r))
    decreases BinaryExpr(l, op, r), 0
  {
    var my := Prec(op);
    var minus: string := "-";
    var plus: string := "+";
    var times: string := "*";
    var slash: string := "/";
    if op == "+" && r.UnaryExpr? && r.op == "-" {
      PlainBalanced(minus);
      PrintedBalanced(l, my);
      PrintedBalanced(r.operand, my + 1);
      Balanced3(ToStr(l, my), minus, ToStr(r.operand, my + 1));
    } else if op == "+" && l.UnaryExpr? && l.op == "-" {
      PlainBalanced(minus);
      PrintedBalanced(r, my);
      PrintedBalanced(l.operand, my + 1);
      Balanced3(ToStr(r, my), minus, ToStr(l.operand, my + 1));
    } else if op == "+" {
      PlainBalanced(plus);
      PrintedBalanced(l, my);
      PrintedBalanced(r, my);
      Balanced3(ToStr(l, my), plus, ToStr(r, my));
    } else if op == "*" && r.UnaryExpr? && r.op == "/" {
      PlainBalanced(slash);
      PrintedBalanced(l, my);
      PrintedBalanced(r.operand, my + 1);
      Balanced3(ToStr(l, my), slash, ToStr(r.operand, my + 1));
    } else if op == "*" && l.UnaryExpr? && l.op == "/" {
      PlainBalanced(slash);
      PrintedBalanced(r, my);
      PrintedBalanced(l.operand, my + 1);
      Balanced3(ToStr(r, my), slash, ToStr(l.operand, my + 1));
    } else if op == "*" {
      PlainBalanced(times);
      PrintedBalanced(l, my);
      PrintedBalanced(r, my);
      Balanced3(ToStr(l, my), times, ToStr(r, my));
    } else {
      var rp := my + (if op == "-" || op == "/" then 1 else 0);
      PlainBalanced(op);
      PrintedBalanced(l, my);
      PrintedBalanced(r, rp);
      Balanced3(ToStr(l, my), op, ToStr(r, rp));
    }
  }

  // ---------------------------------------------------------------------
  // The parallel `Expression` hierarchy

  /** The second hierarchy's unary, call and binary nodes; a node of one of
    * its other classes, which are not part of this model, stands here as
    * the text it prints. */
  datatype Expression =
    | UnaryExpression(op: string, operand: Expression)
    | FunctionExpression(name: string, arg: Expression)
    | BinaryExpression(left: Expression, operation: string, right: Expression)
    | OtherExpression(text: string)

  function ExpressionToStr(e: Expression, parentPrec: int): string
    decreases e, 1
  {
    match e
    case OtherExpression(t) => t
    case UnaryExpression(op, x) =>
      if op == "-" then Wrap("-" + ExpressionToStr(x, 3), parentPrec >= 3)
      else if op == "/" then Wrap("1/" + ExpressionToStr(x, 3), parentPrec > 2)
      else ""
    case FunctionExpression(name, arg) => name + "(" + ExpressionToStr(arg, 0) + ")"
    case BinaryExpression(l, op, r) => Wrap(BinaryExpressionBody(l, op, r), Prec(op) <= parentPrec)
  }

  function BinaryExpressionBody(l: Expression, op: string, r: Expression): string
    decreases BinaryExpression(l, op, r), 0
  {
    var my := Prec(op);
    if op == "+" then
      if r.UnaryExpression? && r.op == "-" then ExpressionToStr(l, my) + "-" + ExpressionToStr(r.operand, my + 1)
      else if l.UnaryExpression? && l.op == "-" then ExpressionToStr(r, my) + "-" + ExpressionToStr(l.operand, my + 1)
      else ExpressionToStr(l, my) + "+" + ExpressionToStr(r, my)
    else if op == "*" then
      if r.UnaryExpression? && r.op == "/" then ExpressionToStr(l, my) + "/" + ExpressionToStr(r.operand, my + 1)
      else if l.UnaryExpression? && l.op == "/" then ExpressionToStr(r, my) + "/" + ExpressionToStr(l.operand, my + 1)
      else ExpressionToStr(l, my) + "*" + ExpressionToStr(r, my)
    else ExpressionToStr(l, my) + op + ExpressionToStr(r, my + (if op == "-" || op == "/" then 1 else 0))
  }

  /** The `Expr` node of the same shape; another node becomes a literal of
    * its text. */
  function AsExpr(e: Expression): Expr
  {
    match e
    case OtherExpression(t) => Literal(Some(t), Lexical.Constant)
    case UnaryExpression(op, x) => UnaryExpr(op, AsExpr(x))
    case FunctionExpression(name, arg) => FunctionExpr(Some(name), AsExpr(arg))
    case BinaryExpression(l, op, r) => BinaryExpr(AsExpr(l), op, AsExpr(r))
  }

  /** The copy prints every expression exactly as the original printer
    * prints the `Expr` of the same shape. */
  lemma {:induction false} CopiesPrintAlike(e: Expression, parentPrec: int)
    ensures ExpressionToStr(e, parentPrec) == ToStr(AsExpr(e), parentPrec)
    decreases e, 1
  {
    match e
    case OtherExpression(_) =>
    case UnaryExpression(op, x) =>
      CopiesPrintAlike(x, 3);
    case FunctionExpression(name, arg) =>
      CopiesPrintAlike(arg, 0);
    case BinaryExpression(l, op, r) =>
      BodiesPrintAlike(l, op, r);
  }

  lemma {:induction false} BodiesPrintAlike(l: Expression, op: string, r: Expression)
    ensures BinaryExpressionBody(l, op, r) == BinaryBody(AsExpr(l), op, AsExpr(r))
    decreases BinaryExpression(l, op, r), 0
  {
    var my := Prec(op);
    CopiesPrintAlike(l, my);
    CopiesPrintAlike(r, my);
    CopiesPrintAlike(r, my + 1);
    if l.UnaryExpression? {
      CopiesPrintAlike(l.operand, my + 1);
    }
    if r.UnaryExpression? {
      CopiesPrintAlike(r.operand, my + 1);
    }
  }
}
