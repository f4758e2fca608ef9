/**
 * The node of the commutative rewrite engine's tree.  A node has a grammar
 * category, an optional text (the literal or the function name), and three
 * optional children: the two sides of an operator and the argument of a
 * call.  A node knows its weight, the number of nodes in it, and prints
 * itself with the brackets its precedence calls for.  A negation is stored
 * as `0 - x` and a reciprocal as `1 / x`, and both print in their short
 * forms.
 */
module CommutativeNode {
  import opened Wrappers
  import S = SyntaxValidation
  import opened Algebraic

  /** `Null` stands for a missing child. */
  datatype Tree = Null | Node(kind: S.SyntaxType, value: Option<string>, left: Tree, right: Tree, param: Tree)

  predicate IsOperator(k: S.SyntaxType)
  {
    k == S.OperationAdd || k == S.OperationMinus || k == S.OperationMultiply || k == S.OperationDivide
  }

  /** The shape every built node has: an operator has both sides and no
    * argument, a call has an argument and no sides, anything else has no
    * children. */
  predicate Shaped(t: Tree)
  {
    match t
    case Null => false
    case Node(k, _, l, r, p) =>
      if IsOperator(k) then Shaped(l) && Shaped(r) && p.Null?
      else if k == S.Function then l.Null? && r.Null? && Shaped(p)
      else l.Null? && r.Null? && p.Null?
  }

  /** The number of nodes: one for the node itself plus those of its children. */
  function Weight(t: Tree): (w: nat)
    ensures t.Node? <==> w >= 1
  {
    match t
    case Null => 0
    case Node(_, _, l, r, p) => 1 + Weight(l) + Weight(r) + Weight(p)
  }

  // ---------------------------------------------------------------------
  // Printing

  /** Plus and minus bind weakest, times and divide tighter, and atoms tightest. */
  function Precedence(k: S.SyntaxType): (p: int)
    ensures p == 1 <==> k == S.OperationAdd || k == S.OperationMinus
    ensures p == 2 <==> k == S.OperationMultiply || k == S.OperationDivide
    ensures p == 100 <==> !IsOperator(k)
  {
    if k == S.OperationAdd || k == S.OperationMinus then 1
    else if k == S.OperationMultiply || k == S.OperationDivide then 2
    else 100
  }

  /** A literal operand with exactly this text. */
  predicate IsConstant(t: Tree, text: string)
  {
    t.Node? && t.kind == S.Operand && t.value == Some(text)
  }

  function OperatorSign(k: S.SyntaxType): string
  {
    if k == S.OperationAdd then "+"
    else if k == S.OperationMinus then "-"
    else if k == S.OperationMultiply then "*"
    else if k == S.OperationDivide then "/"
    else "?"
  }

  /** `0 - x`, the stored form of a negation. */
  predicate IsNegation(t: Tree)
  {
    t.Node? && t.kind == S.OperationMinus && IsConstant(t.left, "0")
  }

  /** `1 / x`, the stored form of a reciprocal. */
  predicate IsReciprocal(t: Tree)
  {
    t.Node? && t.kind == S.OperationDivide && IsConstant(t.left, "1")
  }

  /** The sides of an operator are shaped and lighter than it. */
  lemma ShapedSides(t: Tree)
    requires Shaped(t) && IsOperator(t.kind)
    ensures Shaped(t.left) && Shaped(t.right) && t.param.Null?
    ensures Weight(t.left) + Weight(t.right) < Weight(t)
    ensures IsOperator(t.right.kind) ==> Shaped(t.right.right) && Weight(t.left) + Weight(t.right.right) < Weight(t)
  {
    if IsOperator(t.right.kind) {
      assert Shaped(t.right);
    }
  }

  /** The text of a node without its own brackets, and the precedence it
    * prints at. */
  function Printed(t: Tree): (r: (string, int))
    requires Shaped(t)
    decreases Weight(t), 1
  {
    var k := t.kind;
    if k == S.Operand then
      (if t.value.Some? then t.value.value else "?", 100)
    else if k == S.Function then
      ((if t.value.Some? then t.value.value else "null") + "(" + Text(t.param, 0) + ")", 100)
    else if IsOperator(k) then
      ShapedSides(t);
      OperatorPrinted(t)
    else
      ("ERROR", 0)
  }

  /** An operator node: a negation or reciprocal prints in its short form, a
    * sum or product whose right side is one prints as a subtraction or a
    * division, and otherwise the right side of minus and divide binds one
    * level tighter than the left. */
  function OperatorPrinted(t: Tree): (r: (string, int))
    requires Shaped(t) && IsOperator(t.kind)
    decreases Weight(t), 0
  {
    ShapedSides(t);
    var k := t.kind;
    if IsNegation(t) then (Prefixed("-", t.right), 3)
    else if IsReciprocal(t) then (Prefixed("1/", t.right), 3)
    else if k == S.OperationAdd && IsNegation(t.right) then (Joined(t.left, 1, "-", t.right.right, 2), 1)
    else if k == S.OperationMultiply && IsReciprocal(t.right) then (Joined(t.left, 2, "/", t.right.right, 3), 2)
    else
      var p := Precedence(k);
      var rightPrec := if k == S.OperationAdd || k == S.OperationMultiply then p else p + 1;
      (Joined(t.left, p, OperatorSign(k), t.right, rightPrec), p)
  }

  function Prefixed(sign: string, r: Tree): string
    requires Shaped(r)
    decreases Weight(r), 3
  {
    sign + Text(r, 3)
  }

  function Joined(l: Tree, lp: int, sign: string, r: Tree, rp: int): string
    requires Shaped(l) && Shaped(r)
    decreases Weight(l) + Weight(r), 3
  {
    Text(l, lp) + sign + Text(r, rp)
  }

  /** The text of a node inside a context of precedence `parentPrec`: in
    * brackets exactly when the node binds less tightly. */
  function Text(t: Tree, parentPrec: int): string
    requires Shaped(t)
    decreases Weight(t), 2
  {
    var (s, prec) := Printed(t);
    if prec < parentPrec then "(" + s + ")" else s
  }

  /** The text of a whole tree. */
  function Expression(t: Tree): string
    requires Shaped(t)
  {
    Text(t, 0)
  }

  // ---------------------------------------------------------------------
  // Brackets in the printed text

  function BracketDelta(c: char): int
  {
    if c == '(' then 1 else if c == ')' then -1 else 0
  }

  /** Opening minus closing brackets. */
  function Net(s: string): int
  {
    if s == [] then 0 else Net(s[..|s| - 1]) + BracketDelta(s[|s| - 1])
  }

  /** Every closing bracket closes an earlier opening one, and all are closed. */
  predicate Balanced(s: string)
  {
    Net(s) == 0 && forall i :: 0 <= i <= |s| ==> Net(s[..i]) >= 0
  }

  predicate BracketFree(s: string)
  {
    forall i :: 0 <= i < |s| ==> s[i] != '(' && s[i] != ')'
  }

  /** No literal or function name holds a bracket. */
  predicate PlainTexts(t: Tree)
  {
    match t
    case Null => true
    case Node(_, v, l, r, p) =>
      (v.Some? ==> BracketFree(v.value)) && PlainTexts(l) && PlainTexts(r) && PlainTexts(p)
  }

  lemma {:induction false} NetAppend(a: string, b: string)
    ensures Net(a + b) == Net(a) + Net(b)
    decreases |b|
  {
    if b == [] {
      assert a + b == a;
    } else {
      var b' := b[..|b| - 1];
      assert (a + b)[..|a + b| - 1] == a + b';
      NetAppend(a, b');
    }
  }

  lemma {:induction false} FreeIsBalanced(s: string)
    requires BracketFree(s)
    ensures Balanced(s)
    ensures forall i :: 0 <= i <= |s| ==> Net(s[..i]) == 0
  {
    forall i | 0 <= i <= |s|
      ensures Net(s[..i]) == 0
    {
      FreePrefix(s, i);
    }
    assert s[..|s|] == s;
  }

  lemma {:induction false} FreePrefix(s: string, i: nat)
    requires BracketFree(s) && i <= |s|
    ensures Net(s[..i]) == 0
  {
    if i > 0 {
      FreePrefix(s, i - 1);
      assert s[..i][..i - 1] == s[..i - 1];
    }
  }

  lemma BalancedConcat(a: string, b: string)
    requires Balanced(a) && Balanced(b)
    ensures Balanced(a + b)
  {
    NetAppend(a, b);
    forall i | 0 <= i <= |a + b|
      ensures Net((a + b)[..i]) >= 0
    {
      if i <= |a| {
        assert (a + b)[..i] == a[..i];
      } else {
        assert (a + b)[..i] == a + b[..i - |a|];
        NetAppend(a, b[..i - |a|]);
      }
    }
  }

  lemma BalancedWrap(s: string)
    requires Balanced(s)
    ensures Balanced("(" + s + ")")
  {
    var w := "(" + s + ")";
    NetAppend("(", s);
    NetAppend("(" + s, ")");
    forall i | 0 <= i <= |w|
      ensures Net(w[..i]) >= 0
    {
      if i == 0 {
      } else if i <= |s| + 1 {
        assert w[..i] == "(" + s[..i - 1];
        NetAppend("(", s[..i - 1]);
      } else {
        assert w[..i] == w;
      }
    }
  }

  /** With plain texts, every printed text has balanced brackets. */
  lemma {:induction false} TextBalanced(t: Tree, parentPrec: int)
    requires Shaped(t) && PlainTexts(t)
    ensures Balanced(Text(t, parentPrec))
    decreases Weight(t), 2
  {
    PrintedBalanced(t);
    var (s, prec) := Printed(t);
    if prec < parentPrec {
      BalancedWrap(s);
    }
  }

  lemma {:induction false} PrintedBalanced(t: Tree)
    requires Shaped(t) && PlainTexts(t)
    ensures Balanced(Printed(t).0)
    decreases Weight(t), 1
  {
    var k := t.kind;
    if k == S.Operand {
      if t.value.Some? {
        FreeIsBalanced(t.value.value);
      } else {
        FreeIsBalanced("?");
      }
    } else if k == S.Function {
      var name := if t.value.Some? then t.value.value else "null";
      var inner := Text(t.param, 0);
      assert Weight(t.param) < Weight(t);
      TextBalanced(t.param, 0);
      CallBalanced(name, inner);
      assert Printed(t).0 == name + "(" + inner + ")";
    } else if IsOperator(k) {
      OperatorBalanced(t);
    } else {
      FreeIsBalanced("ERROR");
    }
  }

  /** A call: a plain name followed by a balanced text in brackets. */
  lemma CallBalanced(name: string, inner: string)
    requires BracketFree(name) && Balanced(inner)
    ensures Balanced(name + "(" + inner + ")")
  {
    FreeIsBalanced(name);
    BalancedWrap(inner);
    assert name + "(" + inner + ")" == name + ("(" + inner + ")");
    BalancedConcat(name, "(" + inner + ")");
  }

  lemma {:induction false} OperatorBalanced(t: Tree)
    requires Shaped(t) && PlainTexts(t) && IsOperator(t.kind)
    ensures Balanced(OperatorPrinted(t).0)
    decreases Weight(t), 0
  {
    ShapedSides(t);
    var k := t.kind;
    if IsNegation(t) {
      PrefixedBalanced("-", t.right);
    } else if IsReciprocal(t) {
      PrefixedBalanced("1/", t.right);
    } else if k == S.OperationAdd && IsNegation(t.right) {
      JoinedBalanced(t.left, 1, "-", t.right.right, 2);
    } else if k == S.OperationMultiply && IsReciprocal(t.right) {
      JoinedBalanced(t.left, 2, "/", t.right.right, 3);
    } else {
      var p := Precedence(k);
      var rightPrec := if k == S.OperationAdd || k == S.OperationMultiply then p else p + 1;
      JoinedBalanced(t.left, p, OperatorSign(k), t.right, rightPrec);
    }
  }

  lemma {:induction false} PrefixedBalanced(sign: string, r: Tree)
    requires Shaped(r) && PlainTexts(r) && BracketFree(sign)
    ensures Balanced(Prefixed(sign, r))
    decreases Weight(r), 3
  {
    TextBalanced(r, 3);
    FreeIsBalanced(sign);
    BalancedConcat(sign, Text(r, 3));
  }

  /** Two balanced texts around a sign form a balanced text. */
  lemma {:induction false} JoinedBalanced(l: Tree, lp: int, sign: string, r: Tree, rp: int)
    requires Shaped(l) && PlainTexts(l) && Shaped(r) && PlainTexts(r) && BracketFree(sign)
    ensures Balanced(Joined(l, lp, sign, r, rp))
    decreases Weight(l) + Weight(r), 3
  {
    TextBalanced(l, lp);
    TextBalanced(r, rp);
    FreeIsBalanced(sign);
    BalancedConcat(Text(l, lp), sign);
    BalancedConcat(Text(l, lp) + sign, Text(r, rp));
  }

  // ---------------------------------------------------------------------
  // Meaning

  /** What operands and calls stand for, in some algebra. */
  datatype Meaning<!V> = Meaning(alg: Algebra<V>, operand: Option<string> -> V, call: (Option<string>, V) -> V)

  /** The value of a tree: an operator combines its sides' values, minus
    * adds the negation and divide multiplies by the reciprocal. */
  function Value<V(!new)>(t: Tree, M: Meaning<V>): V
  {
    match t
    case Null => M.alg.zero
    case Node(k, v, l, r, p) =>
      if k == S.Operand then M.operand(v)
      else if k == S.Function then M.call(v, Value(p, M))
      else if k == S.OperationAdd then M.alg.add(Value(l, M), Value(r, M))
      else if k == S.OperationMinus then M.alg.add(Value(l, M), M.alg.neg(Value(r, M)))
      else if k == S.OperationMultiply then M.alg.mul(Value(l, M), Value(r, M))
      else if k == S.OperationDivide then M.alg.mul(Value(l, M), M.alg.inv(Value(r, M)))
      else M.alg.zero
  }
}
