/**
 * The associative rewrite engine.  From one parsed expression it collects
 * every variant it can reach by regrouping: the children of each node are
 * rewritten independently, a plus/minus chain (and a times/divide chain) of
 * more than two items is regrouped in every possible way, and a sum whose
 * terms share a factor is rewritten with that factor taken out.  The result
 * is the set of printed variants.
 *
 * The meaning every variant must keep is given by `Eval` in any algebra
 * whose addition and multiplication are associative and commutative, where
 * multiplication distributes over addition and negation, and negation and
 * the reciprocal are involutions that distribute over addition and
 * multiplication respectively (`Laws`).  The real numbers with the
 * reciprocal of zero taken to be zero are such an algebra (`RealLaws`).
 * A literal means what the interpretation says, `-x` is the negation, the
 * reciprocal marker `1/x` is the reciprocal, and a call applies the
 * interpretation's function.
 */
module AssociativeTransform {
  import opened Wrappers
  import Lexical
  import opened AssociativeExpr
  import AssociativeParser
  import opened Algebraic

  // ---------------------------------------------------------------------
  // Meaning

  /** What literals and function names stand for, in some algebra. */
  datatype Interp<!V> = Interp(alg: Algebra<V>, literal: (Option<string>, Lexical.TokenType) -> V, call: (Option<string>, V) -> V)

  /** The literals `0` and `1` the engine itself creates mean the units. */
  ghost predicate Numeric<V(!new)>(I: Interp<V>)
  {
    I.literal(Some("0"), Lexical.Integer) == I.alg.zero && I.literal(Some("1"), Lexical.Integer) == I.alg.one
  }

  function Eval<V(!new)>(e: Expr, I: Interp<V>): V
  {
    match e
    case Literal(v, k) => I.literal(v, k)
    case UnaryExpr(op, x) =>
      if op == "-" then I.alg.neg(Eval(x, I)) else if op == "/" then I.alg.inv(Eval(x, I)) else I.alg.zero
    case FunctionExpr(name, arg) => I.call(name, Eval(arg, I))
    case BinaryExpr(l, op, r) =>
      if op == "+" then I.alg.add(Eval(l, I), Eval(r, I))
      else if op == "-" then I.alg.add(Eval(l, I), I.alg.neg(Eval(r, I)))
      else if op == "*" then I.alg.mul(Eval(l, I), Eval(r, I))
      else if op == "/" then I.alg.mul(Eval(l, I), I.alg.inv(Eval(r, I)))
      else I.alg.zero
  }

  /** The terms added up left to right. */
  function Sum<V(!new)>(es: seq<Expr>, I: Interp<V>): V
  {
    if es == [] then I.alg.zero else I.alg.add(Sum(es[..|es| - 1], I), Eval(es[|es| - 1], I))
  }

  /** The factors multiplied left to right. */
  function Product<V(!new)>(es: seq<Expr>, I: Interp<V>): V
  {
    if es == [] then I.alg.one else I.alg.mul(Product(es[..|es| - 1], I), Eval(es[|es| - 1], I))
  }

  lemma {:induction false} SumAppend<V(!new)>(a: seq<Expr>, b: seq<Expr>, I: Interp<V>)
    requires Laws(I.alg)
    ensures Sum(a + b, I) == I.alg.add(Sum(a, I), Sum(b, I))
    ensures Product(a + b, I) == I.alg.mul(Product(a, I), Product(b, I))
    decreases |b|
  {
    if b == [] {
      assert a + b == a;
      Units(I.alg, Sum(a, I));
      Units(I.alg, Product(a, I));
    } else {
      var b', last := b[..|b| - 1], b[|b| - 1];
      assert (a + b)[..|a + b| - 1] == a + b';
      SumAppend(a, b', I);
      AddAssoc(I.alg, Sum(a, I), Sum(b', I), Eval(last, I));
      MulAssoc(I.alg, Product(a, I), Product(b', I), Eval(last, I));
    }
  }

  lemma Singleton<V(!new)>(x: Expr, I: Interp<V>)
    requires Laws(I.alg)
    ensures Sum([x], I) == Eval(x, I) && Product([x], I) == Eval(x, I)
  {
    assert [x][..0] == [];
  }

  // ---------------------------------------------------------------------
  // Flattening chains

  predicate IsNegation(e: Expr) { e.UnaryExpr? && e.op == "-" }
  predicate IsReciprocal(e: Expr) { e.UnaryExpr? && e.op == "/" }
  predicate IsAdditive(e: Expr) { e.BinaryExpr? && (e.op == "+" || e.op == "-") }
  predicate IsMultiplicative(e: Expr) { e.BinaryExpr? && (e.op == "*" || e.op == "/") }

  /** The maximal non-additive parts of `e`, left to right; a part under an
    * odd number of subtracted right sides is negated. */
  function FlattenAddFrom(e: Expr, positive: bool): (r: seq<Expr>)
    ensures |r| >= 1
  {
    if e.BinaryExpr? && e.op == "+" then FlattenAddFrom(e.left, positive) + FlattenAddFrom(e.right, positive)
    else if e.BinaryExpr? && e.op == "-" then FlattenAddFrom(e.left, positive) + FlattenAddFrom(e.right, !positive)
    else [if positive then e else UnaryExpr("-", e)]
  }

  function FlattenAdd(e: Expr): seq<Expr>
  {
    FlattenAddFrom(e, true)
  }

  /** The maximal non-multiplicative parts of `e`, left to right; a part
    * under an odd number of divisor sides is marked as a reciprocal. */
  function FlattenMulFrom(e: Expr, multiplier: bool): (r: seq<Expr>)
    ensures |r| >= 1
  {
    if e.BinaryExpr? && e.op == "*" then FlattenMulFrom(e.left, multiplier) + FlattenMulFrom(e.right, multiplier)
    else if e.BinaryExpr? && e.op == "/" then FlattenMulFrom(e.left, multiplier) + FlattenMulFrom(e.right, !multiplier)
    else [if multiplier then e else UnaryExpr("/", e)]
  }

  function FlattenMul(e: Expr): seq<Expr>
  {
    FlattenMulFrom(e, true)
  }

  /** The parts of a sum add up to it, negated when `positive` is false. */
  lemma {:induction false} FlattenAddKeepsValue<V(!new)>(e: Expr, positive: bool, I: Interp<V>)
    requires Laws(I.alg)
    ensures Sum(FlattenAddFrom(e, positive), I) == if positive then Eval(e, I) else I.alg.neg(Eval(e, I))
  {
    if e.BinaryExpr? && (e.op == "+" || e.op == "-") {
      var p' := if e.op == "+" then positive else !positive;
      FlattenAddKeepsValue(e.left, positive, I);
      FlattenAddKeepsValue(e.right, p', I);
      FlattenAddStep(e, positive, I);
    } else {
      Singleton(if positive then e else UnaryExpr("-", e), I);
    }
  }

  /** The inductive step of `FlattenAddKeepsValue`, from the two sides' values. */
  lemma FlattenAddStep<V(!new)>(e: Expr, positive: bool, I: Interp<V>)
    requires Laws(I.alg)
    requires e.BinaryExpr? && (e.op == "+" || e.op == "-")
    requires Sum(FlattenAddFrom(e.left, positive), I)
      == if positive then Eval(e.left, I) else I.alg.neg(Eval(e.left, I))
    requires var p' := if e.op == "+" then positive else !positive;
      Sum(FlattenAddFrom(e.right, p'), I) == if p' then Eval(e.right, I) else I.alg.neg(Eval(e.right, I))
    ensures Sum(FlattenAddFrom(e, positive), I) == if positive then Eval(e, I) else I.alg.neg(Eval(e, I))
  {
    var p' := if e.op == "+" then positive else !positive;
    var fl, fr := FlattenAddFrom(e.left, positive), FlattenAddFrom(e.right, p');
    assert FlattenAddFrom(e, positive) == fl + fr;
    SumAppend(fl, fr, I);
    var A, a, b := I.alg, Eval(e.left, I), Eval(e.right, I);
    if e.op == "+" {
      assert Eval(e, I) == A.add(a, b);
      SignedSum(A, positive, a, b, Sum(fl, I), Sum(fr, I));
    } else {
      assert Eval(e, I) == A.add(a, A.neg(b));
      assert A.neg(A.neg(b)) == b;
      SignedSum(A, positive, a, A.neg(b), Sum(fl, I), Sum(fr, I));
    }
  }

  /** Two terms that are both taken as they are, or both negated, add up to
    * their sum, taken as it is or negated. */
  lemma SignedSum<V(!new)>(A: Algebra<V>, positive: bool, a: V, b: V, pa: V, pb: V)
    requires Laws(A)
    requires pa == if positive then a else A.neg(a)
    requires pb == if positive then b else A.neg(b)
    ensures A.add(pa, pb) == if positive then A.add(a, b) else A.neg(A.add(a, b))
  {
    assert A.neg(A.add(a, b)) == A.add(A.neg(a), A.neg(b));
  }

  /** The parts of a product multiply to it, inverted when `multiplier` is false. */
  lemma {:induction false} FlattenMulKeepsValue<V(!new)>(e: Expr, multiplier: bool, I: Interp<V>)
    requires Laws(I.alg)
    ensures Product(FlattenMulFrom(e, multiplier), I) == if multiplier then Eval(e, I) else I.alg.inv(Eval(e, I))
  {
    if e.BinaryExpr? && (e.op == "*" || e.op == "/") {
      var m' := if e.op == "*" then multiplier else !multiplier;
      FlattenMulKeepsValue(e.left, multiplier, I);
      FlattenMulKeepsValue(e.right, m', I);
      FlattenMulStep(e, multiplier, I);
    } else {
      Singleton(if multiplier then e else UnaryExpr("/", e), I);
    }
  }

  /** The inductive step of `FlattenMulKeepsValue`, from the two sides' values. */
  lemma FlattenMulStep<V(!new)>(e: Expr, multiplier: bool, I: Interp<V>)
    requires Laws(I.alg)
    requires e.BinaryExpr? && (e.op == "*" || e.op == "/")
    requires Product(FlattenMulFrom(e.left, multiplier), I)
      == if multiplier then Eval(e.left, I) else I.alg.inv(Eval(e.left, I))
    requires var m' := if e.op == "*" then multiplier else !multiplier;
      Product(FlattenMulFrom(e.right, m'), I) == if m' then Eval(e.right, I) else I.alg.inv(Eval(e.right, I))
    ensures Product(FlattenMulFrom(e, multiplier), I) == if multiplier then Eval(e, I) else I.alg.inv(Eval(e, I))
  {
    var m' := if e.op == "*" then multiplier else !multiplier;
    var fl, fr := FlattenMulFrom(e.left, multiplier), FlattenMulFrom(e.right, m');
    assert FlattenMulFrom(e, multiplier) == fl + fr;
    SumAppend(fl, fr, I);
    var A, a, b := I.alg, Eval(e.left, I), Eval(e.right, I);
    if e.op == "*" {
      assert Eval(e, I) == A.mul(a, b);
      SignedProduct(A, multiplier, a, b, Product(fl, I), Product(fr, I));
    } else {
      assert Eval(e, I) == A.mul(a, A.inv(b));
      assert A.inv(A.inv(b)) == b;
      SignedProduct(A, multiplier, a, A.inv(b), Product(fl, I), Product(fr, I));
    }
  }

  /** Two factors that are both taken as they are, or both inverted, multiply
    * to their product, taken as it is or inverted. */
  lemma SignedProduct<V(!new)>(A: Algebra<V>, multiplier: bool, a: V, b: V, pa: V, pb: V)
    requires Laws(A)
    requires pa == if multiplier then a else A.inv(a)
    requires pb == if multiplier then b else A.inv(b)
    ensures A.mul(pa, pb) == if multiplier then A.mul(a, b) else A.inv(A.mul(a, b))
  {
    assert A.inv(A.mul(a, b)) == A.mul(A.inv(a), A.inv(b));
  }

  /** No part of a flattened sum is itself a sum or a difference, and no part
    * of a flattened product is a product or a quotient. */
  lemma {:induction false} FlattenedPartsAreMaximal(e: Expr, sign: bool)
    ensures forall k :: 0 <= k < |FlattenAddFrom(e, sign)| ==> !IsAdditive(FlattenAddFrom(e, sign)[k])
    ensures forall k :: 0 <= k < |FlattenMulFrom(e, sign)| ==> !IsMultiplicative(FlattenMulFrom(e, sign)[k])
  {
    if e.BinaryExpr? {
      FlattenedPartsAreMaximal(e.left, sign);
      FlattenedPartsAreMaximal(e.right, sign);
      FlattenedPartsAreMaximal(e.right, !sign);
    }
  }

  // ---------------------------------------------------------------------
  // Rebuilding chains

  /** `res` followed by one more term: a negated term is subtracted. */
  function AddStep(res: Expr, term: Expr): Expr
  {
    if IsNegation(term) then BinaryExpr(res, "-", term.operand) else BinaryExpr(res, "+", term)
  }

  function MulStep(res: Expr, factor: Expr): Expr
  {
    if IsReciprocal(factor) then BinaryExpr(res, "/", factor.operand) else BinaryExpr(res, "*", factor)
  }

  /** The left-leaning sum of the terms; the literal 0 for none. */
  function AddChain(terms: seq<Expr>): Expr
  {
    if terms == [] then Literal(Some("0"), Lexical.Integer)
    else if |terms| == 1 then terms[0]
    else AddStep(AddChain(terms[..|terms| - 1]), terms[|terms| - 1])
  }

  /** The left-leaning product of the factors; the literal 1 for none. */
  function MulChain(factors: seq<Expr>): Expr
  {
    if factors == [] then Literal(Some("1"), Lexical.Integer)
    else if |factors| == 1 then factors[0]
    else MulStep(MulChain(factors[..|factors| - 1]), factors[|factors| - 1])
  }

  /** A rebuilt sum is worth the sum of its terms. */
  lemma {:induction false} AddChainValue<V(!new)>(terms: seq<Expr>, I: Interp<V>)
    requires Laws(I.alg) && Numeric(I)
    ensures Eval(AddChain(terms), I) == Sum(terms, I)
    decreases |terms|
  {
    if |terms| == 1 {
      Singleton(terms[0], I);
      assert terms == [terms[0]];
    } else if |terms| > 1 {
      AddChainValue(terms[..|terms| - 1], I);
    }
  }


  /** A rebuilt product is worth the product of its factors. */
  lemma {:induction false} MulChainValue<V(!new)>(factors: seq<Expr>, I: Interp<V>)
    requires Laws(I.alg) && Numeric(I)
    ensures Eval(MulChain(factors), I) == Product(factors, I)
    decreases |factors|
  {
    if |factors| == 1 {
      Singleton(factors[0], I);
      assert factors == [factors[0]];
    } else if |factors| > 1 {
      MulChainValue(factors[..|factors| - 1], I);
    }
  }


  method BuildAdd(terms: seq<Expr>) returns (res: Expr)
    ensures res == AddChain(terms)
  {
    if terms == [] {
      return Literal(Some("0"), Lexical.Integer);
    }
    res := terms[0];
    assert terms[..1] == [terms[0]];
    for i := 1 to |terms|
      invariant res == AddChain(terms[..i])
    {
      var right := terms[i];
      if right.UnaryExpr? && right.op == "-" {
        res := BinaryExpr(res, "-", right.operand);
      } else {
        res := BinaryExpr(res, "+", right);
      }
      assert terms[..i + 1][..i] == terms[..i];
    }
    assert terms[..|terms|] == terms;
  }

  method BuildMul(factors: seq<Expr>) returns (res: Expr)
    ensures res == MulChain(factors)
  {
    if factors == [] {
      return Literal(Some("1"), Lexical.Integer);
    }
    res := factors[0];
    assert factors[..1] == [factors[0]];
    for i := 1 to |factors|
      invariant res == MulChain(factors[..i])
    {
      var right := factors[i];
      if right.UnaryExpr? && right.op == "/" {
        res := BinaryExpr(res, "/", right.operand);
      } else {
        res := BinaryExpr(res, "*", right);
      }
      assert factors[..i + 1][..i] == factors[..i];
    }
    assert factors[..|factors|] == factors;
  }

  // ---------------------------------------------------------------------
  // Dividing a term by one of its factors

  /** The position of the first factor equal to `x`, if any. */
  function IndexOf(fs: seq<Expr>, x: Expr): (r: Option<nat>)
    ensures r.Some? ==> r.value < |fs| && fs[r.value] == x && forall k :: 0 <= k < r.value ==> fs[k] != x
    ensures r.None? <==> x !in fs
  {
    if fs == [] then None
    else if fs[0] == x then Some(0)
    else match IndexOf(fs[1..], x)
      case None => None
      case Some(k) => Some(k + 1)
  }

  /** A term without its negation, and whether it had one. */
  function Unsigned(term: Expr): Expr
  {
    if IsNegation(term) then term.operand else term
  }

  /** The term with its first factor equal to `divisor` removed, negated
    * again if the term was; `None` when no factor equals `divisor`. */
  function Quotient(term: Expr, divisor: Expr): Option<Expr>
  {
    var fs := FlattenMul(Unsigned(term));
    match IndexOf(fs, divisor)
    case None => None
    case Some(k) =>
      var q := MulChain(fs[..k] + fs[k + 1..]);
      Some(if IsNegation(term) then UnaryExpr("-", q) else q)
  }

  /** The first position holding `x` is the one `IndexOf` finds. */
  lemma FirstIndex(fs: seq<Expr>, x: Expr, i: nat)
    requires i < |fs| && fs[i] == x
    requires forall k :: 0 <= k < i ==> fs[k] != x
    ensures IndexOf(fs, x) == Some(i)
  {
    var r := IndexOf(fs, x);
    assert r.Some?;
    assert !(r.value < i);
    assert !(i < r.value);
  }

  /** The position of the first factor equal to `divisor`, or -1. */
  method FindFactor(factors: seq<Expr>, divisor: Expr) returns (index: int)
    ensures -1 <= index < |factors|
    ensures index == -1 <==> IndexOf(factors, divisor).None?
    ensures index != -1 ==> IndexOf(factors, divisor) == Some(index as nat)
  {
    index := -1;
    var j := 0;
    while j < |factors|
      invariant 0 <= j <= |factors|
      invariant forall k :: 0 <= k < j ==> factors[k] != divisor
      decreases |factors| - j
    {
      if factors[j] == divisor {
        FirstIndex(factors, divisor, j);
        index := j;
        return;
      }
      j := j + 1;
    }
    assert divisor !in factors;
  }

  method Divide(term: Expr, divisor: Expr) returns (q: Option<Expr>)
    ensures q == Quotient(term, divisor)
  {
    var negative := false;
    var t := term;
    if term.UnaryExpr? && term.op == "-" {
      negative := true;
      t := term.operand;
    }
    assert t == Unsigned(term) && negative == IsNegation(term);
    var factors := FlattenMul(t);
    var index := FindFactor(factors, divisor);
    if index == -1 {
      return None;
    }
    factors := factors[..index] + factors[index + 1..];
    var quotient := BuildMul(factors);
    if negative {
      quotient := UnaryExpr("-", quotient);
    }
    return Some(quotient);
  }

  /** Removing one factor from a product divides it out: the term is worth
    * the divisor times the quotient. */
  lemma QuotientValue<V(!new)>(term: Expr, divisor: Expr, I: Interp<V>)
    requires Laws(I.alg) && Numeric(I)
    requires divisor in FlattenMul(Unsigned(term))
    ensures Quotient(term, divisor).Some?
    ensures Eval(term, I) == I.alg.mul(Eval(divisor, I), Eval(Quotient(term, divisor).value, I))
  {
    var A := I.alg;
    var fs := FlattenMul(Unsigned(term));
    var k := IndexOf(fs, divisor).value;
    var q := MulChain(fs[..k] + fs[k + 1..]);
    UnsignedQuotientValue(Unsigned(term), divisor, k, I);
    assert Quotient(term, divisor) == Some(if IsNegation(term) then UnaryExpr("-", q) else q);
    if IsNegation(term) {
      var d := Eval(divisor, I);
      assert Eval(term, I) == A.neg(Eval(Unsigned(term), I));
      assert Eval(UnaryExpr("-", q), I) == A.neg(Eval(q, I));
      assert A.mul(d, A.neg(Eval(q, I))) == A.neg(A.mul(d, Eval(q, I)));
    }
  }

  /** Removing the factor at `k` leaves a product that, times that factor,
    * is the original. */
  lemma UnsignedQuotientValue<V(!new)>(t: Expr, divisor: Expr, k: nat, I: Interp<V>)
    requires Laws(I.alg) && Numeric(I)
    requires k < |FlattenMul(t)| && FlattenMul(t)[k] == divisor
    ensures Eval(t, I) == I.alg.mul(Eval(divisor, I), Eval(MulChain(FlattenMul(t)[..k] + FlattenMul(t)[k + 1..]), I))
  {
    var A := I.alg;
    var fs := FlattenMul(t);
    var pre, post := fs[..k], fs[k + 1..];
    FlattenMulKeepsValue(t, true, I);
    MulChainValue(pre + post, I);
    assert fs == pre + [fs[k]] + post;
    SumAppend(pre + [fs[k]], post, I);
    SumAppend(pre, [fs[k]], I);
    SumAppend(pre, post, I);
    Singleton(fs[k], I);
    var p, d, r := Product(pre, I), Eval(divisor, I), Product(post, I);
    assert Eval(t, I) == A.mul(A.mul(p, d), r);
    MulComm(A, p, d);
    MulAssoc(A, d, p, r);
  }


  // ---------------------------------------------------------------------
  // Every grouping of a chain

  /** Each left variant joined by `op` to each right variant, left-major. */
  function Cross(lefts: seq<Expr>, rights: seq<Expr>, op: string): (r: seq<Expr>)
    ensures |r| == |lefts| * |rights|
    ensures forall k :: 0 <= k < |r| ==>
      r[k].BinaryExpr? && r[k].op == op && r[k].left in lefts && r[k].right in rights
  {
    if lefts == [] then []
    else
      var row := seq(|rights|, j requires 0 <= j < |rights| => BinaryExpr(lefts[0], op, rights[j]));
      row + Cross(lefts[1..], rights, op)
  }

  /** Every full binary tree with the items as leaves, in order, and `op` at
    * every inner node; the trees splitting after the first item come first. */
  function GenerateAll(items: seq<Expr>, op: string): seq<Expr>
    requires |items| >= 1
    decreases |items|, 1
  {
    if |items| == 1 then [items[0]] else SplitsFrom(items, op, 1)
  }

  /** The trees whose root splits the items after position `i` or later. */
  function SplitsFrom(items: seq<Expr>, op: string, i: nat): seq<Expr>
    requires 1 <= i <= |items|
    decreases |items|, 0, |items| - i
  {
    if i == |items| then []
    else Cross(GenerateAll(items[..i], op), GenerateAll(items[i..], op), op) + SplitsFrom(items, op, i + 1)
  }

  function Catalan(n: nat): nat
    decreases n, 1
  {
    if n == 0 then 1 else SplitCount(n, 1)
  }

  /** The number of trees over `n + 1` leaves whose root splits after leaf
    * `i` or later. */
  function SplitCount(n: nat, i: nat): nat
    requires 1 <= i <= n + 1
    decreases n, 0, n + 1 - i
  {
    if i == n + 1 then 0 else Catalan(i - 1) * Catalan(n - i) + SplitCount(n, i + 1)
  }

  /** `n` items have Catalan(n - 1) groupings. */
  lemma {:induction false} GroupingCount(items: seq<Expr>, op: string)
    requires |items| >= 1
    ensures |GenerateAll(items, op)| == Catalan(|items| - 1)
    decreases |items|, 1
  {
    if |items| > 1 {
      SplitsCount(items, op, 1);
    }
  }

  lemma {:induction false} SplitsCount(items: seq<Expr>, op: string, i: nat)
    requires 1 <= i <= |items|
    ensures |SplitsFrom(items, op, i)| == SplitCount(|items| - 1, i)
    decreases |items|, 0, |items| - i
  {
    if i < |items| {
      var n := |items| - 1;
      var lefts, rights := GenerateAll(items[..i], op), GenerateAll(items[i..], op);
      GroupingCount(items[..i], op);
      GroupingCount(items[i..], op);
      SplitsCount(items, op, i + 1);
      assert |lefts| == Catalan(i - 1) && |rights| == Catalan(n - i);
      assert |Cross(lefts, rights, op)| == Catalan(i - 1) * Catalan(n - i);
      assert SplitsFrom(items, op, i) == Cross(lefts, rights, op) + SplitsFrom(items, op, i + 1);
    }
  }

  /** The leaves of a tree under its maximal `op` chain, left to right. */
  function Fringe(t: Expr, op: string): (r: seq<Expr>)
    ensures |r| >= 1
  {
    if t.BinaryExpr? && t.op == op then Fringe(t.left, op) + Fringe(t.right, op) else [t]
  }

  predicate NoneJoinedBy(items: seq<Expr>, op: string)
  {
    forall k :: 0 <= k < |items| ==> !(items[k].BinaryExpr? && items[k].op == op)
  }

  /** Every grouping keeps the items and their order. */
  lemma {:induction false} GroupingsKeepOrder(items: seq<Expr>, op: string)
    requires |items| >= 1 && NoneJoinedBy(items, op)
    ensures forall t :: t in GenerateAll(items, op) ==> Fringe(t, op) == items
    decreases |items|, 1
  {
    if |items| > 1 {
      SplitsKeepOrder(items, op, 1);
    }
  }

  lemma {:induction false} SplitsKeepOrder(items: seq<Expr>, op: string, i: nat)
    requires 1 <= i <= |items| && NoneJoinedBy(items, op)
    ensures forall t :: t in SplitsFrom(items, op, i) ==> Fringe(t, op) == items
    decreases |items|, 0, |items| - i
  {
    if i < |items| {
      var lefts, rights := GenerateAll(items[..i], op), GenerateAll(items[i..], op);
      assert NoneJoinedBy(items[..i], op) && NoneJoinedBy(items[i..], op) by {
        forall k | 0 <= k < i ensures items[..i][k] == items[k] { }
        forall k | 0 <= k < |items| - i ensures items[i..][k] == items[i + k] { }
      }
      GroupingsKeepOrder(items[..i], op);
      GroupingsKeepOrder(items[i..], op);
      SplitsKeepOrder(items, op, i + 1);
      assert items[..i] + items[i..] == items;
      CrossKeepsOrder(lefts, rights, items[..i], items[i..], op);
      assert SplitsFrom(items, op, i) == Cross(lefts, rights, op) + SplitsFrom(items, op, i + 1);
    }
  }

  /** Joining a left and a right tree by `op` puts their fringes side by side. */
  lemma CrossKeepsOrder(lefts: seq<Expr>, rights: seq<Expr>, a: seq<Expr>, b: seq<Expr>, op: string)
    requires forall t :: t in lefts ==> Fringe(t, op) == a
    requires forall t :: t in rights ==> Fringe(t, op) == b
    ensures forall t :: t in Cross(lefts, rights, op) ==> Fringe(t, op) == a + b
  {
    var crossed := Cross(lefts, rights, op);
    forall t | t in crossed
      ensures Fringe(t, op) == a + b
    {
      var k :| 0 <= k < |crossed| && crossed[k] == t;
      assert t.left in lefts && t.right in rights;
    }
  }

  /** A tree is worth the sum of its `+` fringe and the product of its `*` fringe. */
  lemma {:induction false} FringeValue<V(!new)>(t: Expr, I: Interp<V>)
    requires Laws(I.alg)
    ensures Eval(t, I) == Sum(Fringe(t, "+"), I)
    ensures Eval(t, I) == Product(Fringe(t, "*"), I)
  {
    Singleton(t, I);
    if t.BinaryExpr? && t.op == "+" {
      FringeValue(t.left, I);
      FringeValue(t.right, I);
      SumAppend(Fringe(t.left, "+"), Fringe(t.right, "+"), I);
    } else if t.BinaryExpr? && t.op == "*" {
      FringeValue(t.left, I);
      FringeValue(t.right, I);
      SumAppend(Fringe(t.left, "*"), Fringe(t.right, "*"), I);
    }
  }

  /** Every grouping of a sum is worth the sum, and every grouping of a
    * product is worth the product. */
  lemma GroupingsKeepValue<V(!new)>(items: seq<Expr>, I: Interp<V>)
    requires Laws(I.alg) && |items| >= 1
    ensures NoneJoinedBy(items, "+") ==> forall t :: t in GenerateAll(items, "+") ==> Eval(t, I) == Sum(items, I)
    ensures NoneJoinedBy(items, "*") ==> forall t :: t in GenerateAll(items, "*") ==> Eval(t, I) == Product(items, I)
  {
    forall op | op in ["+", "*"] && NoneJoinedBy(items, op)
      ensures forall t :: t in GenerateAll(items, op) ==> Fringe(t, op) == items
    {
      GroupingsKeepOrder(items, op);
    }
    forall t | t in GenerateAll(items, "+") || t in GenerateAll(items, "*")
      ensures Eval(t, I) == Sum(Fringe(t, "+"), I) && Eval(t, I) == Product(Fringe(t, "*"), I)
    {
      FringeValue(t, I);
    }
  }

  /** Three items have exactly two groupings, the right-nested one first. */
  lemma ThreeItemGroupings(a: Expr, b: Expr, c: Expr, op: string)
    ensures GenerateAll([a, b, c], op)
      == [BinaryExpr(a, op, BinaryExpr(b, op, c)), BinaryExpr(BinaryExpr(a, op, b), op, c)]
  {
    var items := [a, b, c];
    assert items[..1] == [a] && items[1..] == [b, c];
    assert items[..2] == [a, b] && items[2..] == [c];
    assert [b, c][..1] == [b] && [b, c][1..] == [c];
    assert [a, b][..1] == [a] && [a, b][1..] == [b];
    CrossOfSingletons(b, c, op);
    CrossOfSingletons(a, b, op);
    CrossOfSingletons(a, BinaryExpr(b, op, c), op);
    CrossOfSingletons(BinaryExpr(a, op, b), c, op);
    assert GenerateAll([a], op) == [a] && GenerateAll([b], op) == [b] && GenerateAll([c], op) == [c];
    assert GenerateAll([b, c], op) == [BinaryExpr(b, op, c)] by {
      assert SplitsFrom([b, c], op, 2) == [];
      assert SplitsFrom([b, c], op, 1) == Cross([b], [c], op) + [];
    }
    assert GenerateAll([a, b], op) == [BinaryExpr(a, op, b)] by {
      assert SplitsFrom([a, b], op, 2) == [];
      assert SplitsFrom([a, b], op, 1) == Cross([a], [b], op) + [];
    }
    assert SplitsFrom(items, op, 3) == [];
    assert SplitsFrom(items, op, 2) == Cross([BinaryExpr(a, op, b)], [c], op) + [];
    assert SplitsFrom(items, op, 1) == Cross([a], [BinaryExpr(b, op, c)], op) + SplitsFrom(items, op, 2);
  }

  lemma CrossOfSingletons(l: Expr, r: Expr, op: string)
    ensures Cross([l], [r], op) == [BinaryExpr(l, op, r)]
  {
    assert [l][1..] == [];
  }

  // ---------------------------------------------------------------------
  // Taking a shared factor out of a sum

  /** How a term's position is recorded under a factor: once per matching
    * factor, as the map of factor positions is filled, or once per term,
    * which is what a factor shared by several terms means. */
  datatype GroupRule = PerOccurrence | PerTerm

  /** The factors of a term once its sign is dropped. */
  function FactorsOf(term: Expr): seq<Expr>
  {
    FlattenMul(Unsigned(term))
  }

  function Recorded(term: Expr, f: Expr, rule: GroupRule): nat
  {
    match rule
    case PerOccurrence => multiset(FactorsOf(term))[f]
    case PerTerm => if f in FactorsOf(term) then 1 else 0
  }

  function Repeat(x: nat, count: nat): (r: seq<nat>)
    ensures |r| == count && forall k :: 0 <= k < |r| ==> r[k] == x
  {
    if count == 0 then [] else Repeat(x, count - 1) + [x]
  }

  /** The positions recorded under factor `f`, in increasing order: every
    * entry names a term that has `f` among its factors. */
  function Group(terms: seq<Expr>, f: Expr, rule: GroupRule): (r: seq<nat>)
    ensures forall k :: 0 <= k < |r| ==> r[k] < |terms| && f in FactorsOf(terms[r[k]])
  {
    if terms == [] then []
    else
      var n := |terms| - 1;
      Group(terms[..n], f, rule) + Repeat(n, Recorded(terms[n], f, rule))
  }

  /** Each position appears in the group as often as the rule records it. */
  lemma {:induction false} GroupCounts(terms: seq<Expr>, f: Expr, rule: GroupRule)
    ensures forall i :: 0 <= i < |terms| ==> multiset(Group(terms, f, rule))[i] == Recorded(terms[i], f, rule)
  {
    if terms != [] {
      var n: nat := |terms| - 1;
      var earlier := Group(terms[..n], f, rule);
      var here := Repeat(n, Recorded(terms[n], f, rule));
      GroupCounts(terms[..n], f, rule);
      RepeatCounts(n, Recorded(terms[n], f, rule));
      assert Group(terms, f, rule) == earlier + here;
      assert n !in earlier;
      forall i | 0 <= i < |terms|
        ensures multiset(Group(terms, f, rule))[i] == Recorded(terms[i], f, rule)
      {
        if i < n {
          assert terms[..n][i] == terms[i];
        }
      }
    }
  }

  lemma {:induction false} RepeatCounts(x: nat, count: nat)
    ensures multiset(Repeat(x, count))[x] == count
    ensures forall y :: y != x ==> multiset(Repeat(x, count))[y] == 0
  {
    if count > 0 {
      RepeatCounts(x, count - 1);
      assert Repeat(x, count) == Repeat(x, count - 1) + [x];
    }
  }

  /** The terms whose positions are not in the group, in order. */
  function Unlisted(terms: seq<Expr>, group: seq<nat>): seq<Expr>
  {
    if terms == [] then []
    else
      var n := |terms| - 1;
      Unlisted(terms[..n], group) + if n in group then [] else [terms[n]]
  }

  predicate GroupedBy(terms: seq<Expr>, group: seq<nat>, f: Expr)
  {
    forall k :: 0 <= k < |group| ==> group[k] < |terms| && f in FactorsOf(terms[group[k]])
  }

  /** One quotient by `f` per group entry. */
  function QuotientsAt(terms: seq<Expr>, group: seq<nat>, f: Expr): seq<Expr>
    requires GroupedBy(terms, group, f)
  {
    seq(|group|, k requires 0 <= k < |group| => QuotientOf(terms[group[k]], f))
  }

  /** The quotient of a term by one of its factors. */
  function QuotientOf(term: Expr, f: Expr): (q: Expr)
    requires f in FactorsOf(term)
    ensures Quotient(term, f) == Some(q)
  {
    Quotient(term, f).value
  }

  /** The unlisted terms followed by `f * (sum of the quotients)`. */
  function FactoredVariant(terms: seq<Expr>, f: Expr, group: seq<nat>): Expr
    requires GroupedBy(terms, group, f)
  {
    AddChain(Unlisted(terms, group) + [BinaryExpr(f, "*", AddChain(QuotientsAt(terms, group, f)))])
  }

  predicate IsLiteralOne(f: Expr)
  {
    f.Literal? && f.value == Some("1")
  }

  /** Every factor of every term. */
  function Candidates(terms: seq<Expr>): (r: set<Expr>)
    ensures forall f :: f in r <==> exists i :: 0 <= i < |terms| && f in FactorsOf(terms[i])
  {
    set i, g | 0 <= i < |terms| && g in FactorsOf(terms[i]) :: g
  }

  /** One variant per factor recorded at least twice, other than a literal 1. */
  function FactoredVariants(terms: seq<Expr>, rule: GroupRule): set<Expr>
  {
    set f | f in Candidates(terms) && |Group(terms, f, rule)| >= 2 && !IsLiteralOne(f)
      :: FactoredVariant(terms, f, Group(terms, f, rule))
  }

  /** The terms that do not have `f` among their factors, in order. */
  function Without(terms: seq<Expr>, f: Expr): seq<Expr>
  {
    if terms == [] then []
    else
      var n := |terms| - 1;
      Without(terms[..n], f) + if f in FactorsOf(terms[n]) then [] else [terms[n]]
  }

  /** The quotients by `f` of the terms that have it, in order. */
  function Shared(terms: seq<Expr>, f: Expr): seq<Expr>
  {
    if terms == [] then []
    else
      var n := |terms| - 1;
      Shared(terms[..n], f) + if f in FactorsOf(terms[n]) then [QuotientOf(terms[n], f)] else []
  }

  /** Under the per-term rule a position is in the group exactly when its
    * term has the factor. */
  lemma PerTermMembers(terms: seq<Expr>, f: Expr)
    ensures forall i :: 0 <= i < |terms| ==> (i in Group(terms, f, PerTerm) <==> f in FactorsOf(terms[i]))
  {
    GroupCounts(terms, f, PerTerm);
  }

  /** A group that lists exactly the terms having `f` leaves out the others. */
  lemma {:induction false} UnlistedIsFilter(terms: seq<Expr>, f: Expr, group: seq<nat>)
    requires forall i :: 0 <= i < |terms| ==> (i in group <==> f in FactorsOf(terms[i]))
    ensures Unlisted(terms, group) == Without(terms, f)
  {
    if terms != [] {
      var n := |terms| - 1;
      forall i | 0 <= i < n
        ensures i in group <==> f in FactorsOf(terms[..n][i])
      {
        assert terms[..n][i] == terms[i];
      }
      UnlistedIsFilter(terms[..n], f, group);
    }
  }

  /** Under the per-term rule the quotients come from the terms having `f`. */
  lemma {:induction false} QuotientsAtShared(terms: seq<Expr>, f: Expr)
    ensures QuotientsAt(terms, Group(terms, f, PerTerm), f) == Shared(terms, f)
  {
    if terms != [] {
      var n := |terms| - 1;
      var earlier := Group(terms[..n], f, PerTerm);
      QuotientsAtShared(terms[..n], f);
      var g := Group(terms, f, PerTerm);
      assert g == earlier + Repeat(n, Recorded(terms[n], f, PerTerm));
      assert |earlier| <= |g|;
      forall k | 0 <= k < |earlier|
        ensures QuotientsAt(terms, g, f)[k] == QuotientsAt(terms[..n], earlier, f)[k]
      {
        assert g[k] == earlier[k] && terms[..n][earlier[k]] == terms[earlier[k]];
      }
      if f in FactorsOf(terms[n]) {
        assert g == earlier + [n];
        assert QuotientsAt(terms, g, f) == QuotientsAt(terms[..n], earlier, f) + [QuotientOf(terms[n], f)];
      } else {
        assert g == earlier;
        assert QuotientsAt(terms, g, f) == QuotientsAt(terms[..n], earlier, f);
      }
    }
  }

  /** A sum splits into the terms without `f` plus `f` times the quotients. */
  lemma {:induction false} SharedSplit<V(!new)>(terms: seq<Expr>, f: Expr, I: Interp<V>)
    requires Laws(I.alg) && Numeric(I)
    ensures Sum(terms, I) == I.alg.add(Sum(Without(terms, f), I), I.alg.mul(Eval(f, I), Sum(Shared(terms, f), I)))
  {
    var A := I.alg;
    if terms == [] {
      assert A.mul(Eval(f, I), A.zero) == A.zero;
      Units(A, A.zero);
    } else {
      var n := |terms| - 1;
      var t := terms[n];
      SharedSplit(terms[..n], f, I);
      var w, s := Sum(Without(terms[..n], f), I), Sum(Shared(terms[..n], f), I);
      var F := Eval(f, I);
      assert Sum(terms, I) == A.add(Sum(terms[..n], I), Eval(t, I));
      assert Sum(terms[..n], I) == A.add(w, A.mul(F, s));
      if f in FactorsOf(t) {
        var q := QuotientOf(t, f);
        QuotientValue(t, f, I);
        var ss := Shared(terms[..n], f) + [q];
        assert Shared(terms, f) == ss && Without(terms, f) == Without(terms[..n], f);
        assert ss[..|ss| - 1] == Shared(terms[..n], f);
        assert Sum(ss, I) == A.add(s, Eval(q, I));
        assert Eval(t, I) == A.mul(F, Eval(q, I));
        ShareStep(A, w, F, s, Eval(q, I));
      } else {
        var ws := Without(terms[..n], f) + [t];
        assert Shared(terms, f) == Shared(terms[..n], f) && Without(terms, f) == ws;
        assert ws[..|ws| - 1] == Without(terms[..n], f);
        assert Sum(ws, I) == A.add(w, Eval(t, I));
        SkipStep(A, w, A.mul(F, s), Eval(t, I));
      }
    }
  }

  lemma ShareStep<V(!new)>(A: Algebra<V>, w: V, f: V, s: V, q: V)
    requires Laws(A)
    ensures A.add(A.add(w, A.mul(f, s)), A.mul(f, q)) == A.add(w, A.mul(f, A.add(s, q)))
  {
    AddAssoc(A, w, A.mul(f, s), A.mul(f, q));
    assert A.mul(f, A.add(s, q)) == A.add(A.mul(f, s), A.mul(f, q));
  }

  lemma SkipStep<V(!new)>(A: Algebra<V>, w: V, m: V, t: V)
    requires Laws(A)
    ensures A.add(A.add(w, m), t) == A.add(A.add(w, t), m)
  {
    AddAssoc(A, w, m, t);
    AddComm(A, m, t);
    AddAssoc(A, w, t, m);
  }

  /** Taking out a factor recorded once per term keeps the value of the sum. */
  lemma FactoredVariantValue<V(!new)>(terms: seq<Expr>, f: Expr, I: Interp<V>)
    requires Laws(I.alg) && Numeric(I)
    ensures Eval(FactoredVariant(terms, f, Group(terms, f, PerTerm)), I) == Sum(terms, I)
  {
    FactoredShape(terms, f);
    FactoredChainValue(terms, f, I);
  }

  /** The chain of the terms without `f` followed by `f` times the chain of
    * the others' quotients is worth the sum of the terms. */
  lemma FactoredChainValue<V(!new)>(terms: seq<Expr>, f: Expr, I: Interp<V>)
    requires Laws(I.alg) && Numeric(I)
    ensures Eval(AddChain(Without(terms, f) + [BinaryExpr(f, "*", AddChain(Shared(terms, f)))]), I) == Sum(terms, I)
  {
    var inner := BinaryExpr(f, "*", AddChain(Shared(terms, f)));
    SharedSplit(terms, f, I);
    AppendedChainValue(Without(terms, f), inner, I);
    AddChainValue(Shared(terms, f), I);
    ProductValue(f, AddChain(Shared(terms, f)), I);
  }

  lemma ProductValue<V(!new)>(a: Expr, b: Expr, I: Interp<V>)
    ensures Eval(BinaryExpr(a, "*", b), I) == I.alg.mul(Eval(a, I), Eval(b, I))
  {
    assert "*" != "+" && "*" != "-" by {
      assert "*"[0] != "+"[0] && "*"[0] != "-"[0];
    }
  }

  /** A chain with one more term at its end is worth the sum of the others
    * plus that term. */
  lemma AppendedChainValue<V(!new)>(rest: seq<Expr>, x: Expr, I: Interp<V>)
    requires Laws(I.alg) && Numeric(I)
    ensures Eval(AddChain(rest + [x]), I) == I.alg.add(Sum(rest, I), Eval(x, I))
  {
    AddChainValue(rest + [x], I);
    assert (rest + [x])[..|rest|] == rest;
  }

  /** With the per-term rule, the variant factored by `f` is the chain of
    * the terms without `f` followed by `f` times the chain of the others'
    * quotients. */
  lemma FactoredShape(terms: seq<Expr>, f: Expr)
    ensures FactoredVariant(terms, f, Group(terms, f, PerTerm))
         == AddChain(Without(terms, f) + [BinaryExpr(f, "*", AddChain(Shared(terms, f)))])
  {
    var g := Group(terms, f, PerTerm);
    PerTermMembers(terms, f);
    UnlistedIsFilter(terms, f, g);
    QuotientsAtShared(terms, f);
  }

  // ---------------------------------------------------------------------
  // Every reachable variant

  /** The groupings of a chain of more than two items, none otherwise. */
  function ChainGroupings(items: seq<Expr>, op: string): (r: set<Expr>)
    ensures |items| <= 2 ==> r == {}
  {
    if |items| > 2 then (set t | t in GenerateAll(items, op)) else {}
  }

  /** The variants of `e`: its children's variants recombined, plus the
    * groupings of a chain of more than two items, plus, for a sum, the
    * variants with a shared factor taken out. */
  function AllEquivalent(e: Expr, rule: GroupRule): set<Expr>
  {
    match e
    case Literal(_, _) => {e}
    case UnaryExpr(op, x) => set s | s in AllEquivalent(x, rule) :: UnaryExpr(op, s)
    case FunctionExpr(name, x) => set s | s in AllEquivalent(x, rule) :: FunctionExpr(name, s)
    case BinaryExpr(l, op, r) =>
      var joined := set a, b | a in AllEquivalent(l, rule) && b in AllEquivalent(r, rule) :: BinaryExpr(a, op, b);
      if op == "+" || op == "-" then
        var terms := FlattenAdd(e);
        joined + ChainGroupings(terms, "+") + FactoredVariants(terms, rule)
      else if op == "*" || op == "/" then
        joined + ChainGroupings(FlattenMul(e), "*")
      else joined
  }

  /** An expression is among its own variants. */
  lemma {:induction false} OwnFormIncluded(e: Expr, rule: GroupRule)
    ensures e in AllEquivalent(e, rule)
  {
    match e
    case Literal(_, _) =>
    case UnaryExpr(op, x) => OwnFormIncluded(x, rule);
    case FunctionExpr(name, x) => OwnFormIncluded(x, rule);
    case BinaryExpr(l, op, r) =>
      OwnFormIncluded(l, rule);
      OwnFormIncluded(r, rule);
  }

  /** With a factor recorded once per term, every variant has the value of
    * the expression it came from, in every algebra obeying the laws. */
  lemma {:induction false} EquivalentsKeepValue<V(!new)>(e: Expr, I: Interp<V>)
    requires Laws(I.alg) && Numeric(I)
    ensures forall v :: v in AllEquivalent(e, PerTerm) ==> Eval(v, I) == Eval(e, I)
  {
    match e
    case Literal(_, _) =>
    case UnaryExpr(op, x) => EquivalentsKeepValue(x, I);
    case FunctionExpr(name, x) => EquivalentsKeepValue(x, I);
    case BinaryExpr(l, op, r) =>
      EquivalentsKeepValue(l, I);
      EquivalentsKeepValue(r, I);
      ChainVariantsKeepValue(e, I);
  }

  /** The groupings and factored variants of a chain have its value. */
  lemma ChainVariantsKeepValue<V(!new)>(e: Expr, I: Interp<V>)
    requires Laws(I.alg) && Numeric(I) && e.BinaryExpr?
    ensures IsAdditive(e) ==> forall v :: v in ChainGroupings(FlattenAdd(e), "+") + FactoredVariants(FlattenAdd(e), PerTerm) ==> Eval(v, I) == Eval(e, I)
    ensures IsMultiplicative(e) ==> forall v :: v in ChainGroupings(FlattenMul(e), "*") ==> Eval(v, I) == Eval(e, I)
  {
    if IsAdditive(e) {
      var terms := FlattenAdd(e);
      FlattenAddKeepsValue(e, true, I);
      FlattenedPartsAreMaximal(e, true);
      assert NoneJoinedBy(terms, "+");
      GroupingsKeepValue(terms, I);
      forall v | v in FactoredVariants(terms, PerTerm)
        ensures Eval(v, I) == Eval(e, I)
      {
        var f :| f in Candidates(terms) && |Group(terms, f, PerTerm)| >= 2 && !IsLiteralOne(f)
          && v == FactoredVariant(terms, f, Group(terms, f, PerTerm));
        FactoredVariantValue(terms, f, I);
      }
    }
    if IsMultiplicative(e) {
      var factors := FlattenMul(e);
      FlattenMulKeepsValue(e, true, I);
      FlattenedPartsAreMaximal(e, true);
      assert NoneJoinedBy(factors, "*");
      GroupingsKeepValue(factors, I);
    }
  }

  /** Taking `a` out of `a*a + c` once per occurrence of `a` yields
    * `c + a*(a + a)`, which over the reals with `a = 1` and `c = 0` is 2
    * where the original is 1. */
  lemma RepeatedFactorChangesValue()
    ensures
      var a, c := Literal(Some("a"), Lexical.Constant), Literal(Some("c"), Lexical.Constant);
      var e := BinaryExpr(BinaryExpr(a, "*", a), "+", c);
      var v := BinaryExpr(c, "+", BinaryExpr(a, "*", BinaryExpr(a, "+", a)));
      && v in AllEquivalent(e, PerOccurrence)
      && Eval(e, SampleInterp()) == 1.0 && Eval(v, SampleInterp()) == 2.0
  {
    RepeatedFactorVariant();
    SampleValues();
  }

  lemma RepeatedFactorVariant()
    ensures
      var a, c := Literal(Some("a"), Lexical.Constant), Literal(Some("c"), Lexical.Constant);
      var e := BinaryExpr(BinaryExpr(a, "*", a), "+", c);
      BinaryExpr(c, "+", BinaryExpr(a, "*", BinaryExpr(a, "+", a))) in AllEquivalent(e, PerOccurrence)
  {
    var a, c := Literal(Some("a"), Lexical.Constant), Literal(Some("c"), Lexical.Constant);
    var aa := BinaryExpr(a, "*", a);
    var e := BinaryExpr(aa, "+", c);
    assert FlattenAdd(e) == [aa, c];
    SquareGroup(a, c);
    ProductFactors(a, a);
    FactoredIncluded(e, PerOccurrence, a);
    SquareVariant(a, c);
  }

  /** A factored variant of a sum is among its variants. */
  lemma FactoredIncluded(e: Expr, rule: GroupRule, f: Expr)
    requires e.BinaryExpr? && e.op == "+"
    requires f in Candidates(FlattenAdd(e)) && |Group(FlattenAdd(e), f, rule)| >= 2 && !IsLiteralOne(f)
    ensures FactoredVariant(FlattenAdd(e), f, Group(FlattenAdd(e), f, rule)) in AllEquivalent(e, rule)
  {
  }

  lemma SquareGroup(a: Expr, c: Expr)
    requires a.Literal? && c.Literal? && a != c
    ensures Group([BinaryExpr(a, "*", a), c], a, PerOccurrence) == [0, 0]
  {
    var aa := BinaryExpr(a, "*", a);
    ProductFactors(a, a);
    assert FactorsOf(c) == [c];
    assert [aa, c][..1] == [aa];
    assert Group([aa], a, PerOccurrence) == [0, 0];
  }

  lemma SquareVariant(a: Expr, c: Expr)
    requires a.Literal? && c.Literal? && a != c
    ensures GroupedBy([BinaryExpr(a, "*", a), c], [0, 0], a)
    ensures FactoredVariant([BinaryExpr(a, "*", a), c], a, [0, 0])
      == BinaryExpr(c, "+", BinaryExpr(a, "*", BinaryExpr(a, "+", a)))
  {
    var aa := BinaryExpr(a, "*", a);
    var terms := [aa, c];
    SquareParts(a, c);
    assert [a, a][..1] == [a];
    assert AddChain([a, a]) == BinaryExpr(a, "+", a);
    var x := BinaryExpr(a, "*", BinaryExpr(a, "+", a));
    assert [c] + [x] == [c, x] && [c, x][..1] == [c];
    assert AddChain([c]) == c && !IsNegation(x);
    assert AddChain([c, x]) == BinaryExpr(c, "+", x);
  }

  lemma SquareParts(a: Expr, c: Expr)
    requires a.Literal? && c.Literal? && a != c
    ensures GroupedBy([BinaryExpr(a, "*", a), c], [0, 0], a)
    ensures QuotientsAt([BinaryExpr(a, "*", a), c], [0, 0], a) == [a, a]
    ensures Unlisted([BinaryExpr(a, "*", a), c], [0, 0]) == [c]
  {
    var aa := BinaryExpr(a, "*", a);
    var terms := [aa, c];
    ProductFactors(a, a);
    assert Quotient(aa, a) == Some(a);
    assert terms[..1] == [aa];
    assert Unlisted([aa], [0, 0]) == [];
    assert 1 !in [0, 0];
  }


  lemma SampleValues()
    ensures
      var a, c := Literal(Some("a"), Lexical.Constant), Literal(Some("c"), Lexical.Constant);
      && Eval(BinaryExpr(BinaryExpr(a, "*", a), "+", c), SampleInterp()) == 1.0
      && Eval(BinaryExpr(c, "+", BinaryExpr(a, "*", BinaryExpr(a, "+", a))), SampleInterp()) == 2.0
  {
    var I := SampleInterp();
    var a, c := Literal(Some("a"), Lexical.Constant), Literal(Some("c"), Lexical.Constant);
    assert Eval(a, I) == 1.0;
    assert Eval(c, I) == 0.0;
    assert Eval(BinaryExpr(a, "*", a), I) == 1.0 * 1.0;
    assert Eval(BinaryExpr(a, "+", a), I) == 2.0;
    assert Eval(BinaryExpr(a, "*", BinaryExpr(a, "+", a)), I) == 1.0 * 2.0;
  }

  /** Reals where `a` is 1 and every other name is 0. */
  function SampleInterp(): (I: Interp<real>)
    ensures Numeric(I)
  {
    Interp(RealAlgebra(),
      (s: Option<string>, k: Lexical.TokenType) => if s == Some("a") || s == Some("1") then 1.0 else 0.0,
      (name: Option<string>, x: real) => x)
  }

  /** With a factor recorded once per term, `a*b + a*c` has the variant
    * `a*(b + c)`. */
  lemma SharedFactorExample(a: Expr, b: Expr, c: Expr)
    requires !IsMultiplicative(a) && !IsMultiplicative(b) && !IsMultiplicative(c)
    requires !IsAdditive(a) && !a.UnaryExpr? && !b.UnaryExpr? && !c.UnaryExpr?
    requires a != b && a != c && !IsLiteralOne(a)
    ensures BinaryExpr(a, "*", BinaryExpr(b, "+", c)) in AllEquivalent(BinaryExpr(BinaryExpr(a, "*", b), "+", BinaryExpr(a, "*", c)), PerTerm)
  {
    var ab, ac := BinaryExpr(a, "*", b), BinaryExpr(a, "*", c);
    var e := BinaryExpr(ab, "+", ac);
    assert FlattenAddFrom(ab, true) == [ab] && FlattenAddFrom(ac, true) == [ac];
    assert FlattenAdd(e) == [ab, ac];
    SharedGroup(a, b, c);
    ProductFactors(a, b);
    FactoredIncluded(e, PerTerm, a);
    SharedVariant(a, b, c);
  }

  lemma SharedGroup(a: Expr, b: Expr, c: Expr)
    requires !IsMultiplicative(a) && !IsMultiplicative(b) && !IsMultiplicative(c)
    requires !a.UnaryExpr? && !b.UnaryExpr? && !c.UnaryExpr?
    ensures Group([BinaryExpr(a, "*", b), BinaryExpr(a, "*", c)], a, PerTerm) == [0, 1]
  {
    var ab, ac := BinaryExpr(a, "*", b), BinaryExpr(a, "*", c);
    ProductFactors(a, b);
    ProductFactors(a, c);
    assert [ab, ac][..1] == [ab];
    assert Group([ab], a, PerTerm) == [0];
  }

  lemma SharedVariant(a: Expr, b: Expr, c: Expr)
    requires !IsMultiplicative(a) && !IsMultiplicative(b) && !IsMultiplicative(c)
    requires !a.UnaryExpr? && !b.UnaryExpr? && !c.UnaryExpr? && a != b && a != c
    ensures GroupedBy([BinaryExpr(a, "*", b), BinaryExpr(a, "*", c)], [0, 1], a)
    ensures FactoredVariant([BinaryExpr(a, "*", b), BinaryExpr(a, "*", c)], a, [0, 1])
      == BinaryExpr(a, "*", BinaryExpr(b, "+", c))
  {
    var ab, ac := BinaryExpr(a, "*", b), BinaryExpr(a, "*", c);
    var terms := [ab, ac];
    ProductFactors(a, b);
    ProductFactors(a, c);
    assert Quotient(ab, a) == Some(b);
    assert Quotient(ac, a) == Some(c);
    assert QuotientsAt(terms, [0, 1], a) == [b, c];
    assert terms[..1] == [ab];
    assert Unlisted([ab], [0, 1]) == [];
    assert Unlisted(terms, [0, 1]) == [];
    assert [b, c][..1] == [b];
    assert AddChain([b, c]) == BinaryExpr(b, "+", c);
    assert [] + [BinaryExpr(a, "*", BinaryExpr(b, "+", c))] == [BinaryExpr(a, "*", BinaryExpr(b, "+", c))];
  }

  /** The factors of a product of two parts that are not products. */
  lemma ProductFactors(a: Expr, b: Expr)
    requires !IsMultiplicative(a) && !IsMultiplicative(b)
    ensures FactorsOf(BinaryExpr(a, "*", b)) == [a, b]
  {
    assert FlattenMulFrom(a, true) == [a];
    assert FlattenMulFrom(b, true) == [b];
  }

  // ---------------------------------------------------------------------
  // Where the enumeration dereferences a missing text

  /** A factor recorded at least twice that is a literal without text: the
    * Java test for a literal 1 calls `equals` on its `null` text. */
  predicate NullFactorShared(terms: seq<Expr>, rule: GroupRule)
  {
    exists f | f in Candidates(terms) :: f.Literal? && f.value.None? && |Group(terms, f, rule)| >= 2
  }

  /** Whether enumerating the variants of `e` reaches a sum with a shared
    * literal factor without text, where the Java code throws. */
  predicate Dereferences(e: Expr, rule: GroupRule)
  {
    match e
    case Literal(_, _) => false
    case UnaryExpr(_, x) => Dereferences(x, rule)
    case FunctionExpr(_, x) => Dereferences(x, rule)
    case BinaryExpr(l, op, r) =>
      || Dereferences(l, rule) || Dereferences(r, rule)
      || ((op == "+" || op == "-") && NullFactorShared(FlattenAdd(e), rule))
  }

  lemma {:induction false} FlattenAddTexted(e: Expr, positive: bool)
    requires LiteralsTexted(e)
    ensures forall t :: t in FlattenAddFrom(e, positive) ==> LiteralsTexted(t)
  {
    if e.BinaryExpr? && (e.op == "+" || e.op == "-") {
      FlattenAddTexted(e.left, positive);
      FlattenAddTexted(e.right, if e.op == "+" then positive else !positive);
    }
  }

  lemma {:induction false} FlattenMulTexted(e: Expr, multiplier: bool)
    requires LiteralsTexted(e)
    ensures forall t :: t in FlattenMulFrom(e, multiplier) ==> LiteralsTexted(t)
  {
    if e.BinaryExpr? && (e.op == "*" || e.op == "/") {
      FlattenMulTexted(e.left, multiplier);
      FlattenMulTexted(e.right, if e.op == "*" then multiplier else !multiplier);
    }
  }

  /** An expression whose literals all carry their texts is enumerated
    * without dereferencing a missing text. */
  lemma {:induction false} TextedNeverDereferences(e: Expr, rule: GroupRule)
    requires LiteralsTexted(e)
    ensures !Dereferences(e, rule)
  {
    match e
    case Literal(_, _) =>
    case UnaryExpr(_, x) => TextedNeverDereferences(x, rule);
    case FunctionExpr(_, x) => TextedNeverDereferences(x, rule);
    case BinaryExpr(l, op, r) =>
      TextedNeverDereferences(l, rule);
      TextedNeverDereferences(r, rule);
      var terms := FlattenAdd(e);
      FlattenAddTexted(e, true);
      forall f | f in Candidates(terms)
        ensures !(f.Literal? && f.value.None?)
      {
        var i :| 0 <= i < |terms| && f in FactorsOf(terms[i]);
        assert terms[i] in terms;
        FlattenMulTexted(Unsigned(terms[i]), true);
      }
  }

  /** A literal without text added to itself is a shared factor of the sum,
    * so its enumeration throws under either recording rule. */
  lemma NullSharedFactorThrows(k: Lexical.TokenType, rule: GroupRule)
    ensures var x := Literal(None, k); Dereferences(BinaryExpr(x, "+", x), rule)
  {
    var x := Literal(None, k);
    var terms := FlattenAdd(BinaryExpr(x, "+", x));
    assert terms == [x, x];
    assert FactorsOf(x) == [x];
    assert x in FactorsOf(terms[0]);
    assert x in Candidates(terms);
    assert terms[..1] == [x];
    assert Group(terms[..1], x, rule) == [0];
    assert Group(terms, x, rule) == [0, 1];
  }

  // ---------------------------------------------------------------------
  // The printed variants of a token list

  /** Why the enumeration throws a `NullPointerException`: the parser stored
    * an operator without text, which the enumerator compares with `equals`,
    * or a sum shares a literal factor without text. */
  datatype TransformFailure = NullOperator | NullFactor

  /** The printed variants of the parsed token list: none when a token starts
    * no factor, and a failure where the Java code dereferences a missing
    * text. */
  function EquivalentForms(tokens: seq<Lexical.Token>, rule: GroupRule): (r: Result<set<string>, TransformFailure>)
    ensures r == Failure(NullOperator) <==> AssociativeParser.Parse(tokens) == Failure(AssociativeParser.MissingOperator)
    ensures r == Failure(NullFactor) <==>
      AssociativeParser.Parse(tokens).Success? && Dereferences(AssociativeParser.Parse(tokens).value, rule)
    ensures AssociativeParser.Parse(tokens) == Failure(AssociativeParser.NoFactor) ==> r == Success({})
  {
    match AssociativeParser.Parse(tokens)
    case Failure(f) => if f.NoFactor? then Success({}) else Failure(NullOperator)
    case Success(e) =>
      if Dereferences(e, rule) then Failure(NullFactor)
      else Success(set v | v in AllEquivalent(e, rule) :: ToString(v))
  }

  /** The enumeration throws only on a missing text: when every operator and
    * literal token carries its text, it yields its set of forms. */
  lemma TextedQueryNeverThrows(tokens: seq<Lexical.Token>, rule: GroupRule)
    requires AssociativeParser.OperatorsValued(tokens) && AssociativeParser.LiteralsValued(tokens)
    ensures EquivalentForms(tokens, rule).Success?
  {
    AssociativeParser.ValuedExpression(tokens, 0);
    if AssociativeParser.Parse(tokens).Success? {
      TextedNeverDereferences(AssociativeParser.Parse(tokens).value, rule);
    }
  }

  /** When the enumeration yields forms for a parsed input, the printed input
    * is among them, and every form prints a variant with the input's value. */
  lemma FormsMeanTheInput<V(!new)>(tokens: seq<Lexical.Token>, I: Interp<V>)
    requires Laws(I.alg) && Numeric(I)
    ensures AssociativeParser.Parse(tokens).Success? && EquivalentForms(tokens, PerTerm).Success? ==>
      var e := AssociativeParser.Parse(tokens).value;
      && ToString(e) in EquivalentForms(tokens, PerTerm).value
      && forall s :: s in EquivalentForms(tokens, PerTerm).value ==>
           exists v :: v in AllEquivalent(e, PerTerm) && ToString(v) == s && Eval(v, I) == Eval(e, I)
  {
    if AssociativeParser.Parse(tokens).Success? {
      var e := AssociativeParser.Parse(tokens).value;
      OwnFormIncluded(e, PerTerm);
      EquivalentsKeepValue(e, I);
    }
  }

  /** Parses the tokens and prints every variant of the result, each once.
    * Under `PerOccurrence` it groups terms as the code is written; under
    * `PerTerm`, as the grouping is meant, every form keeps the input's
    * value (`FormsMeanTheInput`). */
  method GenerateEquivalentExpressions(tokens: seq<Lexical.Token>, rule: GroupRule) returns (forms: Result<set<string>, TransformFailure>)
    ensures forms == EquivalentForms(tokens, rule)
  {
    var parser := new AssociativeParser.Parser(tokens);
    var initial := parser.Parse();
    if initial.Failure? {
      assert AssociativeParser.Parse(tokens) == Failure(initial.error);
      return if initial.error.NoFactor? then Success({}) else Failure(NullOperator);
    }
    assert AssociativeParser.Parse(tokens) == initial;
    if Dereferences(initial.value, rule) {
      return Failure(NullFactor);
    }
    var all := AllEquivalent(initial.value, rule);
    var rest := all;
    var printed := {};
    while rest != {}
      invariant rest <= all
      invariant printed == set v | v in all - rest :: ToString(v)
      decreases rest
    {
      var v :| v in rest;
      printed := printed + {ToString(v)};
      rest := rest - {v};
    }
    assert all - rest == all;
    return Success(printed);
  }
}
