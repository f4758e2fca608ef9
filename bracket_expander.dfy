/**
 * The bracket expander.  It parses a token list into immutable nodes and
 * rewrites the tree bottom-up by the distributive laws: a product with a
 * sum or difference on either side is multiplied out, a quotient whose
 * dividend is a sum or difference is split into one quotient per term, and
 * a subtraction of a sum or difference distributes the minus over its
 * terms.  The rewriting pass is repeated until the printed tree stops
 * changing; `ProcessIsIdempotent` shows that the second pass never changes
 * it, so the repetition stops after at most two passes.
 */
module BracketExpand {
  import opened Wrappers
  import Lexical
  import opened Algebraic
  import opened BracketNode

  // ---------------------------------------------------------------------
  // Parsing

  /** Why no form is produced: reading past the end of the list, a token
    * without a kind, a token no factor starts with, an operator without a
    * text met by the rewriting pass, and a whole expression that is a leaf
    * without text. */
  datatype ExpandError =
    | OutOfRange
    | MissingTokenType
    | UnexpectedToken(token: Lexical.Token)
    | MissingOperator
    | NullText

  /** The tree as the parser builds it: each operator node keeps its token's
    * text as it is, missing (`null` in Java) or not. */
  datatype Parsed =
    | ParsedLeaf(value: Option<string>)
    | ParsedUnary(operation: string, child: Parsed)
    | ParsedBinary(operator: Option<string>, left: Parsed, right: Parsed)

  predicate IsKind(tokens: seq<Lexical.Token>, pos: nat, k: Lexical.TokenType)
  {
    pos < |tokens| && tokens[pos].tokenType == Some(k)
  }

  /** An expression: a left-leaning chain of terms joined by plus or minus,
    * each node keeping its operator token's text. */
  function ExpressionFrom(tokens: seq<Lexical.Token>, pos: nat): (r: Result<(Parsed, nat), ExpandError>)
    requires pos <= |tokens|
    ensures r.Success? ==> pos < r.value.1 <= |tokens|
    ensures r != Failure(MissingOperator)
    decreases |tokens| - pos, 4
  {
    match TermFrom(tokens, pos)
    case Failure(e) => Failure(e)
    case Success((t, p)) => ExpressionLoop(tokens, p, t)
  }

  function ExpressionLoop(tokens: seq<Lexical.Token>, pos: nat, acc: Parsed): (r: Result<(Parsed, nat), ExpandError>)
    requires pos <= |tokens|
    ensures r.Success? ==> pos <= r.value.1 <= |tokens|
    ensures r != Failure(MissingOperator)
    decreases |tokens| - pos, 3
  {
    if !(IsKind(tokens, pos, Lexical.OperationAdd) || IsKind(tokens, pos, Lexical.OperationMinus)) then
      Success((acc, pos))
    else
      match TermFrom(tokens, pos + 1)
      case Failure(e) => Failure(e)
      case Success((right, p)) => ExpressionLoop(tokens, p, ParsedBinary(tokens[pos].value, acc, right))
  }

  /** A term: a left-leaning chain of factors joined by times or divide. */
  function TermFrom(tokens: seq<Lexical.Token>, pos: nat): (r: Result<(Parsed, nat), ExpandError>)
    requires pos <= |tokens|
    ensures r.Success? ==> pos < r.value.1 <= |tokens|
    ensures r != Failure(MissingOperator)
    decreases |tokens| - pos, 2
  {
    match FactorFrom(tokens, pos)
    case Failure(e) => Failure(e)
    case Success((t, p)) => TermLoop(tokens, p, t)
  }

  function TermLoop(tokens: seq<Lexical.Token>, pos: nat, acc: Parsed): (r: Result<(Parsed, nat), ExpandError>)
    requires pos <= |tokens|
    ensures r.Success? ==> pos <= r.value.1 <= |tokens|
    ensures r != Failure(MissingOperator)
    decreases |tokens| - pos, 1
  {
    if !(IsKind(tokens, pos, Lexical.OperationMultiply) || IsKind(tokens, pos, Lexical.OperationDivide)) then
      Success((acc, pos))
    else
      match FactorFrom(tokens, pos + 1)
      case Failure(e) => Failure(e)
      case Success((right, p)) => TermLoop(tokens, p, ParsedBinary(tokens[pos].value, acc, right))
  }

  /** A factor: a negation, a bracketed expression whose closing bracket is
    * taken only when present, or an operand (a function name counts as one
    * and becomes a leaf). */
  function FactorFrom(tokens: seq<Lexical.Token>, pos: nat): (r: Result<(Parsed, nat), ExpandError>)
    requires pos <= |tokens|
    ensures r.Success? ==> pos < r.value.1 <= |tokens|
    ensures r != Failure(MissingOperator)
    decreases |tokens| - pos, 0
  {
    if pos == |tokens| then Failure(OutOfRange)
    else
      var t := tokens[pos];
      if t.tokenType == Some(Lexical.OperationMinus) then
        match FactorFrom(tokens, pos + 1)
        case Failure(e) => Failure(e)
        case Success((child, p)) => Success((ParsedUnary("-", child), p))
      else if t.tokenType == Some(Lexical.OpenBracket) then
        match ExpressionFrom(tokens, pos + 1)
        case Failure(e) => Failure(e)
        case Success((inner, p)) => Success((inner, if IsKind(tokens, p, Lexical.CloseBracket) then p + 1 else p))
      else if t.tokenType.None? then Failure(MissingTokenType)
      else if t.tokenType.value in Lexical.OperandTypes then Success((ParsedLeaf(t.value), pos + 1))
      else Failure(UnexpectedToken(t))
  }

  /** A `+`/`-` chain nests to the left: unless the loop read nothing, the
    * root of its tree is a node for its last operator token `q`, whose right
    * operand is the term read just after `q` and ends where the chain ends. */
  lemma {:induction false} ChainRootIsLastOperator(tokens: seq<Lexical.Token>, pos: nat, acc: Parsed) returns (q: nat)
    requires pos <= |tokens| && ExpressionLoop(tokens, pos, acc).Success?
    ensures var (n, p) := ExpressionLoop(tokens, pos, acc).value;
      && (p == pos ==> n == acc)
      && (p > pos ==>
            && pos <= q < p
            && (IsKind(tokens, q, Lexical.OperationAdd) || IsKind(tokens, q, Lexical.OperationMinus))
            && n.ParsedBinary? && n.operator == tokens[q].value
            && TermFrom(tokens, q + 1) == Success((n.right, p)))
    decreases |tokens| - pos
  {
    q := pos;
    if IsKind(tokens, pos, Lexical.OperationAdd) || IsKind(tokens, pos, Lexical.OperationMinus) {
      var (right, p1) := TermFrom(tokens, pos + 1).value;
      var acc' := ParsedBinary(tokens[pos].value, acc, right);
      assert ExpressionLoop(tokens, pos, acc) == ExpressionLoop(tokens, p1, acc');
      var p := ExpressionLoop(tokens, p1, acc').value.1;
      if p > p1 {
        q := ChainRootIsLastOperator(tokens, p1, acc');
      }
    }
  }

  /** Whether every operator node of the tree has its text. */
  predicate OperatorsPresent(t: Parsed)
  {
    match t
    case ParsedLeaf(_) => true
    case ParsedUnary(_, c) => OperatorsPresent(c)
    case ParsedBinary(op, l, r) => op.Some? && OperatorsPresent(l) && OperatorsPresent(r)
  }

  /** The parsed tree with its operator texts in place, as the node tree the
    * rewriting pass works on.  The pass compares every operator's text, so
    * a tree with an operator without text fails with `MissingOperator`. */
  function Built(t: Parsed): (r: Result<Node, ExpandError>)
    ensures r.Success? <==> OperatorsPresent(t)
    ensures r.Failure? ==> r.error == MissingOperator
    ensures r.Success? ==> Unbuilt(r.value) == t
  {
    match t
    case ParsedLeaf(v) => Success(Leaf(v))
    case ParsedUnary(op, c) =>
      (match Built(c)
       case Failure(e) => Failure(e)
       case Success(n) => Success(Unary(op, n)))
    case ParsedBinary(op, l, r) =>
      (match Built(l)
       case Failure(e) => Failure(e)
       case Success(ln) =>
         match Built(r)
         case Failure(e) => Failure(e)
         case Success(rn) => if op.None? then Failure(MissingOperator) else Success(Binary(op.value, ln, rn)))
  }

  /** A node tree as the parser would have built it. */
  function Unbuilt(n: Node): Parsed
  {
    match n
    case Leaf(v) => ParsedLeaf(v)
    case Unary(op, c) => ParsedUnary(op, Unbuilt(c))
    case Binary(op, l, r) => ParsedBinary(Some(op), Unbuilt(l), Unbuilt(r))
  }

  /** Building undoes `Unbuilt`: every node tree is built back from its
    * parsed form. */
  lemma {:induction false} BuiltUnbuilt(n: Node)
    ensures Built(Unbuilt(n)) == Success(n)
  {
    match n
    case Leaf(_) =>
    case Unary(_, c) => BuiltUnbuilt(c);
    case Binary(_, l, r) => BuiltUnbuilt(l); BuiltUnbuilt(r);
  }

  /** Whether every plus, minus, times and divide token has a text. */
  predicate OperatorTexts(tokens: seq<Lexical.Token>)
  {
    forall i :: 0 <= i < |tokens| && tokens[i].tokenType in {Some(Lexical.OperationAdd), Some(Lexical.OperationMinus), Some(Lexical.OperationMultiply), Some(Lexical.OperationDivide)} ==>
      tokens[i].value.Some?
  }

  /** When every operator token has its text, every tree read has all its
    * operator texts, so `MissingOperator` never arises. */
  lemma {:induction false} PresentExpression(tokens: seq<Lexical.Token>, pos: nat)
    requires pos <= |tokens|
    ensures OperatorTexts(tokens) && ExpressionFrom(tokens, pos).Success? ==> OperatorsPresent(ExpressionFrom(tokens, pos).value.0)
    decreases |tokens| - pos, 4
  {
    PresentTerm(tokens, pos);
    if TermFrom(tokens, pos).Success? {
      var (t, p) := TermFrom(tokens, pos).value;
      PresentExpressionLoop(tokens, p, t);
    }
  }

  lemma {:induction false} PresentExpressionLoop(tokens: seq<Lexical.Token>, pos: nat, acc: Parsed)
    requires pos <= |tokens|
    ensures OperatorTexts(tokens) && OperatorsPresent(acc) && ExpressionLoop(tokens, pos, acc).Success? ==>
      OperatorsPresent(ExpressionLoop(tokens, pos, acc).value.0)
    decreases |tokens| - pos, 3
  {
    if IsKind(tokens, pos, Lexical.OperationAdd) || IsKind(tokens, pos, Lexical.OperationMinus) {
      PresentTerm(tokens, pos + 1);
      if TermFrom(tokens, pos + 1).Success? {
        var (right, p) := TermFrom(tokens, pos + 1).value;
        PresentExpressionLoop(tokens, p, ParsedBinary(tokens[pos].value, acc, right));
      }
    }
  }

  lemma {:induction false} PresentTerm(tokens: seq<Lexical.Token>, pos: nat)
    requires pos <= |tokens|
    ensures OperatorTexts(tokens) && TermFrom(tokens, pos).Success? ==> OperatorsPresent(TermFrom(tokens, pos).value.0)
    decreases |tokens| - pos, 2
  {
    PresentFactor(tokens, pos);
    if FactorFrom(tokens, pos).Success? {
      var (t, p) := FactorFrom(tokens, pos).value;
      PresentTermLoop(tokens, p, t);
    }
  }

  lemma {:induction false} PresentTermLoop(tokens: seq<Lexical.Token>, pos: nat, acc: Parsed)
    requires pos <= |tokens|
    ensures OperatorTexts(tokens) && OperatorsPresent(acc) && TermLoop(tokens, pos, acc).Success? ==>
      OperatorsPresent(TermLoop(tokens, pos, acc).value.0)
    decreases |tokens| - pos, 1
  {
    if IsKind(tokens, pos, Lexical.OperationMultiply) || IsKind(tokens, pos, Lexical.OperationDivide) {
      PresentFactor(tokens, pos + 1);
      if FactorFrom(tokens, pos + 1).Success? {
        var (right, p) := FactorFrom(tokens, pos + 1).value;
        PresentTermLoop(tokens, p, ParsedBinary(tokens[pos].value, acc, right));
      }
    }
  }

  lemma {:induction false} PresentFactor(tokens: seq<Lexical.Token>, pos: nat)
    requires pos <= |tokens|
    ensures OperatorTexts(tokens) && FactorFrom(tokens, pos).Success? ==> OperatorsPresent(FactorFrom(tokens, pos).value.0)
    decreases |tokens| - pos, 0
  {
    if pos < |tokens| {
      if tokens[pos].tokenType == Some(Lexical.OperationMinus) {
        PresentFactor(tokens, pos + 1);
      } else if tokens[pos].tokenType == Some(Lexical.OpenBracket) {
        PresentExpression(tokens, pos + 1);
      }
    }
  }

  /** The token texts side by side, a missing text as "null". */
  function TokenText(tokens: seq<Lexical.Token>): string
  {
    if tokens == [] then []
    else TokenText(tokens[..|tokens| - 1]) + (var v := tokens[|tokens| - 1].value; if v.Some? then v.value else "null")
  }

  // ---------------------------------------------------------------------
  // Terms of a sum

  /** A term with its sign. */
  datatype Signed = Signed(positive: bool, term: Node)

  /** A sum or a difference. */
  predicate IsAdditive(n: Node)
  {
    n.Binary? && (n.operation == "+" || n.operation == "-")
  }

  /** A node that flattening keeps whole: not a sum, a difference or a
    * negation. */
  predicate IsTerm(n: Node)
  {
    !IsAdditive(n) && !(n.Unary? && n.operation == "-")
  }

  /** The three shapes the distributive laws rewrite: a product with a sum
    * or difference on either side, a quotient of one, and a subtraction of
    * one. */
  predicate IsDistributable(n: Node)
    requires n.Binary?
  {
    || (n.operation == "*" && (IsAdditive(n.left) || IsAdditive(n.right)))
    || (n.operation == "/" && IsAdditive(n.left))
    || (n.operation == "-" && IsAdditive(n.right))
  }

  /** A tree with no node of those shapes. */
  predicate Normal(n: Node)
  {
    match n
    case Leaf(_) => true
    case Unary(_, c) => Normal(c)
    case Binary(_, l, r) => !IsDistributable(n) && Normal(l) && Normal(r)
  }

  predicate AllTerms(ts: seq<Signed>)
  {
    forall i :: 0 <= i < |ts| ==> IsTerm(ts[i].term)
  }

  predicate AllNormal(ts: seq<Signed>)
  {
    forall i :: 0 <= i < |ts| ==> Normal(ts[i].term)
  }

  /** The signed terms of a node, left to right: plus keeps the sign, minus
    * flips it on its right side, a negation flips it and descends, and any
    * other node is one term with the sign reached. */
  function Flatten(n: Node, positive: bool): (r: seq<Signed>)
    ensures |r| >= 1 && AllTerms(r)
    ensures Normal(n) ==> AllNormal(r)
  {
    match n
    case Binary(op, l, r) =>
      if op == "+" then Flatten(l, positive) + Flatten(r, positive)
      else if op == "-" then Flatten(l, positive) + Flatten(r, !positive)
      else [Signed(positive, n)]
    case Unary(op, c) =>
      if op == "-" then Flatten(c, !positive) else [Signed(positive, n)]
    case Leaf(_) => [Signed(positive, n)]
  }

  /** The terms with every sign flipped. */
  function Inverted(ts: seq<Signed>): (r: seq<Signed>)
    ensures |r| == |ts|
  {
    if ts == [] then []
    else var last := ts[|ts| - 1];
      Inverted(ts[..|ts| - 1]) + [Signed(!last.positive, last.term)]
  }

  /** One product per term of `rs`, each the term `l` times it, positive
    * exactly when the two signs agree. */
  function Row(l: Signed, rs: seq<Signed>): (r: seq<Signed>)
    ensures |r| == |rs|
  {
    if rs == [] then []
    else var last := rs[|rs| - 1];
      Row(l, rs[..|rs| - 1]) + [Signed(l.positive == last.positive, Binary("*", l.term, last.term))]
  }

  /** Every product of a term of `ls` and a term of `rs`, by rows of `ls`. */
  function Products(ls: seq<Signed>, rs: seq<Signed>): (r: seq<Signed>)
    ensures ls != [] && rs != [] ==> r != []
  {
    if ls == [] then [] else Products(ls[..|ls| - 1], rs) + Row(ls[|ls| - 1], rs)
  }

  /** One quotient per term of `ls`, each keeping its term's sign and
    * sharing the divisor. */
  function Quotients(ls: seq<Signed>, divisor: Node): (r: seq<Signed>)
    ensures |r| == |ls|
  {
    if ls == [] then []
    else var last := ls[|ls| - 1];
      Quotients(ls[..|ls| - 1], divisor) + [Signed(last.positive, Binary("/", last.term, divisor))]
  }

  /** The signed terms as a left-leaning chain: the first term, negated when
    * negative, then each term added or subtracted by its sign; the leaf "0"
    * for no terms. */
  function Sum(ts: seq<Signed>): (r: Node)
  {
    if ts == [] then Leaf(Some("0"))
    else if |ts| == 1 then (if ts[0].positive then ts[0].term else Unary("-", ts[0].term))
    else
      var last := ts[|ts| - 1];
      Binary(if last.positive then "+" else "-", Sum(ts[..|ts| - 1]), last.term)
  }

  /** A distributable node rewritten by its law. */
  function Distributed(n: Node): Node
    requires n.Binary? && IsDistributable(n)
  {
    if n.operation == "*" then Sum(Products(Flatten(n.left, true), Flatten(n.right, true)))
    else if n.operation == "/" then Sum(Quotients(Flatten(n.left, true), n.right))
    else Sum(Flatten(n.left, true) + Inverted(Flatten(n.right, true)))
  }

  /** One rewriting pass: children first, then the rebuilt node, which is
    * rewritten when distributable; leaves stay as they are. */
  function Process(n: Node): Node
  {
    match n
    case Leaf(_) => n
    case Unary(op, c) => Unary(op, Process(c))
    case Binary(op, l, r) =>
      var b := Binary(op, Process(l), Process(r));
      if IsDistributable(b) then Distributed(b) else b
  }

  // ---------------------------------------------------------------------
  // The layout of the new terms

  /** Flipping every sign twice gives the terms back. */
  lemma {:induction false} InvertedTwice(ts: seq<Signed>)
    ensures Inverted(Inverted(ts)) == ts
    ensures forall i :: 0 <= i < |ts| ==> Inverted(ts)[i] == Signed(!ts[i].positive, ts[i].term)
  {
    if ts != [] {
      InvertedTwice(ts[..|ts| - 1]);
      var r := Inverted(ts);
      assert r[..|r| - 1] == Inverted(ts[..|ts| - 1]);
      assert ts == ts[..|ts| - 1] + [ts[|ts| - 1]];
    }
  }

  /** Row `i` holds the product of the `i`-th left term with every right
    * term, in order. */
  lemma {:induction false} RowLayout(l: Signed, rs: seq<Signed>)
    ensures forall j :: 0 <= j < |rs| ==>
      Row(l, rs)[j] == Signed(l.positive == rs[j].positive, Binary("*", l.term, rs[j].term))
  {
    if rs != [] {
      RowLayout(l, rs[..|rs| - 1]);
    }
  }

  /** There is one product per pair of terms. */
  lemma {:induction false} ProductsLength(ls: seq<Signed>, rs: seq<Signed>)
    ensures |Products(ls, rs)| == |ls| * |rs|
  {
    if ls != [] {
      ProductsLength(ls[..|ls| - 1], rs);
      assert (|ls| - 1) * |rs| + |rs| == |ls| * |rs|;
    }
  }

  /** The products come row by row: position `i * |rs| + j` holds the
    * product of left term `i` and right term `j`, positive exactly when
    * their signs agree. */
  lemma {:induction false} ProductsEntry(ls: seq<Signed>, rs: seq<Signed>, i: nat, j: nat)
    requires i < |ls| && j < |rs|
    ensures i * |rs| + j < |Products(ls, rs)|
    ensures Products(ls, rs)[i * |rs| + j] == Signed(ls[i].positive == rs[j].positive, Binary("*", ls[i].term, rs[j].term))
  {
    var n := |ls| - 1;
    var prefix := Products(ls[..n], rs);
    ProductsLength(ls[..n], rs);
    ProductsLength(ls, rs);
    RowIndex(i, j, n, |rs|);
    if i < n {
      ProductsEntry(ls[..n], rs, i, j);
    } else {
      RowLayout(ls[n], rs);
    }
  }

  lemma RowIndex(i: nat, j: nat, n: nat, width: nat)
    requires i <= n && j < width
    ensures i < n ==> i * width + j < n * width
    ensures i == n ==> i * width + j - n * width == j
  {
    if i < n {
      assert (i + 1) * width <= n * width;
    }
  }

  /** Quotient `i` divides left term `i` by the shared divisor and keeps
    * its sign. */
  lemma {:induction false} QuotientsLayout(ls: seq<Signed>, divisor: Node)
    ensures forall i :: 0 <= i < |ls| ==>
      Quotients(ls, divisor)[i] == Signed(ls[i].positive, Binary("/", ls[i].term, divisor))
  {
    if ls != [] {
      QuotientsLayout(ls[..|ls| - 1], divisor);
    }
  }

  // ---------------------------------------------------------------------
  // One pass leaves nothing to rewrite

  /** A chain built from normal terms has nothing to rewrite. */
  lemma {:induction false} SumNormal(ts: seq<Signed>)
    requires AllTerms(ts) && AllNormal(ts)
    ensures Normal(Sum(ts))
  {
    if |ts| >= 2 {
      SumNormal(ts[..|ts| - 1]);
    }
  }

  lemma {:induction false} InvertedTerms(ts: seq<Signed>)
    requires AllTerms(ts) && AllNormal(ts)
    ensures AllTerms(Inverted(ts)) && AllNormal(Inverted(ts))
  {
    InvertedTwice(ts);
  }

  lemma {:induction false} ProductTerms(ls: seq<Signed>, rs: seq<Signed>)
    requires AllTerms(ls) && AllNormal(ls) && AllTerms(rs) && AllNormal(rs)
    ensures AllTerms(Products(ls, rs)) && AllNormal(Products(ls, rs))
  {
    if ls != [] {
      ProductTerms(ls[..|ls| - 1], rs);
      RowTerms(ls[|ls| - 1], rs);
    }
  }

  lemma {:induction false} RowTerms(l: Signed, rs: seq<Signed>)
    requires IsTerm(l.term) && Normal(l.term) && AllTerms(rs) && AllNormal(rs)
    ensures AllTerms(Row(l, rs)) && AllNormal(Row(l, rs))
  {
    if rs != [] {
      RowTerms(l, rs[..|rs| - 1]);
    }
  }

  lemma {:induction false} QuotientTerms(ls: seq<Signed>, divisor: Node)
    requires AllTerms(ls) && AllNormal(ls) && Normal(divisor)
    ensures AllTerms(Quotients(ls, divisor)) && AllNormal(Quotients(ls, divisor))
  {
    if ls != [] {
      QuotientTerms(ls[..|ls| - 1], divisor);
    }
  }

  /** Rewriting a distributable node whose children are normal leaves a
    * normal tree. */
  lemma DistributedNormal(n: Node)
    requires n.Binary? && IsDistributable(n) && Normal(n.left) && Normal(n.right)
    ensures Normal(Distributed(n))
  {
    var ls, rs := Flatten(n.left, true), Flatten(n.right, true);
    if n.operation == "*" {
      ProductTerms(ls, rs);
      SumNormal(Products(ls, rs));
    } else if n.operation == "/" {
      QuotientTerms(ls, n.right);
      SumNormal(Quotients(ls, n.right));
    } else {
      InvertedTerms(rs);
      SumNormal(ls + Inverted(rs));
    }
  }

  /** After one pass no node is left to rewrite. */
  lemma {:induction false} ProcessNormal(n: Node)
    ensures Normal(Process(n))
  {
    match n
    case Leaf(_) =>
    case Unary(_, c) => ProcessNormal(c);
    case Binary(op, l, r) =>
      ProcessNormal(l);
      ProcessNormal(r);
      var b := Binary(op, Process(l), Process(r));
      if IsDistributable(b) {
        DistributedNormal(b);
      }
  }

  /** A pass over a tree with nothing to rewrite gives the same tree. */
  lemma {:induction false} NormalIsFixed(n: Node)
    requires Normal(n)
    ensures Process(n) == n
  {
    match n
    case Leaf(_) =>
    case Unary(_, c) => NormalIsFixed(c);
    case Binary(_, l, r) =>
      NormalIsFixed(l);
      NormalIsFixed(r);
  }

  /** A second pass changes nothing. */
  lemma ProcessIsIdempotent(n: Node)
    ensures Process(Process(n)) == Process(n)
  {
    ProcessNormal(n);
    NormalIsFixed(Process(n));
  }

  // ---------------------------------------------------------------------
  // A pass keeps the value

  function SignedValue<V(!new)>(s: Signed, M: Semantics<V>): V
  {
    if s.positive then Value(s.term, M) else M.alg.neg(Value(s.term, M))
  }

  /** The value of the signed terms added up. */
  function SignedSum<V(!new)>(ts: seq<Signed>, M: Semantics<V>): V
  {
    if ts == [] then M.alg.zero
    else M.alg.add(SignedSum(ts[..|ts| - 1], M), SignedValue(ts[|ts| - 1], M))
  }

  function WithSign<V(!new)>(positive: bool, v: V, M: Semantics<V>): V
  {
    if positive then v else M.alg.neg(v)
  }

  lemma NegZero<V(!new)>(A: Algebra<V>)
    requires Laws(A)
    ensures A.neg(A.zero) == A.zero
  {
    calc {
      A.neg(A.zero);
      { assert A.mul(A.zero, A.zero) == A.zero; }
      A.neg(A.mul(A.zero, A.zero));
      A.mul(A.zero, A.neg(A.zero));
      { MulComm(A, A.zero, A.neg(A.zero)); }
      A.mul(A.neg(A.zero), A.zero);
      A.zero;
    }
  }

  lemma {:induction false} SignedSumAppend<V(!new)>(a: seq<Signed>, b: seq<Signed>, M: Semantics<V>)
    requires Laws(M.alg)
    ensures SignedSum(a + b, M) == M.alg.add(SignedSum(a, M), SignedSum(b, M))
    decreases |b|
  {
    var A := M.alg;
    if b == [] {
      assert a + b == a;
      AddComm(A, SignedSum(a, M), A.zero);
    } else {
      var b' := b[..|b| - 1];
      assert (a + b)[..|a + b| - 1] == a + b';
      SignedSumAppend(a, b', M);
      AddAssoc(A, SignedSum(a, M), SignedSum(b', M), SignedValue(b[|b| - 1], M));
    }
  }

  /** The signed terms of a node add up to its value, with the sign. */
  lemma {:induction false} FlattenValue<V(!new)>(n: Node, positive: bool, M: Semantics<V>)
    requires Laws(M.alg)
    ensures SignedSum(Flatten(n, positive), M) == WithSign(positive, Value(n, M), M)
  {
    var A := M.alg;
    match n
    case Binary(op, l, r) =>
      if op == "+" || op == "-" {
        var rp := if op == "+" then positive else !positive;
        FlattenValue(l, positive, M);
        FlattenValue(r, rp, M);
        SignedSumAppend(Flatten(l, positive), Flatten(r, rp), M);
        NegLaws(A, Value(l, M), Value(r, M));
        NegLaws(A, Value(l, M), A.neg(Value(r, M)));
      } else {
        SingleValue(Signed(positive, n), M);
      }
    case Unary(op, c) =>
      if op == "-" {
        FlattenValue(c, !positive, M);
      } else {
        SingleValue(Signed(positive, n), M);
      }
    case Leaf(_) =>
      SingleValue(Signed(positive, n), M);
  }

  lemma SingleValue<V(!new)>(s: Signed, M: Semantics<V>)
    requires Laws(M.alg)
    ensures SignedSum([s], M) == SignedValue(s, M)
  {
    assert [s][..0] == [];
  }

  /** Flipping every sign negates the total. */
  lemma {:induction false} InvertedValue<V(!new)>(ts: seq<Signed>, M: Semantics<V>)
    requires Laws(M.alg)
    ensures SignedSum(Inverted(ts), M) == M.alg.neg(SignedSum(ts, M))
  {
    if ts == [] {
      NegZero(M.alg);
    } else {
      var r := Inverted(ts);
      assert r[..|r| - 1] == Inverted(ts[..|ts| - 1]);
      InvertedValue(ts[..|ts| - 1], M);
      NegLaws(M.alg, SignedSum(ts[..|ts| - 1], M), SignedValue(ts[|ts| - 1], M));
      NegLaws(M.alg, Value(ts[|ts| - 1].term, M), Value(ts[|ts| - 1].term, M));
    }
  }

  lemma SignedProduct<V(!new)>(l: Signed, r: Signed, M: Semantics<V>)
    requires Laws(M.alg)
    ensures SignedValue(Signed(l.positive == r.positive, Binary("*", l.term, r.term)), M) ==
      M.alg.mul(SignedValue(l, M), SignedValue(r, M))
  {
    var A := M.alg;
    var x, y := Value(l.term, M), Value(r.term, M);
    NegLaws(A, x, y);
    NegLaws(A, A.neg(x), y);
    NegLaws(A, x, A.neg(y));
  }

  /** Negation distributes over addition, is an involution, and moves out
    * of either factor of a product. */
  lemma NegLaws<V(!new)>(A: Algebra<V>, x: V, y: V)
    requires Laws(A)
    ensures A.neg(A.add(x, y)) == A.add(A.neg(x), A.neg(y))
    ensures A.neg(A.neg(x)) == x && A.neg(A.neg(y)) == y
    ensures A.mul(x, A.neg(y)) == A.neg(A.mul(x, y))
    ensures A.mul(A.neg(x), y) == A.neg(A.mul(x, y))
  {
    MulComm(A, A.neg(x), y);
    MulComm(A, y, x);
  }

  lemma {:induction false} RowValue<V(!new)>(l: Signed, rs: seq<Signed>, M: Semantics<V>)
    requires Laws(M.alg)
    ensures SignedSum(Row(l, rs), M) == M.alg.mul(SignedValue(l, M), SignedSum(rs, M))
  {
    if rs != [] {
      var rs' := rs[..|rs| - 1];
      RowValue(l, rs', M);
      SignedProduct(l, rs[|rs| - 1], M);
    }
  }

  /** The products add up to the product of the two totals. */
  lemma {:induction false} ProductsValue<V(!new)>(ls: seq<Signed>, rs: seq<Signed>, M: Semantics<V>)
    requires Laws(M.alg)
    ensures SignedSum(Products(ls, rs), M) == M.alg.mul(SignedSum(ls, M), SignedSum(rs, M))
  {
    var A := M.alg;
    if ls == [] {
      MulComm(A, A.zero, SignedSum(rs, M));
    } else {
      var ls', last := ls[..|ls| - 1], ls[|ls| - 1];
      ProductsValue(ls', rs, M);
      RowValue(last, rs, M);
      SignedSumAppend(Products(ls', rs), Row(last, rs), M);
      RightDistributes(A, SignedSum(ls', M), SignedValue(last, M), SignedSum(rs, M));
    }
  }

  lemma RightDistributes<V(!new)>(A: Algebra<V>, x: V, y: V, z: V)
    requires Laws(A)
    ensures A.mul(A.add(x, y), z) == A.add(A.mul(x, z), A.mul(y, z))
  {
    MulComm(A, A.add(x, y), z);
    MulComm(A, x, z);
    MulComm(A, y, z);
  }

  /** The quotients add up to the dividend's total over the divisor. */
  lemma {:induction false} QuotientsValue<V(!new)>(ls: seq<Signed>, divisor: Node, M: Semantics<V>)
    requires Laws(M.alg)
    ensures SignedSum(Quotients(ls, divisor), M) == M.alg.mul(SignedSum(ls, M), M.alg.inv(Value(divisor, M)))
  {
    var A := M.alg;
    var d := A.inv(Value(divisor, M));
    if ls == [] {
      MulComm(A, A.zero, d);
    } else {
      var ls', last := ls[..|ls| - 1], ls[|ls| - 1];
      QuotientsValue(ls', divisor, M);
      RightDistributes(A, SignedSum(ls', M), SignedValue(last, M), d);
      MulComm(A, A.neg(Value(last.term, M)), d);
      MulComm(A, Value(last.term, M), d);
    }
  }

  /** A chain built from signed terms has their total as its value. */
  lemma {:induction false} SumValue<V(!new)>(ts: seq<Signed>, M: Semantics<V>)
    requires ts != [] && Laws(M.alg)
    ensures Value(Sum(ts), M) == SignedSum(ts, M)
  {
    if |ts| == 1 {
      SingleValue(ts[0], M);
      assert ts == [ts[0]];
    } else {
      SumValue(ts[..|ts| - 1], M);
    }
  }

  /** Each distributive law keeps the value. */
  lemma DistributedValue<V(!new)>(n: Node, M: Semantics<V>)
    requires n.Binary? && IsDistributable(n) && Laws(M.alg)
    ensures Value(Distributed(n), M) == Value(n, M)
  {
    var ls, rs := Flatten(n.left, true), Flatten(n.right, true);
    FlattenValue(n.left, true, M);
    if n.operation == "*" {
      FlattenValue(n.right, true, M);
      ProductsValue(ls, rs, M);
      SumValue(Products(ls, rs), M);
    } else if n.operation == "/" {
      QuotientsValue(ls, n.right, M);
      SumValue(Quotients(ls, n.right), M);
    } else {
      FlattenValue(n.right, true, M);
      InvertedValue(rs, M);
      SignedSumAppend(ls, Inverted(rs), M);
      SumValue(ls + Inverted(rs), M);
    }
  }

  /** A pass keeps the value of the expression. */
  lemma {:induction false} ProcessKeepsValue<V(!new)>(n: Node, M: Semantics<V>)
    requires Laws(M.alg)
    ensures Value(Process(n), M) == Value(n, M)
  {
    match n
    case Leaf(_) =>
    case Unary(_, c) => ProcessKeepsValue(c, M);
    case Binary(op, l, r) =>
      ProcessKeepsValue(l, M);
      ProcessKeepsValue(r, M);
      var b := Binary(op, Process(l), Process(r));
      if IsDistributable(b) {
        DistributedValue(b, M);
      }
  }

  /** `(x+y)*z` is multiplied out to `x*z+y*z`, whatever the three texts. */
  lemma ProductExample(x: string, y: string, z: string)
    ensures var a, b, c := Leaf(Some(x)), Leaf(Some(y)), Leaf(Some(z));
      ToExpression(Process(Binary("*", Binary("+", a, b), c))) == x + "*" + z + "+" + (y + "*" + z)
  {
    var a, b, c := Leaf(Some(x)), Leaf(Some(y)), Leaf(Some(z));
    ProductExpands(a, b, c);
    PrintedProducts(x, y, z);
  }

  lemma PrintedProducts(x: string, y: string, z: string)
    ensures var a, b, c := Leaf(Some(x)), Leaf(Some(y)), Leaf(Some(z));
      ToExpression(Binary("+", Binary("*", a, c), Binary("*", b, c))) == x + "*" + z + "+" + (y + "*" + z)
  {
    var a, b, c := Leaf(Some(x)), Leaf(Some(y)), Leaf(Some(z));
    assert Precedence("*") == 2 && Precedence("+") == 1;
    assert ToExpression(Binary("*", a, c)) == x + "*" + z;
    assert ToExpression(Binary("*", b, c)) == y + "*" + z;
  }

  lemma ProductExpands(a: Node, b: Node, c: Node)
    requires a.Leaf? && b.Leaf? && c.Leaf?
    ensures Process(Binary("*", Binary("+", a, b), c)) == Binary("+", Binary("*", a, c), Binary("*", b, c))
  {
    var sum := Binary("+", a, b);
    var product := Binary("*", sum, c);
    LeafSum(a, b);
    assert Process(product) == Distributed(product);
    TwoByOne(Signed(true, a), Signed(true, b), Signed(true, c));
    PairSum(Signed(true, Binary("*", a, c)), Signed(true, Binary("*", b, c)));
  }

  lemma LeafSum(a: Node, b: Node)
    requires a.Leaf? && b.Leaf?
    ensures Process(Binary("+", a, b)) == Binary("+", a, b)
    ensures Flatten(Binary("+", a, b), true) == [Signed(true, a), Signed(true, b)]
  {
  }

  lemma PairSum(x: Signed, y: Signed)
    requires x.positive && y.positive
    ensures Sum([x, y]) == Binary("+", x.term, y.term)
  {
    assert [x, y][..1] == [x];
  }

  lemma TwoByOne(x: Signed, y: Signed, z: Signed)
    ensures Products([x, y], [z]) ==
      [Signed(x.positive == z.positive, Binary("*", x.term, z.term)), Signed(y.positive == z.positive, Binary("*", y.term, z.term))]
  {
    var ls, rs := [x, y], [z];
    assert ls[..1] == [x] && ls[..1][..0] == [] && rs[..0] == [];
    assert Row(x, rs) == [Signed(x.positive == z.positive, Binary("*", x.term, z.term))];
    assert Row(y, rs) == [Signed(y.positive == z.positive, Binary("*", y.term, z.term))];
    assert Products(ls[..1], rs) == Products([], rs) + Row(x, rs);
  }

  /** `x-(y+z)` becomes `x-y-z`, whatever the three texts. */
  lemma DifferenceExample(x: string, y: string, z: string)
    ensures var a, b, c := Leaf(Some(x)), Leaf(Some(y)), Leaf(Some(z));
      ToExpression(Process(Binary("-", a, Binary("+", b, c)))) == x + "-" + y + "-" + z
  {
    var a, b, c := Leaf(Some(x)), Leaf(Some(y)), Leaf(Some(z));
    DifferenceExpands(a, b, c);
    PrintedDifference(x, y, z);
  }

  lemma PrintedDifference(x: string, y: string, z: string)
    ensures var a, b, c := Leaf(Some(x)), Leaf(Some(y)), Leaf(Some(z));
      ToExpression(Binary("-", Binary("-", a, b), c)) == x + "-" + y + "-" + z
  {
    var a, b := Leaf(Some(x)), Leaf(Some(y));
    assert Precedence("-") == 1;
    assert ToExpression(Binary("-", a, b)) == x + "-" + y;
  }

  lemma DifferenceExpands(a: Node, b: Node, c: Node)
    requires a.Leaf? && b.Leaf? && c.Leaf?
    ensures Process(Binary("-", a, Binary("+", b, c))) == Binary("-", Binary("-", a, b), c)
  {
    var rs := [Signed(true, b), Signed(true, c)];
    LeafSum(b, c);
    assert Inverted(rs) == [Signed(false, b), Signed(false, c)] by {
      assert rs[..1] == [Signed(true, b)] && rs[..1][..0] == [];
    }
    var ts := [Signed(true, a), Signed(false, b), Signed(false, c)];
    assert [Signed(true, a)] + Inverted(rs) == ts;
    assert Process(Binary("-", a, Binary("+", b, c))) == Sum(ts);
    ThreeTerms(ts[0], ts[1], ts[2]);
    assert [ts[0], ts[1], ts[2]] == ts;
  }

  lemma ThreeTerms(x: Signed, y: Signed, z: Signed)
    requires x.positive && !y.positive && !z.positive
    ensures Sum([x, y, z]) == Binary("-", Binary("-", x.term, y.term), z.term)
  {
    var ts := [x, y, z];
    assert ts[..2] == [x, y] && ts[..2][..1] == [x];
    assert Sum([x]) == x.term;
    assert Sum([x, y]) == Binary("-", x.term, y.term);
  }

  // ---------------------------------------------------------------------
  // Rewriting step by step

  /** Joins the terms into a chain, one term at a time. */
  method BuildAdditive(terms: seq<Signed>) returns (r: Node)
    ensures r == Sum(terms)
  {
    if terms == [] {
      return Leaf(Some("0"));
    }
    if terms[0].positive {
      r := terms[0].term;
    } else {
      r := Unary("-", terms[0].term);
    }
    for i := 1 to |terms|
      invariant r == Sum(terms[..i])
    {
      var p := terms[i];
      r := Binary(if p.positive then "+" else "-", r, p.term);
      assert terms[..i + 1][..i] == terms[..i];
    }
    assert terms[..|terms|] == terms;
  }

  /** Multiplies every left term by every right term, row by row. */
  method MultiplyOut(ls: seq<Signed>, rs: seq<Signed>) returns (terms: seq<Signed>)
    ensures terms == Products(ls, rs)
  {
    terms := [];
    for i := 0 to |ls|
      invariant terms == Products(ls[..i], rs)
    {
      var lt := ls[i];
      var row := [];
      for j := 0 to |rs|
        invariant row == Row(lt, rs[..j])
      {
        var rt := rs[j];
        row := row + [Signed(lt.positive == rt.positive, Binary("*", lt.term, rt.term))];
        assert rs[..j + 1][..j] == rs[..j];
      }
      assert rs[..|rs|] == rs;
      terms := terms + row;
      assert ls[..i + 1][..i] == ls[..i];
    }
    assert ls[..|ls|] == ls;
  }

  /** Divides every left term by the divisor, keeping its sign. */
  method DivideOut(ls: seq<Signed>, divisor: Node) returns (terms: seq<Signed>)
    ensures terms == Quotients(ls, divisor)
  {
    terms := [];
    for i := 0 to |ls|
      invariant terms == Quotients(ls[..i], divisor)
    {
      var lt := ls[i];
      terms := terms + [Signed(lt.positive, Binary("/", lt.term, divisor))];
      assert ls[..i + 1][..i] == ls[..i];
    }
    assert ls[..|ls|] == ls;
  }

  /** Flips the sign of every term in place. */
  method InvertSigns(terms: array<Signed>)
    modifies terms
    ensures terms[..] == Inverted(old(terms[..]))
  {
    ghost var original := terms[..];
    for i := 0 to terms.Length
      invariant terms[..i] == Inverted(original[..i])
      invariant terms[i..] == original[i..]
    {
      terms[i] := Signed(!terms[i].positive, terms[i].term);
      assert original[..i + 1][..i] == original[..i];
      assert terms[..i + 1] == terms[..i] + [terms[i]];
    }
    assert original[..terms.Length] == original;
  }

  /** Rewrites a distributable node by its law. */
  method Distribute(n: Node) returns (r: Node)
    requires n.Binary? && IsDistributable(n)
    ensures r == Distributed(n)
  {
    var leftTerms := Flatten(n.left, true);
    if n.operation == "*" {
      var rightTerms := Flatten(n.right, true);
      var newTerms := MultiplyOut(leftTerms, rightTerms);
      r := BuildAdditive(newTerms);
    } else if n.operation == "/" {
      var newTerms := DivideOut(leftTerms, n.right);
      r := BuildAdditive(newTerms);
    } else {
      var rightTerms := Flatten(n.right, true);
      var flipped := new Signed[|rightTerms|](i requires 0 <= i < |rightTerms| => rightTerms[i]);
      assert flipped[..] == rightTerms;
      InvertSigns(flipped);
      r := BuildAdditive(leftTerms + flipped[..]);
    }
  }

  // ---------------------------------------------------------------------
  // The equivalent form

  /** What the rewriting loop returns for a parsed tree: the given text
    * when one pass changes nothing in the printed tree, otherwise the
    * printed tree after the pass.  A tree that is a leaf without text
    * fails, as its missing text cannot be compared. */
  function Settled(tree: Node, text: string): (r: Result<string, ExpandError>)
  {
    var next := Process(tree);
    if next == Leaf(None) then Failure(NullText)
    else if ToExpression(next) == ToExpression(tree) then Success(text)
    else Success(ToExpression(next))
  }

  /** The form the expander prints for a token list.  The whole list is
    * read first; an operator without text fails only once the rewriting
    * pass reaches it, so any reading error comes first. */
  function EquivalentForm(tokens: seq<Lexical.Token>): (r: Result<string, ExpandError>)
    ensures ExpressionFrom(tokens, 0).Failure? ==> r == Failure(ExpressionFrom(tokens, 0).error)
    ensures r == Failure(MissingOperator) <==>
      ExpressionFrom(tokens, 0).Success? && !OperatorsPresent(ExpressionFrom(tokens, 0).value.0)
    ensures ExpressionFrom(tokens, 0).Success? && OperatorsPresent(ExpressionFrom(tokens, 0).value.0) ==>
      r == Settled(Built(ExpressionFrom(tokens, 0).value.0).value, TokenText(tokens))
  {
    match ExpressionFrom(tokens, 0)
    case Failure(e) => Failure(e)
    case Success((parsed, _)) =>
      match Built(parsed)
      case Failure(e) => Failure(e)
      case Success(tree) => Settled(tree, TokenText(tokens))
  }

  /** A list whose operator tokens all have their texts never fails with
    * `MissingOperator`. */
  lemma OperatorTextsNeverMissing(tokens: seq<Lexical.Token>)
    requires OperatorTexts(tokens)
    ensures EquivalentForm(tokens) != Failure(MissingOperator)
  {
    PresentExpression(tokens, 0);
  }

  /** `a +`, with the plus without text, fails reading past the end, and
    * `a + b` fails at the plus only after both operands are read. */
  lemma ReadingErrorComesFirst(a: Lexical.Token, plus: Lexical.Token, b: Lexical.Token)
    requires a.tokenType == Some(Lexical.Constant) && b.tokenType == Some(Lexical.Constant)
    requires plus.tokenType == Some(Lexical.OperationAdd) && plus.value.None?
    ensures EquivalentForm([a, plus]) == Failure(OutOfRange)
    ensures EquivalentForm([a, plus, b]) == Failure(MissingOperator)
  {
    assert Lexical.Constant in Lexical.OperandTypes;
    var short, full := [a, plus], [a, plus, b];
    var left, right := ParsedLeaf(a.value), ParsedLeaf(b.value);
    assert TermFrom(short, 0) == Success((left, 1)) by {
      assert FactorFrom(short, 0) == Success((left, 1));
    }
    assert TermFrom(short, 2) == Failure(OutOfRange);
    assert ExpressionFrom(short, 0) == Failure(OutOfRange);
    assert TermFrom(full, 0) == Success((left, 1)) by {
      assert FactorFrom(full, 0) == Success((left, 1));
    }
    assert TermFrom(full, 2) == Success((right, 3)) by {
      assert FactorFrom(full, 2) == Success((right, 3));
    }
    assert ExpressionLoop(full, 1, left) == Success((ParsedBinary(None, left, right), 3));
    assert ExpressionFrom(full, 0) == Success((ParsedBinary(None, left, right), 3));
  }

  /** Only a whole expression that is a leaf without text fails in the
    * loop: a pass never turns any other tree into one. */
  lemma {:induction false} NullTextOnlyForBareLeaf(tree: Node, text: string)
    ensures Settled(tree, text) == Failure(NullText) <==> tree == Leaf(None)
  {
    ProcessKeepsKind(tree);
  }

  /** A pass keeps leaves as they are and never turns an operation into a
    * leaf. */
  lemma {:induction false} ProcessKeepsKind(n: Node)
    ensures Process(n).Leaf? <==> n.Leaf?
    ensures n.Leaf? ==> Process(n) == n
  {
    if n.Binary? {
      var b := Binary(n.operation, Process(n.left), Process(n.right));
      if IsDistributable(b) {
        var ls, rs := Flatten(b.left, true), Flatten(b.right, true);
        if b.operation == "*" {
          ProductsLength(ls, rs);
          assert |ls| * |rs| >= 2 by {
            if IsAdditive(b.left) {
              AdditiveTerms(b.left);
            } else {
              AdditiveTerms(b.right);
            }
            MoreTerms(|ls|, |rs|);
          }
        } else if b.operation == "/" {
          AdditiveTerms(b.left);
        }
      }
    }
  }

  /** A sum or a difference has at least two terms. */
  lemma AdditiveTerms(n: Node)
    requires IsAdditive(n)
    ensures |Flatten(n, true)| >= 2
  {
  }

  lemma MoreTerms(a: nat, b: nat)
    requires a >= 1 && b >= 1 && (a >= 2 || b >= 2)
    ensures a * b >= 2
  {
  }

  /** A form is either the tokens' own text, left as it was because a pass
    * changes nothing printed, or the printed text of a tree with the value
    * of the parsed expression in which nothing is left to rewrite. */
  lemma EquivalentFormMeaning<V(!new)>(tokens: seq<Lexical.Token>, M: Semantics<V>)
    requires Laws(M.alg) && EquivalentForm(tokens).Success?
    ensures var tree := Built(ExpressionFrom(tokens, 0).value.0).value;
      var form := EquivalentForm(tokens).value;
      (form == TokenText(tokens) && ToExpression(Process(tree)) == ToExpression(tree)) ||
      (form == ToExpression(Process(tree)) && Value(Process(tree), M) == Value(tree, M) && Normal(Process(tree)))
  {
    var tree := Built(ExpressionFrom(tokens, 0).value.0).value;
    ProcessKeepsValue(tree, M);
    ProcessNormal(tree);
  }

  /** Repeats the rewriting pass until the printed tree stops changing;
    * the loop ends after at most two passes. */
  method RepeatUntilStable(tree: Node, text: string) returns (r: Result<string, ExpandError>)
    ensures r == Settled(tree, text)
  {
    var form := text;
    var current := tree;
    while true
      invariant (current == tree && form == text) ||
        (current == Process(tree) && form == ToExpression(current) &&
         ToExpression(current) != ToExpression(tree) && Process(tree) != Leaf(None))
      decreases if Normal(current) then 0 else 1
    {
      var newTree := Process(current);
      if newTree == Leaf(None) {
        ProcessIsIdempotent(tree);
        return Failure(NullText);
      }
      var newStr := ToExpression(newTree);
      var currStr := ToExpression(current);
      if newStr == currStr {
        break;
      }
      ProcessIsIdempotent(tree);
      assert current == tree;
      ProcessNormal(tree);
      if Normal(tree) {
        NormalIsFixed(tree);
      }
      form := newStr;
      current := newTree;
    }
    ProcessIsIdempotent(tree);
    return Success(form);
  }

  function TreeOf(r: Result<(Parsed, nat), ExpandError>): Result<Parsed, ExpandError>
  {
    match r
    case Failure(e) => Failure(e)
    case Success((t, _)) => Success(t)
  }

  /** The expander's cursor over the token list it was last given. */
  class BracketExpander {
    var tokens: seq<Lexical.Token>
    var pos: nat

    constructor()
      ensures tokens == [] && pos == 0
    {
      tokens := [];
      pos := 0;
    }

    /** Parses the tokens and repeats the rewriting pass until the printed
      * tree stops changing; the loop ends after at most two passes. */
    method GenerateEquivalents(tokens: seq<Lexical.Token>) returns (r: Result<string, ExpandError>)
      modifies this
      ensures r == EquivalentForm(tokens)
    {
      this.tokens := tokens;
      pos := 0;
      var tree := ParseExpression();
      if tree.Failure? {
        return Failure(tree.error);
      }
      var form := TokenText(tokens);
      var built := Built(tree.value);
      if built.Failure? {
        return Failure(built.error);
      }
      r := RepeatUntilStable(built.value, form);
    }

    predicate IsAdd()
      reads this
    {
      IsKind(tokens, pos, Lexical.OperationAdd)
    }

    predicate IsMinus()
      reads this
    {
      IsKind(tokens, pos, Lexical.OperationMinus)
    }

    predicate IsMultiply()
      reads this
    {
      IsKind(tokens, pos, Lexical.OperationMultiply)
    }

    predicate IsDivide()
      reads this
    {
      IsKind(tokens, pos, Lexical.OperationDivide)
    }

    method ParseExpression() returns (r: Result<Parsed, ExpandError>)
      requires pos <= |tokens|
      modifies this
      ensures tokens == old(tokens)
      ensures r == TreeOf(ExpressionFrom(tokens, old(pos)))
      ensures r.Success? ==> pos == ExpressionFrom(tokens, old(pos)).value.1
      decreases |tokens| - pos, 4
    {
      var first := ParseTerm();
      if first.Failure? {
        return first;
      }
      var node := first.value;
      while pos < |tokens| && (IsAdd() || IsMinus())
        invariant tokens == old(tokens)
        invariant old(pos) < pos <= |tokens|
        invariant ExpressionLoop(tokens, pos, node) == ExpressionFrom(tokens, old(pos))
        decreases |tokens| - pos
      {
        var op := tokens[pos].value;
        pos := pos + 1;
        var right := ParseTerm();
        if right.Failure? {
          return right;
        }
        node := ParsedBinary(op, node, right.value);
      }
      return Success(node);
    }

    method ParseTerm() returns (r: Result<Parsed, ExpandError>)
      requires pos <= |tokens|
      modifies this
      ensures tokens == old(tokens)
      ensures r == TreeOf(TermFrom(tokens, old(pos)))
      ensures r.Success? ==> pos == TermFrom(tokens, old(pos)).value.1
      decreases |tokens| - pos, 2
    {
      var first := ParseFactor();
      if first.Failure? {
        return first;
      }
      var node := first.value;
      while pos < |tokens| && (IsMultiply() || IsDivide())
        invariant tokens == old(tokens)
        invariant old(pos) < pos <= |tokens|
        invariant TermLoop(tokens, pos, node) == TermFrom(tokens, old(pos))
        decreases |tokens| - pos
      {
        var op := tokens[pos].value;
        pos := pos + 1;
        var right := ParseFactor();
        if right.Failure? {
          return right;
        }
        node := ParsedBinary(op, node, right.value);
      }
      return Success(node);
    }

    method ParseFactor() returns (r: Result<Parsed, ExpandError>)
      requires pos <= |tokens|
      modifies this
      ensures tokens == old(tokens)
      ensures r == TreeOf(FactorFrom(tokens, old(pos)))
      ensures r.Success? ==> pos == FactorFrom(tokens, old(pos)).value.1
      decreases |tokens| - pos, 0
    {
      if pos == |tokens| {
        return Failure(OutOfRange);
      }
      var t := tokens[pos];
      if t.tokenType == Some(Lexical.OperationMinus) {
        pos := pos + 1;
        var child := ParseFactor();
        if child.Failure? {
          return child;
        }
        return Success(ParsedUnary("-", child.value));
      } else if t.tokenType == Some(Lexical.OpenBracket) {
        pos := pos + 1;
        var node := ParseExpression();
        if node.Failure? {
          return node;
        }
        if pos < |tokens| && tokens[pos].tokenType == Some(Lexical.CloseBracket) {
          pos := pos + 1;
        }
        return node;
      } else if t.tokenType.None? {
        return Failure(MissingTokenType);
      } else if t.tokenType.value in Lexical.OperandTypes {
        pos := pos + 1;
        return Success(ParsedLeaf(t.value));
      }
      return Failure(UnexpectedToken(t));
    }
  }
}
