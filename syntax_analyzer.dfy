/**
 * The "parallel" tree builder.  Operands and operators are gathered level
 * by level (a closed bracket group becomes one subtree), times and divide
 * are folded left to right, and the remaining plus/minus run is combined by
 * rounds that pair neighbouring nodes, so the tree is as shallow as the run
 * allows.  Every node of such a round carries the run's first operator.
 */
module SyntaxAnalysis {
  import opened Wrappers
  import Lexical
  import SyntaxValidation
  import opened SyntaxTree

  /** The ways building stops. */
  datatype BuildFailure =
    | NoOperands            // nothing to build a tree from
    | SingleOperand         // one operand forms no expression
    | NoOperators           // a group or query with operands but no operator
    | MissingOperand        // fewer operands than its operators need
    | UnmatchedCloseBracket // a closing bracket with no group open
    | MissingTokenType      // a token without a kind, which the Java code dereferences

  predicate IsHighPrecedence(op: SyntaxType)
  {
    op == SyntaxValidation.OperationMultiply || op == SyntaxValidation.OperationDivide
  }

  /** A new operation node, numbered 0 as every node the builder makes. */
  function Combine(op: SyntaxType, left: Node, right: Node): Node
  {
    Function(0, Some(left), Some(right), Some(op))
  }

  // ---------------------------------------------------------------------
  // Pairing rounds

  /** One round: neighbours are paired in order under `op`, and an odd last
    * node is carried over as it is. */
  function PairRound(nodes: seq<Node>, op: SyntaxType): (r: seq<Node>)
    ensures |r| == (|nodes| + 1) / 2
    decreases |nodes|
  {
    if |nodes| >= 2 then [Combine(op, nodes[0], nodes[1])] + PairRound(nodes[2..], op)
    else nodes
  }

  /** Rounds are repeated until one node is left. */
  function Reduce(nodes: seq<Node>, op: SyntaxType): Node
    requires |nodes| >= 1
    decreases |nodes|
  {
    if |nodes| == 1 then nodes[0] else Reduce(PairRound(nodes, op), op)
  }

  /** One pass of the queue: pairs are polled two at a time and combined,
    * and an odd last node is carried over. */
  method PairUp(level: seq<Node>, operation: SyntaxType) returns (nextLevel: seq<Node>)
    ensures nextLevel == PairRound(level, operation)
  {
    var queue := level;
    nextLevel := [];
    while |queue| >= 2
      invariant nextLevel + PairRound(queue, operation) == PairRound(level, operation)
      decreases |queue|
    {
      var left := queue[0];
      var right := queue[1];
      assert PairRound(queue, operation) == [Combine(operation, left, right)] + PairRound(queue[2..], operation);
      queue := queue[2..];
      nextLevel := nextLevel + [Combine(operation, left, right)];
    }
    if queue != [] {
      nextLevel := nextLevel + [queue[0]];
    }
  }

  /** Builds the balanced tree of `operands` under `operation` with a queue,
    * one round per pass of the outer loop. */
  method BuildPerfectBalancedTree(operands: seq<Node>, operation: SyntaxType) returns (root: Node)
    requires |operands| >= 1
    ensures root == Reduce(operands, operation)
  {
    if |operands| == 1 {
      return operands[0];
    }
    var queue := operands;
    while |queue| > 1
      invariant |queue| >= 1
      invariant Reduce(queue, operation) == Reduce(operands, operation)
      decreases |queue|
    {
      queue := PairUp(queue, operation);
    }
    root := queue[0];
  }

  // ---------------------------------------------------------------------
  // What the rounds keep

  /** The operand leaves of a tree, left to right. */
  function Leaves(n: Option<Node>): seq<Node>
  {
    match n
    case None => []
    case Some(Operand(_, _, _)) => [n.value]
    case Some(Function(_, l, r, _)) => Leaves(l) + Leaves(r)
  }

  /** The leaves of a row of trees, left to right. */
  function LeavesOf(nodes: seq<Node>): seq<Node>
  {
    if nodes == [] then [] else Leaves(Some(nodes[0])) + LeavesOf(nodes[1..])
  }

  /** The operators written in a tree's operation nodes. */
  function OpsOf(n: Option<Node>): set<SyntaxType>
  {
    match n
    case None => {}
    case Some(Operand(_, _, _)) => {}
    case Some(Function(_, l, r, op)) =>
      OpsOf(l) + OpsOf(r) + (if op.Some? then {op.value} else {})
  }

  function OpsOfAll(nodes: seq<Node>): set<SyntaxType>
  {
    if nodes == [] then {} else OpsOf(Some(nodes[0])) + OpsOfAll(nodes[1..])
  }

  function SizeOf(nodes: seq<Node>): nat
  {
    if nodes == [] then 0 else Size(Some(nodes[0])) + SizeOf(nodes[1..])
  }

  function MaxHeight(nodes: seq<Node>): nat
  {
    if nodes == [] then 0 else Max(Height(Some(nodes[0])), MaxHeight(nodes[1..]))
  }

  /** The number of pairing rounds that bring `n` nodes down to one. */
  function Rounds(n: nat): nat
  {
    if n <= 1 then 0 else 1 + Rounds((n + 1) / 2)
  }

  lemma LeavesOfAppend(a: seq<Node>, b: seq<Node>)
    ensures LeavesOf(a + b) == LeavesOf(a) + LeavesOf(b)
    ensures OpsOfAll(a + b) == OpsOfAll(a) + OpsOfAll(b)
    ensures SizeOf(a + b) == SizeOf(a) + SizeOf(b)
  {
    if a != [] {
      assert (a + b)[1..] == a[1..] + b;
      LeavesOfAppend(a[1..], b);
    } else {
      assert a + b == b;
    }
  }

  /** A round keeps the leaves in order, adds one node per pair, each
    * carrying `op`, and makes no tree more than one level taller. */
  lemma {:induction false} PairRoundKeeps(nodes: seq<Node>, op: SyntaxType)
    ensures LeavesOf(PairRound(nodes, op)) == LeavesOf(nodes)
    ensures OpsOfAll(PairRound(nodes, op)) == OpsOfAll(nodes) + (if |nodes| >= 2 then {op} else {})
    ensures SizeOf(PairRound(nodes, op)) == SizeOf(nodes) + |nodes| / 2
    ensures MaxHeight(PairRound(nodes, op)) <= MaxHeight(nodes) + 1
    decreases |nodes|
  {
    if |nodes| >= 2 {
      var rest := nodes[2..];
      PairRoundKeeps(rest, op);
      assert nodes[1..][1..] == rest;
      var c := Combine(op, nodes[0], nodes[1]);
      assert PairRound(nodes, op)[1..] == PairRound(rest, op);
      assert Leaves(Some(c)) == Leaves(Some(nodes[0])) + Leaves(Some(nodes[1]));
    } else if |nodes| == 1 {
      assert nodes[1..] == [];
    }
  }

  /** The balanced tree of a row keeps its leaves in order, makes exactly one
    * new node fewer than the row has trees, all carrying `op`, and is at most
    * `Rounds(|nodes|)` levels taller than the tallest tree of the row. */
  lemma {:induction false} ReduceKeeps(nodes: seq<Node>, op: SyntaxType)
    requires |nodes| >= 1
    ensures Leaves(Some(Reduce(nodes, op))) == LeavesOf(nodes)
    ensures OpsOf(Some(Reduce(nodes, op))) == OpsOfAll(nodes) + (if |nodes| >= 2 then {op} else {})
    ensures Size(Some(Reduce(nodes, op))) == SizeOf(nodes) + |nodes| - 1
    ensures Height(Some(Reduce(nodes, op))) <= MaxHeight(nodes) + Rounds(|nodes|)
    decreases |nodes|
  {
    if |nodes| == 1 {
      assert nodes[1..] == [];
    } else {
      PairRoundKeeps(nodes, op);
      ReduceKeeps(PairRound(nodes, op), op);
    }
  }

  // ---------------------------------------------------------------------
  // The height of a balanced round

  /** `2` to the power `k`. */
  function Pow2(k: nat): (r: nat)
    ensures r >= 1
  {
    if k == 0 then 1 else 2 * Pow2(k - 1)
  }

  lemma {:induction false} Pow2Monotone(j: nat, k: nat)
    requires j <= k
    ensures Pow2(j) <= Pow2(k)
    decreases k
  {
    if j < k {
      Pow2Monotone(j, k - 1);
    }
  }

  /** `Rounds(n)` is the base-2 logarithm of `n` rounded up: the least `k`
    * with `2^k >= n`. */
  lemma {:induction false} RoundsIsCeilLog(n: nat)
    ensures Pow2(Rounds(n)) >= n
    ensures n >= 2 ==> Rounds(n) >= 1 && Pow2(Rounds(n) - 1) < n
    decreases n
  {
    if n >= 2 {
      var m := (n + 1) / 2;
      RoundsIsCeilLog(m);
      assert Rounds(n) == 1 + Rounds(m);
    }
  }

  /** A tree of height `h` has at most `2^(h-1)` leaves. */
  lemma {:induction false} LeavesBound(n: Node)
    ensures |Leaves(Some(n))| <= Pow2(Height(Some(n)) - 1)
  {
    match n
    case Operand(_, _, _) =>
    case Function(_, l, r, _) =>
      var h := Height(Some(n));
      if h >= 2 {
        if l.Some? {
          LeavesBound(l.value);
        }
        if r.Some? {
          LeavesBound(r.value);
        }
        SideBound(l, h - 1);
        SideBound(r, h - 1);
        assert Pow2(h - 1) == 2 * Pow2(h - 2);
      }
  }

  /** A side no taller than `h` that keeps the bound has at most
    * `2^(h-1)` leaves. */
  lemma SideBound(side: Option<Node>, h: nat)
    requires 1 <= h && Height(side) <= h
    requires side.Some? ==> |Leaves(side)| <= Pow2(Height(side) - 1)
    ensures |Leaves(side)| <= Pow2(h - 1)
  {
    if side.Some? {
      Pow2Monotone(Height(side) - 1, h - 1);
    }
  }

  /** When the first tree of a row is its tallest, a round keeps that so and
    * makes the row exactly one level taller. */
  lemma {:induction false} PairRoundHeight(nodes: seq<Node>, op: SyntaxType)
    requires |nodes| >= 2
    requires Height(Some(nodes[0])) == MaxHeight(nodes)
    ensures Height(Some(PairRound(nodes, op)[0])) == MaxHeight(PairRound(nodes, op))
    ensures MaxHeight(PairRound(nodes, op)) == MaxHeight(nodes) + 1
  {
    PairRoundKeeps(nodes, op);
    var c := Combine(op, nodes[0], nodes[1]);
    assert PairRound(nodes, op)[0] == c;
    assert nodes[1..][0] == nodes[1];
    assert Height(Some(nodes[1])) <= MaxHeight(nodes[1..]);
    assert Height(Some(c)) == MaxHeight(nodes) + 1;
  }

  /** Rounds over a row whose first tree is its tallest add exactly
    * `Rounds(|nodes|)` levels. */
  lemma {:induction false} ReduceHeight(nodes: seq<Node>, op: SyntaxType)
    requires |nodes| >= 1
    requires Height(Some(nodes[0])) == MaxHeight(nodes)
    ensures Height(Some(Reduce(nodes, op))) == MaxHeight(nodes) + Rounds(|nodes|)
    decreases |nodes|
  {
    if |nodes| >= 2 {
      PairRoundHeight(nodes, op);
      ReduceHeight(PairRound(nodes, op), op);
    }
  }

  /** A row of `n` single operands is combined into a tree of height
    * `1 + Rounds(n)`, and no tree with `n` leaves is lower. */
  lemma BalancedIsShallowest(nodes: seq<Node>, op: SyntaxType, other: Node)
    requires |nodes| >= 1
    requires forall k :: 0 <= k < |nodes| ==> nodes[k].Operand?
    requires |Leaves(Some(other))| == |nodes|
    ensures Height(Some(Reduce(nodes, op))) == 1 + Rounds(|nodes|)
    ensures Height(Some(other)) >= Height(Some(Reduce(nodes, op)))
  {
    LeafRowHeight(nodes);
    assert Height(Some(nodes[0])) == 1;
    ReduceHeight(nodes, op);
    LeavesBound(other);
    NoFewerRounds(|nodes|, Height(Some(other)));
  }

  /** A tree of height `h` holding `n` leaves is at least `1 + Rounds(n)` high. */
  lemma NoFewerRounds(n: nat, h: nat)
    requires 1 <= h && n <= Pow2(h - 1)
    ensures h >= 1 + Rounds(n)
  {
    RoundsIsCeilLog(n);
    if h < 1 + Rounds(n) {
      Pow2Monotone(h - 1, Rounds(n) - 1);
    }
  }

  lemma {:induction false} LeafRowHeight(nodes: seq<Node>)
    requires |nodes| >= 1
    requires forall k :: 0 <= k < |nodes| ==> nodes[k].Operand?
    ensures MaxHeight(nodes) == 1
    decreases |nodes|
  {
    if |nodes| >= 2 {
      LeafRowHeight(nodes[1..]);
    } else {
      assert nodes[1..] == [];
    }
  }

  // ---------------------------------------------------------------------
  // Folding times and divide

  /** The plus and minus operators of a list, in order. */
  function LowOps(ops: seq<SyntaxType>): seq<SyntaxType>
  {
    if ops == [] then []
    else LowOps(ops[..|ops| - 1]) + (if IsHighPrecedence(ops[|ops| - 1]) then [] else [ops[|ops| - 1]])
  }

  /** The times and divide operators of a list. */
  function HighOps(ops: seq<SyntaxType>): set<SyntaxType>
  {
    if ops == [] then {}
    else HighOps(ops[..|ops| - 1]) + (if IsHighPrecedence(ops[|ops| - 1]) then {ops[|ops| - 1]} else {})
  }

  /** The fold of `operators[i..]`: times and divide take the last node of
    * `processed` as their left operand, plus and minus append their right
    * operand and are set aside in `low`. */
  function FoldFrom(operands: seq<Node>, operators: seq<SyntaxType>, i: nat,
                    processed: seq<Node>, low: seq<SyntaxType>): (r: (seq<Node>, seq<SyntaxType>))
    requires i <= |operators| < |operands|
    requires processed != []
    ensures r.0 != []
    decreases |operators| - i
  {
    if i == |operators| then (processed, low)
    else
      var op := operators[i];
      if IsHighPrecedence(op) then
        FoldFrom(operands, operators, i + 1,
                 processed[..|processed| - 1] + [Combine(op, processed[|processed| - 1], operands[i + 1])], low)
      else
        FoldFrom(operands, operators, i + 1, processed + [operands[i + 1]], low + [op])
  }

  /** The balanced "parallel" tree of one bracket level: no operators and
    * too few operands are failures; otherwise times and divide are folded,
    * and the remaining row is paired in rounds under the first plus or minus,
    * or is the single folded node when there is none.  Operands past the
    * last operator are not read. */
  function BalancedParallel(operands: seq<Node>, operators: seq<SyntaxType>): (r: Result<Node, BuildFailure>)
    ensures r == Failure(NoOperators) <==> operators == []
    ensures r == Failure(MissingOperand) <==> operators != [] && |operands| <= |operators|
  {
    if operators == [] then Failure(NoOperators)
    else if |operands| <= |operators| then Failure(MissingOperand)
    else
      var folded := FoldFrom(operands, operators, 0, [operands[0]], []);
      if folded.1 == [] then Success(folded.0[0])
      else Success(Reduce(folded.0, folded.1[0]))
  }

  /** What the fold keeps after reading `operators[..i]`: the row holds the
    * leaves of `operands[..i + 1]` in order, one new node per times or divide,
    * one tree more than the plus and minus operators set aside, and these are
    * the plus and minus operators read so far. */
  predicate FoldInv(operands: seq<Node>, operators: seq<SyntaxType>, i: nat,
                    processed: seq<Node>, low: seq<SyntaxType>)
  {
    i <= |operators| < |operands| &&
    |processed| == |low| + 1 &&
    low == LowOps(operators[..i]) &&
    LeavesOf(processed) == LeavesOf(operands[..i + 1]) &&
    SizeOf(processed) + |low| == SizeOf(operands[..i + 1]) + i &&
    OpsOfAll(processed) == OpsOfAll(operands[..i + 1]) + HighOps(operators[..i]) &&
    (i >= 1 && IsHighPrecedence(operators[0]) ==> processed[0].Function?)
  }

  lemma SingletonRow(x: Node)
    ensures LeavesOf([x]) == Leaves(Some(x))
    ensures SizeOf([x]) == Size(Some(x))
    ensures OpsOfAll([x]) == OpsOf(Some(x))
  {
    assert [x][1..] == [];
  }

  /** The first operand alone satisfies the fold's invariant. */
  lemma FoldStart(operands: seq<Node>, operators: seq<SyntaxType>)
    requires 1 <= |operators| < |operands|
    ensures FoldInv(operands, operators, 0, [operands[0]], []) == true
  {
    assert operands[..1] == [operands[0]];
    assert operators[..0] == [];
  }

  /** Appending a tree to a row appends its leaves, nodes and operators. */
  lemma ExtendRow(row: seq<Node>, x: Node)
    ensures LeavesOf(row + [x]) == LeavesOf(row) + Leaves(Some(x))
    ensures SizeOf(row + [x]) == SizeOf(row) + Size(Some(x))
    ensures OpsOfAll(row + [x]) == OpsOfAll(row) + OpsOf(Some(x))
  {
    LeavesOfAppend(row, [x]);
    SingletonRow(x);
  }

  /** A combined node has the leaves, the size and the operators of both
    * sides, plus one node carrying `op`. */
  lemma CombineParts(op: SyntaxType, left: Node, x: Node)
    ensures Leaves(Some(Combine(op, left, x))) == Leaves(Some(left)) + Leaves(Some(x))
    ensures Size(Some(Combine(op, left, x))) == Size(Some(left)) + Size(Some(x)) + 1
    ensures OpsOf(Some(Combine(op, left, x))) == OpsOf(Some(left)) + OpsOf(Some(x)) + {op}
  {
  }

  /** Replacing the last tree of a row by its combination with `x` appends
    * the leaves of `x` and one node carrying `op`. */
  lemma ReplaceLast(row: seq<Node>, op: SyntaxType, x: Node)
    requires row != []
    ensures var n := |row|;
            var row' := row[..n - 1] + [Combine(op, row[n - 1], x)];
            LeavesOf(row') == LeavesOf(row) + Leaves(Some(x)) &&
            SizeOf(row') == SizeOf(row) + Size(Some(x)) + 1 &&
            OpsOfAll(row') == OpsOfAll(row) + OpsOf(Some(x)) + {op} &&
            row'[0] == (if n == 1 then Combine(op, row[n - 1], x) else row[0])
  {
    var n := |row|;
    var front, last := row[..n - 1], row[n - 1];
    var c := Combine(op, last, x);
    assert row == front + [last];
    ExtendRow(front, last);
    ExtendRow(front, c);
    CombineParts(op, last, x);
    assert LeavesOf(front + [c]) == LeavesOf(front) + Leaves(Some(last)) + Leaves(Some(x));
    assert OpsOfAll(front + [c]) == OpsOfAll(front) + OpsOf(Some(last)) + OpsOf(Some(x)) + {op};
  }

  /** A times or divide operator keeps the fold's invariant. */
  lemma FoldHighStep(operands: seq<Node>, operators: seq<SyntaxType>, i: nat,
                     processed: seq<Node>, low: seq<SyntaxType>, processed': seq<Node>)
    requires FoldInv(operands, operators, i, processed, low) == true
    requires i < |operators| && IsHighPrecedence(operators[i])
    requires processed' == processed[..|processed| - 1] + [Combine(operators[i], processed[|processed| - 1], operands[i + 1])]
    ensures FoldInv(operands, operators, i + 1, processed', low) == true
  {
    assert operands[..i + 2] == operands[..i + 1] + [operands[i + 1]];
    assert operators[..i + 1][..i] == operators[..i];
    ExtendRow(operands[..i + 1], operands[i + 1]);
    ReplaceLast(processed, operators[i], operands[i + 1]);
  }

  /** A plus or minus operator keeps the fold's invariant. */
  lemma FoldLowStep(operands: seq<Node>, operators: seq<SyntaxType>, i: nat,
                    processed: seq<Node>, low: seq<SyntaxType>)
    requires FoldInv(operands, operators, i, processed, low) == true
    requires i < |operators| && !IsHighPrecedence(operators[i])
    ensures FoldInv(operands, operators, i + 1, processed + [operands[i + 1]], low + [operators[i]]) == true
  {
    assert operands[..i + 2] == operands[..i + 1] + [operands[i + 1]];
    assert operators[..i + 1][..i] == operators[..i];
    ExtendRow(operands[..i + 1], operands[i + 1]);
    ExtendRow(processed, operands[i + 1]);
    assert (processed + [operands[i + 1]])[0] == processed[0];
  }

  /** The fold ends with its invariant at the last operator. */
  lemma {:induction false} FoldEnd(operands: seq<Node>, operators: seq<SyntaxType>, i: nat,
                                   processed: seq<Node>, low: seq<SyntaxType>)
    requires FoldInv(operands, operators, i, processed, low) == true
    requires processed != []
    ensures FoldInv(operands, operators, |operators|, FoldFrom(operands, operators, i, processed, low).0,
                    FoldFrom(operands, operators, i, processed, low).1) == true
    decreases |operators| - i
  {
    if i < |operators| {
      var op := operators[i];
      if IsHighPrecedence(op) {
        var processed' := processed[..|processed| - 1] + [Combine(op, processed[|processed| - 1], operands[i + 1])];
        FoldHighStep(operands, operators, i, processed, low, processed');
        FoldEnd(operands, operators, i + 1, processed', low);
      } else {
        FoldLowStep(operands, operators, i, processed, low);
        FoldEnd(operands, operators, i + 1, processed + [operands[i + 1]], low + [op]);
      }
    }
  }

  /** A built tree is an operation node; its leaves are the operands that
    * were read, in order; it has one operation node per operator; and it
    * carries the times and divide operators and, when there is one, the
    * first plus or minus operator and no other. */
  lemma BalancedParallelShape(operands: seq<Node>, operators: seq<SyntaxType>)
    requires BalancedParallel(operands, operators).Success?
    ensures var t := Some(BalancedParallel(operands, operators).value);
            var read := operands[..|operators| + 1];
            t.value.Function? &&
            Leaves(t) == LeavesOf(read) &&
            Size(t) == SizeOf(read) + |operators| &&
            OpsOf(t) == OpsOfAll(read) + HighOps(operators) +
                        (if LowOps(operators) == [] then {} else {LowOps(operators)[0]})
  {
    FoldStart(operands, operators);
    FoldEnd(operands, operators, 0, [operands[0]], []);
    var folded := FoldFrom(operands, operators, 0, [operands[0]], []);
    assert operators[..|operators|] == operators;
    if folded.1 == [] {
      LowOpsEmpty(operators);
      SingletonRow(folded.0[0]);
    } else {
      ReduceKeeps(folded.0, folded.1[0]);
    }
  }

  /** With no plus or minus operator, the first operator is times or divide. */
  lemma LowOpsEmpty(ops: seq<SyntaxType>)
    requires ops != [] && LowOps(ops) == []
    ensures IsHighPrecedence(ops[0])
  {
    var k := |ops|;
    assert ops[..k] == ops;
    while k > 1
      invariant 1 <= k <= |ops| && LowOps(ops[..k]) == []
      decreases k
    {
      assert ops[..k][..k - 1] == ops[..k - 1];
      k := k - 1;
    }
    assert ops[..1][..0] == [];
  }

  /** Builds one bracket level: operators are read left to right, times and
    * divide combining at once, plus and minus set aside; the row left is
    * then paired in rounds under the first plus or minus. */
  method BuildBalancedParallelTree(operands: seq<Node>, operators: seq<SyntaxType>)
    returns (r: Result<Node, BuildFailure>)
    ensures r == BalancedParallel(operands, operators)
  {
    if operators == [] {
      return Failure(NoOperators);
    }
    if operands == [] {
      return Failure(MissingOperand);
    }
    var processed := [operands[0]];
    var low: seq<SyntaxType> := [];
    var i := 0;
    while i < |operators|
      invariant 0 <= i <= |operators| && i < |operands|
      invariant processed != []
      invariant |operands| > |operators| ==>
        FoldFrom(operands, operators, i, processed, low) == FoldFrom(operands, operators, 0, [operands[0]], [])
    {
      var op := operators[i];
      if i + 1 >= |operands| {
        return Failure(MissingOperand);
      }
      var right := operands[i + 1];
      if IsHighPrecedence(op) {
        var left := processed[|processed| - 1];
        processed := processed[..|processed| - 1] + [Combine(op, left, right)];
      } else {
        low := low + [op];
        processed := processed + [right];
      }
      i := i + 1;
    }
    if low == [] {
      return Success(processed[0]);
    }
    var root := BuildPerfectBalancedTree(processed, low[0]);
    return Success(root);
  }

  /** Every node of a plus/minus run carries the run's first operator, so
    * `a - b + c` is built as `(a - b) - c`. */
  lemma FirstLowOperatorRules(a: Node, b: Node, c: Node)
    ensures BalancedParallel([a, b, c], [SyntaxValidation.OperationMinus, SyntaxValidation.OperationAdd])
         == Success(Combine(SyntaxValidation.OperationMinus, Combine(SyntaxValidation.OperationMinus, a, b), c))
  {
    var ops := [SyntaxValidation.OperationMinus, SyntaxValidation.OperationAdd];
    var row := [a, b, c];
    assert !IsHighPrecedence(ops[0]) && !IsHighPrecedence(ops[1]);
    assert [a] + [row[1]] == [a, b] && [] + [ops[0]] == [ops[0]];
    assert FoldFrom(row, ops, 0, [a], []) == FoldFrom(row, ops, 1, [a, b], [ops[0]]);
    assert [a, b] + [row[2]] == row && [ops[0]] + [ops[1]] == ops;
    assert FoldFrom(row, ops, 1, [a, b], [ops[0]]) == FoldFrom(row, ops, 2, row, ops);
    assert PairRound([a, b, c], ops[0]) == [Combine(ops[0], a, b), c];
    assert PairRound([Combine(ops[0], a, b), c], ops[0]) == [Combine(ops[0], Combine(ops[0], a, b), c)];
    assert Reduce(row, ops[0]) == Reduce([Combine(ops[0], a, b), c], ops[0]);
    assert Reduce([Combine(ops[0], a, b), c], ops[0]) == Combine(ops[0], Combine(ops[0], a, b), c);
  }

  // ---------------------------------------------------------------------
  // Gathering operands and operators level by level

  /** The operands and operators of one bracket level. */
  datatype Group = Group(operands: seq<Node>, operators: seq<SyntaxType>)

  /** The levels of the brackets still open, the level being read, and the
    * number the next operand leaf gets. */
  datatype ParseState = ParseState(saved: seq<Group>, current: Group, pos: int)

  const Empty: Group := Group([], [])
  const StartParse: ParseState := ParseState([], Empty, 0)

  /** Every token has a kind. */
  predicate Kinded(ts: seq<Lexical.Token>)
  {
    forall k :: 0 <= k < |ts| ==> ts[k].tokenType.Some?
  }

  /** One token: an operand becomes a numbered leaf, an operator is noted,
    * an opening bracket saves the level and starts an empty one, and a
    * closing bracket over a level with operands builds that level's tree and
    * adds it to the saved level as one operand.  A closing bracket over a
    * level without operands, function names, function brackets and error
    * tokens change nothing.  A token without a kind stops the reading. */
  function ParseStep(st: ParseState, t: Lexical.Token): Result<ParseState, BuildFailure>
  {
    if t.tokenType.None? then Failure(MissingTokenType)
    else
      var c := SyntaxValidation.Category(t);
      if c == SyntaxValidation.Operand then
        var leaf := Operand(st.pos, SyntaxValidation.Operand, t.value);
        Success(ParseState(st.saved, st.current.(operands := st.current.operands + [leaf]), st.pos + 1))
      else if c in SyntaxValidation.Operators then
        Success(st.(current := st.current.(operators := st.current.operators + [c])))
      else if c == SyntaxValidation.OpenBracket then
        Success(ParseState(st.saved + [st.current], Empty, st.pos))
      else if c == SyntaxValidation.CloseBracket && st.current.operands != [] then
        match BalancedParallel(st.current.operands, st.current.operators)
        case Failure(e) => Failure(e)
        case Success(tree) =>
          if st.saved == [] then Failure(UnmatchedCloseBracket)
          else
            var top := st.saved[|st.saved| - 1];
            Success(ParseState(st.saved[..|st.saved| - 1], top.(operands := top.operands + [tree]), st.pos))
      else Success(st)
  }

  /** A closing bracket over a level with operands: a level without
    * operators fails with `NoOperators`; otherwise, when an outer level is
    * saved, the level's tree becomes one more operand of that outer level,
    * whose operators are kept. */
  lemma ClosedGroupBecomesOperand(st: ParseState, t: Lexical.Token)
    requires t.tokenType.Some? && SyntaxValidation.Category(t) == SyntaxValidation.CloseBracket
    requires st.current.operands != []
    ensures st.current.operators == [] ==> ParseStep(st, t) == Failure(NoOperators)
    ensures BalancedParallel(st.current.operands, st.current.operators).Success? && st.saved != [] ==>
      && ParseStep(st, t).Success?
      && var st', top := ParseStep(st, t).value, st.saved[|st.saved| - 1];
      && st'.saved == st.saved[..|st.saved| - 1]
      && st'.current.operators == top.operators
      && |st'.current.operands| == |top.operands| + 1
      && st'.current.operands[..|top.operands|] == top.operands
      && st'.current.operands[|top.operands|].Function?
      && Leaves(Some(st'.current.operands[|top.operands|]))
         == LeavesOf(st.current.operands[..|st.current.operators| + 1])
  {
    if BalancedParallel(st.current.operands, st.current.operators).Success? {
      BalancedParallelShape(st.current.operands, st.current.operators);
    }
  }

  /** The tokens read from `st` on, stopping at the first failure. */
  function ParseFrom(rest: seq<Lexical.Token>, st: ParseState): Result<ParseState, BuildFailure>
  {
    if rest == [] then Success(st)
    else
      match ParseStep(st, rest[0])
      case Failure(e) => Failure(e)
      case Success(st') => ParseFrom(rest[1..], st')
  }

  /** Reading succeeds only over tokens that all have a kind: a token
    * without one fails the reading, at that token or earlier. */
  lemma {:induction false} ReadOnlyKinded(rest: seq<Lexical.Token>, st: ParseState)
    ensures ParseFrom(rest, st).Success? ==> Kinded(rest)
    ensures rest != [] && rest[0].tokenType.None? ==> ParseFrom(rest, st) == Failure(MissingTokenType)
    decreases |rest|
  {
    if rest != [] {
      match ParseStep(st, rest[0])
      case Failure(_) =>
      case Success(st') =>
        ReadOnlyKinded(rest[1..], st');
        if ParseFrom(rest, st).Success? {
          forall k | 0 <= k < |rest|
            ensures rest[k].tokenType.Some?
          {
            if k > 0 {
              assert rest[k] == rest[1..][k - 1];
            }
          }
        }
    }
  }

  /** The operands and operators of the level being read when the tokens
    * end; the levels of brackets left open are not part of it. */
  function Parse(tokens: seq<Lexical.Token>): Result<Group, BuildFailure>
  {
    match ParseFrom(tokens, StartParse)
    case Failure(e) => Failure(e)
    case Success(st) => Success(st.current)
  }

  /** Reads the tokens into the operands and operators of the outer level,
    * with a stack of saved levels. */
  method ParseTokensToList(tokens: seq<Lexical.Token>) returns (r: Result<Group, BuildFailure>)
    ensures r == Parse(tokens)
  {
    var stack: seq<Group> := [];
    var currentOperands: seq<Node> := [];
    var currentOperators: seq<SyntaxType> := [];
    var pos := 0;
    for i := 0 to |tokens|
      invariant ParseFrom(tokens[i..], ParseState(stack, Group(currentOperands, currentOperators), pos))
             == ParseFrom(tokens, StartParse)
    {
      var token := tokens[i];
      assert tokens[i..][1..] == tokens[i + 1..];
      if token.tokenType.None? {
        return Failure(MissingTokenType);
      }
      var kind := SyntaxValidation.Category(token);
      if kind == SyntaxValidation.Operand {
        currentOperands := currentOperands + [Operand(pos, SyntaxValidation.Operand, token.value)];
        pos := pos + 1;
      } else if kind in SyntaxValidation.Operators {
        currentOperators := currentOperators + [kind];
      } else if kind == SyntaxValidation.OpenBracket {
        stack := stack + [Group(currentOperands, currentOperators)];
        currentOperands := [];
        currentOperators := [];
      } else if kind == SyntaxValidation.CloseBracket && currentOperands != [] {
        var bracketResult := BuildBalancedParallelTree(currentOperands, currentOperators);
        if bracketResult.Failure? {
          return Failure(bracketResult.error);
        }
        if stack == [] {
          return Failure(UnmatchedCloseBracket);
        }
        var top := stack[|stack| - 1];
        stack := stack[..|stack| - 1];
        currentOperands := top.operands + [bracketResult.value];
        currentOperators := top.operators;
      }
    }
    return Success(Group(currentOperands, currentOperators));
  }

  /** The tree of a query: its outer level must hold at least two operands. */
  function SyntaxTreeOf(tokens: seq<Lexical.Token>): (r: Result<Node, BuildFailure>)
    ensures Parse(tokens).Success? && Parse(tokens).value.operands == [] ==> r == Failure(NoOperands)
    ensures Parse(tokens).Success? && |Parse(tokens).value.operands| == 1 ==> r == Failure(SingleOperand)
    ensures r.Success? ==> Parse(tokens).Success? && |Parse(tokens).value.operands| >= 2
  {
    match Parse(tokens)
    case Failure(e) => Failure(e)
    case Success(g) =>
      if g.operands == [] then Failure(NoOperands)
      else if |g.operands| == 1 then Failure(SingleOperand)
      else BalancedParallel(g.operands, g.operators)
  }

  /** Parses the tokens and builds the tree of the outer level. */
  method BuildSyntaxTree(tokens: seq<Lexical.Token>) returns (r: Result<Node, BuildFailure>)
    ensures r == SyntaxTreeOf(tokens)
  {
    var parsed := ParseTokensToList(tokens);
    if parsed.Failure? {
      return Failure(parsed.error);
    }
    var operands := parsed.value.operands;
    var operators := parsed.value.operators;
    if operands == [] {
      return Failure(NoOperands);
    }
    if |operands| == 1 {
      return Failure(SingleOperand);
    }
    r := BuildBalancedParallelTree(operands, operators);
  }

  // ---------------------------------------------------------------------
  // Queries without brackets

  /** No token is a bracket. */
  predicate Flat(ts: seq<Lexical.Token>)
  {
    forall k :: 0 <= k < |ts| ==>
      ts[k].tokenType != Some(Lexical.OpenBracket) && ts[k].tokenType != Some(Lexical.CloseBracket)
  }

  /** The operand tokens as leaves numbered from `pos` on. */
  function OperandLeaves(ts: seq<Lexical.Token>, pos: int): seq<Node>
    requires Kinded(ts)
  {
    if ts == [] then []
    else if SyntaxValidation.Category(ts[0]) == SyntaxValidation.Operand then
      [Operand(pos, SyntaxValidation.Operand, ts[0].value)] + OperandLeaves(ts[1..], pos + 1)
    else OperandLeaves(ts[1..], pos)
  }

  /** The operator tokens' categories, in order. */
  function OperatorKinds(ts: seq<Lexical.Token>): seq<SyntaxType>
    requires Kinded(ts)
  {
    if ts == [] then []
    else if SyntaxValidation.Category(ts[0]) in SyntaxValidation.Operators then
      [SyntaxValidation.Category(ts[0])] + OperatorKinds(ts[1..])
    else OperatorKinds(ts[1..])
  }

  /** The `k`-th operand leaf is an operand numbered `pos + k`. */
  lemma {:induction false} OperandLeavesNumbered(ts: seq<Lexical.Token>, pos: int, k: int)
    requires Kinded(ts) && 0 <= k < |OperandLeaves(ts, pos)|
    ensures OperandLeaves(ts, pos)[k].Operand? && OperandLeaves(ts, pos)[k].id == pos + k
    decreases |ts|
  {
    if SyntaxValidation.Category(ts[0]) == SyntaxValidation.Operand {
      if k > 0 {
        OperandLeavesNumbered(ts[1..], pos + 1, k - 1);
      }
    } else {
      OperandLeavesNumbered(ts[1..], pos, k);
    }
  }

  /** Without brackets everything stays on the level being read: its
    * operands gain the operand tokens as numbered leaves and its operators
    * the operator tokens, in order, and reading never fails. */
  lemma {:induction false} FlatParseFrom(rest: seq<Lexical.Token>, st: ParseState)
    requires Kinded(rest) && Flat(rest)
    ensures ParseFrom(rest, st) == Success(ParseState(st.saved,
              Group(st.current.operands + OperandLeaves(rest, st.pos), st.current.operators + OperatorKinds(rest)),
              st.pos + |OperandLeaves(rest, st.pos)|))
    decreases |rest|
  {
    if rest == [] {
      assert st.current.operands + [] == st.current.operands;
      assert st.current.operators + [] == st.current.operators;
    } else {
      assert Flat(rest[1..]) && Kinded(rest[1..]);
      var st' := ParseStep(st, rest[0]).value;
      FlatParseFrom(rest[1..], st');
      FlatStep(rest, st);
    }
  }

  /** What `FlatParseFrom` states about `rest` read from `st`. */
  predicate FlatRead(rest: seq<Lexical.Token>, st: ParseState)
    requires Kinded(rest)
  {
    ParseFrom(rest, st) == Success(ParseState(st.saved,
      Group(st.current.operands + OperandLeaves(rest, st.pos), st.current.operators + OperatorKinds(rest)),
      st.pos + |OperandLeaves(rest, st.pos)|))
  }

  /** The step of `FlatParseFrom` over its first token. */
  lemma FlatStep(rest: seq<Lexical.Token>, st: ParseState)
    requires Kinded(rest) && Flat(rest) && rest != []
    requires Kinded(rest[1..]) && ParseStep(st, rest[0]).Success?
    requires FlatRead(rest[1..], ParseStep(st, rest[0]).value)
    ensures FlatRead(rest, st)
  {
    var c := SyntaxValidation.Category(rest[0]);
    assert c != SyntaxValidation.OpenBracket && c != SyntaxValidation.CloseBracket;
    var st' := ParseStep(st, rest[0]).value;
    assert ParseFrom(rest, st) == ParseFrom(rest[1..], st');
    if c == SyntaxValidation.Operand {
      FlatOperandStep(rest, st);
    } else if c in SyntaxValidation.Operators {
      FlatOperatorStep(rest, st);
    } else {
      assert st' == st;
      assert OperandLeaves(rest, st.pos) == OperandLeaves(rest[1..], st.pos);
      assert OperatorKinds(rest) == OperatorKinds(rest[1..]);
    }
    assert StepAgrees(rest, st, st');
  }

  /** Reading the first token of `rest` from `st` gave `st'`, and the rest
    * from `st'` gives the same level as `rest` from `st`. */
  predicate StepAgrees(rest: seq<Lexical.Token>, st: ParseState, st': ParseState)
    requires Kinded(rest) && rest != [] && Kinded(rest[1..])
  {
    && st'.saved == st.saved
    && st'.current.operands + OperandLeaves(rest[1..], st'.pos) == st.current.operands + OperandLeaves(rest, st.pos)
    && st'.current.operators + OperatorKinds(rest[1..]) == st.current.operators + OperatorKinds(rest)
    && st'.pos + |OperandLeaves(rest[1..], st'.pos)| == st.pos + |OperandLeaves(rest, st.pos)|
  }

  lemma FlatOperandStep(rest: seq<Lexical.Token>, st: ParseState)
    requires Kinded(rest) && rest != [] && Kinded(rest[1..])
    requires SyntaxValidation.Category(rest[0]) == SyntaxValidation.Operand
    ensures ParseStep(st, rest[0]).Success? && StepAgrees(rest, st, ParseStep(st, rest[0]).value)
  {
    var leaf := Operand(st.pos, SyntaxValidation.Operand, rest[0].value);
    var st' := ParseState(st.saved, st.current.(operands := st.current.operands + [leaf]), st.pos + 1);
    assert ParseStep(st, rest[0]) == Success(st');
    assert OperandLeaves(rest, st.pos) == [leaf] + OperandLeaves(rest[1..], st.pos + 1);
    assert OperatorKinds(rest) == OperatorKinds(rest[1..]);
    assert st.current.operands + [leaf] + OperandLeaves(rest[1..], st.pos + 1)
        == st.current.operands + OperandLeaves(rest, st.pos);
  }

  lemma FlatOperatorStep(rest: seq<Lexical.Token>, st: ParseState)
    requires Kinded(rest) && rest != [] && Kinded(rest[1..])
    requires SyntaxValidation.Category(rest[0]) in SyntaxValidation.Operators
    ensures ParseStep(st, rest[0]).Success? && StepAgrees(rest, st, ParseStep(st, rest[0]).value)
  {
    var c := SyntaxValidation.Category(rest[0]);
    var st' := st.(current := st.current.(operators := st.current.operators + [c]));
    assert c != SyntaxValidation.Operand;
    assert ParseStep(st, rest[0]) == Success(st');
    assert OperandLeaves(rest, st.pos) == OperandLeaves(rest[1..], st.pos);
    assert OperatorKinds(rest) == [c] + OperatorKinds(rest[1..]);
    assert st.current.operators + [c] + OperatorKinds(rest[1..])
        == st.current.operators + OperatorKinds(rest);
  }

  lemma {:induction false} LeafRowLeaves(row: seq<Node>)
    requires forall k :: 0 <= k < |row| ==> row[k].Operand?
    ensures LeavesOf(row) == row
    decreases |row|
  {
    if row != [] {
      LeafRowLeaves(row[1..]);
    }
  }

  /** A query without brackets is built from its operand tokens: the tree's
    * leaves are the operands numbered 0, 1, ... in query order, up to one
    * more than the operators, and it has one operation node per operator. */
  lemma FlatQueryTree(tokens: seq<Lexical.Token>)
    requires Kinded(tokens) && Flat(tokens)
    requires SyntaxTreeOf(tokens).Success?
    ensures var leaves := OperandLeaves(tokens, 0);
            var ops := OperatorKinds(tokens);
            |ops| < |leaves| &&
            Leaves(Some(SyntaxTreeOf(tokens).value)) == leaves[..|ops| + 1] &&
            (forall k :: 0 <= k <= |ops| ==> leaves[k].Operand? && leaves[k].id == k) &&
            Size(Some(SyntaxTreeOf(tokens).value)) == 2 * |ops| + 1
  {
    FlatParseFrom(tokens, StartParse);
    var leaves := OperandLeaves(tokens, 0);
    var ops := OperatorKinds(tokens);
    assert [] + leaves == leaves && [] + ops == ops;
    assert Parse(tokens) == Success(Group(leaves, ops));
    BalancedParallelShape(leaves, ops);
    var read := leaves[..|ops| + 1];
    AllNumbered(tokens);
    LeafRowLeaves(read);
    LeafRowSize(read);
  }

  lemma AllNumbered(tokens: seq<Lexical.Token>)
    requires Kinded(tokens)
    ensures forall k :: 0 <= k < |OperandLeaves(tokens, 0)| ==>
      OperandLeaves(tokens, 0)[k].Operand? && OperandLeaves(tokens, 0)[k].id == k
  {
    forall k | 0 <= k < |OperandLeaves(tokens, 0)|
      ensures OperandLeaves(tokens, 0)[k].Operand? && OperandLeaves(tokens, 0)[k].id == k
    {
      OperandLeavesNumbered(tokens, 0, k);
    }
  }

  lemma {:induction false} LeafRowSize(row: seq<Node>)
    requires forall k :: 0 <= k < |row| ==> row[k].Operand?
    ensures SizeOf(row) == |row|
    decreases |row|
  {
    if row != [] {
      LeafRowSize(row[1..]);
    }
  }

  // ---------------------------------------------------------------------
  // The analyzer's own validation pass

  /** The analyzer carries a copy of the validator's table and checks; it
    * runs the same pass and reports its errors instead of a verdict. */
  method ProcessTokenQuery(tokens: array<Lexical.Token>)
    returns (r: Result<seq<SyntaxValidation.SyntaxError>, SyntaxValidation.ValidationFailure>)
    modifies tokens
    ensures tokens[..] == SyntaxValidation.Validate(old(tokens[..])).0
    ensures r.Success? <==> SyntaxValidation.Validate(old(tokens[..])).1.Success?
    ensures r.Success? ==> r.value == SyntaxValidation.Validate(old(tokens[..])).1.value.errors
    ensures r.Failure? ==> r.error == SyntaxValidation.Validate(old(tokens[..])).1.error
  {
    var report := SyntaxValidation.ValidateTokenQuery(tokens);
    match report
    case Failure(e) => r := Failure(e);
    case Success(rep) => r := Success(rep.errors);
  }
}
