/**
 * The syntax tree of a query and its two measures.  A node is an operand
 * leaf or a binary operation whose children may be missing; the height of
 * a tree counts its levels and its width is the largest number of nodes on
 * one level, counted level by level into a map.
 */
module SyntaxTree {
  import opened Wrappers
  import SyntaxValidation

  type SyntaxType = SyntaxValidation.SyntaxType

  /** A tree node: an operand leaf, or an operation over two optional children. */
  datatype Node =
    | Operand(id: int, kind: SyntaxType, value: Option<string>)
    | Function(id: int, left: Option<Node>, right: Option<Node>, operation: Option<SyntaxType>)

  function Max(a: int, b: int): int { if a < b then b else a }

  /** The number of levels of a tree: none for a missing node, one for a
    * leaf, one more than the taller child for an operation. */
  function Height(n: Option<Node>): (h: nat)
    ensures n.None? <==> h == 0
    ensures n.Some? && n.value.Operand? ==> h == 1
  {
    match n
    case None => 0
    case Some(Operand(_, _, _)) => 1
    case Some(Function(_, l, r, _)) => Max(Height(l), Height(r)) + 1
  }

  /** The number of nodes of a tree. */
  function Size(n: Option<Node>): nat
  {
    match n
    case None => 0
    case Some(Operand(_, _, _)) => 1
    case Some(Function(_, l, r, _)) => Size(l) + Size(r) + 1
  }

  /** The number of nodes `d` levels below the root. */
  function LevelCount(n: Option<Node>, d: nat): nat
  {
    match n
    case None => 0
    case Some(Operand(_, _, _)) => if d == 0 then 1 else 0
    case Some(Function(_, l, r, _)) => if d == 0 then 1 else LevelCount(l, d - 1) + LevelCount(r, d - 1)
  }

  /** Every level above the height holds a node, and no level below it does;
    * no level holds more nodes than the whole tree. */
  lemma {:induction false} LevelCountBounds(n: Option<Node>, d: nat)
    ensures LevelCount(n, d) > 0 <==> d < Height(n)
    ensures LevelCount(n, d) <= Size(n)
  {
    match n
    case None =>
    case Some(Operand(_, _, _)) =>
    case Some(Function(_, l, r, _)) =>
      if d > 0 {
        LevelCountBounds(l, d - 1);
        LevelCountBounds(r, d - 1);
      }
  }

  /** The count a map holds for `d`, zero when it holds none. */
  function Get(m: map<nat, nat>, d: nat): nat
  {
    if d in m then m[d] else 0
  }

  /** Adds one to the count of `level` for each node of the tree at that
    * depth below `level`, recursively. */
  method CountNodesAtLevel(node: Option<Node>, level: nat, levelCounts: map<nat, nat>)
    returns (counts: map<nat, nat>)
    ensures forall d: nat :: d < level ==> Get(counts, d) == Get(levelCounts, d)
    ensures forall d: nat :: d >= level ==> Get(counts, d) == Get(levelCounts, d) + LevelCount(node, d - level)
    ensures forall d: nat :: d in counts <==> d in levelCounts || level <= d < level + Height(node)
    decreases node
  {
    if node.None? {
      return levelCounts;
    }
    counts := levelCounts[level := Get(levelCounts, level) + 1];
    match node.value
    case Operand(_, _, _) =>
    case Function(_, l, r, _) =>
      counts := CountNodesAtLevel(l, level + 1, counts);
      counts := CountNodesAtLevel(r, level + 1, counts);
  }

  /** The largest count in the map, or zero for an empty map. */
  method MaxCount(levelCounts: map<nat, nat>) returns (width: nat)
    ensures forall d :: d in levelCounts ==> levelCounts[d] <= width
    ensures levelCounts != map[] ==> exists d :: d in levelCounts && levelCounts[d] == width
    ensures levelCounts == map[] ==> width == 0
  {
    width := 0;
    var levels := levelCounts.Keys;
    ghost var seen: set<nat> := {};
    while levels != {}
      invariant levels + seen == levelCounts.Keys && levels !! seen
      invariant forall d :: d in seen ==> levelCounts[d] <= width
      invariant seen != {} ==> exists d :: d in seen && levelCounts[d] == width
      invariant seen == {} ==> width == 0
      decreases levels
    {
      var d :| d in levels;
      if width < levelCounts[d] {
        width := levelCounts[d];
      }
      levels := levels - {d};
      seen := seen + {d};
    }
    if levelCounts != map[] {
      assert levelCounts.Keys != {} by {
        var d :| d in levelCounts;
      }
    }
  }

  /** The largest number of nodes on one level: zero for a missing tree. */
  method GetMaxWidth(root: Option<Node>) returns (width: nat)
    ensures root.None? ==> width == 0
    ensures forall d: nat :: LevelCount(root, d) <= width
    ensures root.Some? ==> exists d: nat :: d < Height(root) && LevelCount(root, d) == width
    ensures root.Some? ==> 1 <= width <= Size(root)
  {
    if root.None? {
      return 0;
    }
    var levelCounts := CountNodesAtLevel(root, 0, map[]);
    assert 0 in levelCounts;
    width := MaxCount(levelCounts);
    ghost var w :| w in levelCounts && levelCounts[w] == width;
    assert Get(levelCounts, w) == LevelCount(root, w);
    LevelCountBounds(root, w);
    forall d: nat
      ensures LevelCount(root, d) <= width
    {
      LevelCountBounds(root, d);
      assert Get(levelCounts, d) == LevelCount(root, d);
    }
  }
}
