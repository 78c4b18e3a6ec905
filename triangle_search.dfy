/** The linked form of a triangle: one `NumNode` per position, wired so that the node
    at row `l`, index `i` has the node at `(l + 1, i)` as its left child and the node at
    `(l + 1, i + 1)` as its right child. Interior nodes are shared by two parents, so the
    nodes form a directed acyclic graph rather than a tree. */
module TriangleSearch {
  import opened TrianglePaths

  /** Outcome of building a tree: the tree, or the error for an empty list of rows. */
  datatype Result<T> = Ok(value: T) | InvalidInput

  class NumNode {
    var value: int
    var left: NumNode?
    var right: NumNode?

    /** A new node holds `value` and has no children yet. */
    constructor (value: int)
      ensures this.value == value && left == null && right == null
    {
      this.value := value;
      left := null;
      right := null;
    }
  }

  /** Every node of `grid`, the rows of a linked triangle. */
  ghost function Nodes(grid: seq<seq<NumNode>>): set<NumNode>
  {
    set j, i | 0 <= j < |grid| && 0 <= i < |grid[j]| :: grid[j][i]
  }

  /** No node stands at two positions of `grid`. */
  ghost predicate Injective(grid: seq<seq<NumNode>>)
  {
    forall j, i, j', i' ::
      0 <= j < |grid| && 0 <= i < |grid[j]| && 0 <= j' < |grid| && 0 <= i' < |grid[j']| &&
      grid[j][i] == grid[j'][i']
      ==> j == j' && i == i'
  }

  /** `row` holds one distinct node per number of `values`, with that number as its value. */
  ghost predicate RowOf(row: seq<NumNode>, values: seq<int>)
    reads set k | 0 <= k < |row| :: row[k]
  {
    |row| == |values| &&
    (forall k :: 0 <= k < |row| ==> row[k].value == values[k]) &&
    (forall a, b :: 0 <= a < b < |row| ==> row[a] != row[b])
  }

  /** Each node of `upper` has the nodes below it in `lower` as its children. */
  ghost predicate RowAbove(upper: seq<NumNode>, lower: seq<NumNode>)
    reads set k | 0 <= k < |upper| :: upper[k]
  {
    |lower| == |upper| + 1 &&
    forall k :: 0 <= k < |upper| ==> upper[k].left == lower[k] && upper[k].right == lower[k + 1]
  }

  /** The nodes of the last row have no children. */
  ghost predicate BottomRow(row: seq<NumNode>)
    reads set k | 0 <= k < |row| :: row[k]
  {
    forall k :: 0 <= k < |row| ==> row[k].left == null && row[k].right == null
  }

  lemma NodesOfTail(grid: seq<seq<NumNode>>)
    requires grid != []
    ensures Nodes(grid[1..]) <= Nodes(grid)
    ensures forall j, i :: 0 < j < |grid| && 0 <= i < |grid[j]| ==> grid[j][i] in Nodes(grid[1..])
  {
    forall x | x in Nodes(grid[1..])
      ensures x in Nodes(grid)
    {
      var j, i :| 0 <= j < |grid[1..]| && 0 <= i < |grid[1..][j]| && grid[1..][j][i] == x;
      assert grid[j + 1][i] == x;
    }
    forall j, i | 0 < j < |grid| && 0 <= i < |grid[j]|
      ensures grid[j][i] in Nodes(grid[1..])
    {
      assert grid[1..][j - 1][i] == grid[j][i];
    }
  }

  /** `grid` is the linked form of `rows`, stated row by row from the top: the first row
      holds the first numbers in distinct nodes that no lower row uses, its nodes have the
      next row's nodes as children (none if it is the last row), and the rest of `grid`
      is the linked form of the rest of `rows`. */
  ghost predicate Wired(rows: seq<seq<int>>, grid: seq<seq<NumNode>>)
    reads Nodes(grid)
    decreases |grid|
  {
    if grid == [] then rows == []
    else
      NodesOfTail(grid);
      |grid| == |rows| &&
      RowOf(grid[0], rows[0]) &&
      (|grid| == 1 ==> BottomRow(grid[0])) &&
      (|grid| > 1 ==> RowAbove(grid[0], grid[1])) &&
      (forall k :: 0 <= k < |grid[0]| ==> grid[0][k] !in Nodes(grid[1..])) &&
      Wired(rows[1..], grid[1..])
  }

  /** What `Wired` says about row `l`. */
  lemma {:induction false} WiredRow(rows: seq<seq<int>>, grid: seq<seq<NumNode>>, l: nat)
    requires Wired(rows, grid) && l < |grid|
    ensures RowOf(grid[l], rows[l])
    ensures l + 1 < |grid| ==> RowAbove(grid[l], grid[l + 1])
    ensures l + 1 == |grid| ==> BottomRow(grid[l])
    decreases l
  {
    if l > 0 {
      WiredRow(rows[1..], grid[1..], l - 1);
      assert grid[1..][l - 1] == grid[l] && rows[1..][l - 1] == rows[l];
      if l + 1 < |grid| {
        assert grid[1..][l] == grid[l + 1];
      }
    }
  }

  /** A wired grid uses each node at one position only. */
  lemma {:induction false} WiredInjective(rows: seq<seq<int>>, grid: seq<seq<NumNode>>)
    requires Wired(rows, grid)
    ensures Injective(grid)
    decreases |grid|
  {
    if grid != [] {
      WiredInjective(rows[1..], grid[1..]);
      NodesOfTail(grid);
      forall j, i, j', i' |
        0 <= j < |grid| && 0 <= i < |grid[j]| && 0 <= j' < |grid| && 0 <= i' < |grid[j']| &&
        grid[j][i] == grid[j'][i']
        ensures j == j' && i == i'
      {
        if j > 0 && j' > 0 {
          assert grid[1..][j - 1][i] == grid[1..][j' - 1][i'];
        } else if j == 0 && j' == 0 {
          assert RowOf(grid[0], rows[0]);
        }
      }
    }
  }

  class NumTree {
    var root: NumNode
    /** The numbers the tree was built from. */
    ghost var Rows: seq<seq<int>>
    /** The node at each position of `Rows`. */
    ghost var Grid: seq<seq<NumNode>>
    ghost var Repr: set<NumNode>

    /** A tree holds exactly the root it is given; the builder fills in the ghost view. */
    constructor (root: NumNode)
      ensures this.root == root && Rows == [] && Grid == [] && Repr == {}
    {
      this.root := root;
      Rows, Grid, Repr := [], [], {};
    }

    ghost predicate Valid()
      reads this, Repr
    {
      Repr == Nodes(Grid) &&
      |Rows| > 0 && IsTriangular(Rows) &&
      |Grid| == |Rows| && (forall l :: 0 <= l < |Grid| ==> |Grid[l]| == l + 1) &&
      Wired(Rows, Grid) &&
      root == Grid[0][0]
    }
  }

  /** Putting a row of new nodes, wired to the row below, on top of a wired grid. */
  lemma PrependRow(rows: seq<seq<int>>, row: seq<NumNode>, grid: seq<seq<NumNode>>)
    requires rows != [] && Wired(rows[1..], grid) && RowOf(row, rows[0])
    requires grid == [] ==> BottomRow(row)
    requires grid != [] ==> RowAbove(row, grid[0])
    requires forall k :: 0 <= k < |row| ==> row[k] !in Nodes(grid)
    ensures Wired(rows, [row] + grid)
  {
    assert ([row] + grid)[0] == row && ([row] + grid)[1..] == grid;
  }

  /** Creates the nodes of one row holding `values`, each given its children in `below`
      (the row underneath, already built) or none when `below` is empty. */
  method CreateRow(values: seq<int>, below: seq<NumNode>) returns (row: seq<NumNode>)
    requires below == [] || |below| == |values| + 1
    ensures RowOf(row, values)
    ensures forall k :: 0 <= k < |row| ==> fresh(row[k])
    ensures below == [] ==> BottomRow(row)
    ensures below != [] ==> RowAbove(row, below)
  {
    row := [];
    var i := 0;
    while i < |values|
      invariant 0 <= i <= |values| && |row| == i
      invariant forall k :: 0 <= k < i ==> fresh(row[k]) && row[k].value == values[k]
      invariant forall a, b :: 0 <= a < b < i ==> row[a] != row[b]
      invariant below == [] ==> forall k :: 0 <= k < i ==> row[k].left == null && row[k].right == null
      invariant below != [] ==> forall k :: 0 <= k < i ==> row[k].left == below[k] && row[k].right == below[k + 1]
    {
      var node := new NumNode(values[i]);
      if below != [] {
        node.left := below[i];
        node.right := below[i + 1];
      }
      row := row + [node];
      i := i + 1;
    }
  }

  /** Creates the nodes of every row of `nums`, bottom row first, so that each node is
      created once and given its children as soon as it exists; `top` is the top row. */
  method CreateRows(nums: seq<seq<int>>) returns (top: seq<NumNode>, ghost grid: seq<seq<NumNode>>)
    requires IsTriangular(nums) && nums != []
    ensures Wired(nums, grid) && top == grid[0]
    ensures forall j, i :: 0 <= j < |grid| && 0 <= i < |grid[j]| ==> fresh(grid[j][i])
  {
    top, grid := [], [];
    var l := |nums|;
    while l > 0
      invariant 0 <= l <= |nums| && |grid| == |nums| - l
      invariant top == if l < |nums| then grid[0] else []
      invariant Wired(nums[l..], grid)
      invariant forall j, i :: 0 <= j < |grid| && 0 <= i < |grid[j]| ==> fresh(grid[j][i])
    {
      l := l - 1;
      assert forall o :: o in Nodes(grid) ==> allocated(o);
      label Before:
      var row := CreateRow(nums[l], top);
      assert unchanged@Before(Nodes(grid));
      assert nums[l..][0] == nums[l] && nums[l..][1..] == nums[l + 1..];
      PrependRow(nums[l..], row, grid);
      forall j, i | 0 <= j < |grid| + 1 && 0 <= i < |([row] + grid)[j]|
        ensures fresh(([row] + grid)[j][i])
      {
        if j > 0 { assert ([row] + grid)[j][i] == grid[j - 1][i]; }
      }
      grid := [row] + grid;
      top := row;
    }
    assert nums[0..] == nums;
  }

  /** Builds the linked triangle for `nums`; an empty list of rows is an error. */
  method CreateNumTree(nums: seq<seq<int>>) returns (result: Result<NumTree>)
    requires IsTriangular(nums)
    ensures result.InvalidInput? <==> nums == []
    ensures result.Ok? ==> fresh(result.value) && fresh(result.value.Repr) &&
                           result.value.Valid() && result.value.Rows == nums
  {
    if |nums| == 0 {
      return InvalidInput;
    }
    var top;
    ghost var grid;
    top, grid := CreateRows(nums);
    forall x | x in Nodes(grid)
      ensures fresh(x)
    {
      var j, i :| 0 <= j < |grid| && 0 <= i < |grid[j]| && grid[j][i] == x;
    }
    forall l | 0 <= l < |grid|
      ensures |grid[l]| == l + 1
    {
      WiredRow(nums, grid, l);
    }
    var tree := new NumTree(top[0]);
    tree.Rows, tree.Grid, tree.Repr := nums, grid, Nodes(grid);
    return Ok(tree);
  }

  /** The node at `(l, i)` of a valid tree holds `Rows[l][i]`; its children are the
      nodes at `(l + 1, i)` and `(l + 1, i + 1)`, or none on the bottom row. */
  lemma ChildrenAt(tree: NumTree, l: nat, i: nat)
    requires tree.Valid() && l < |tree.Rows| && i <= l
    ensures tree.Grid[l][i] in tree.Repr && tree.Grid[l][i].value == tree.Rows[l][i]
    ensures l + 1 < |tree.Rows| ==>
              tree.Grid[l][i].left == tree.Grid[l + 1][i] && tree.Grid[l][i].right == tree.Grid[l + 1][i + 1]
    ensures l + 1 == |tree.Rows| ==> tree.Grid[l][i].left == null && tree.Grid[l][i].right == null
  {
    assert tree.Grid[l][i] in Nodes(tree.Grid);
    WiredRow(tree.Rows, tree.Grid, l);
  }

  /** The node reached from `node` by following `moves` (`true` = right child);
      null once a missing child is asked for. Only nodes of `fp` are looked into. */
  ghost function Descend(node: NumNode?, moves: seq<bool>, fp: set<NumNode>): NumNode?
    reads fp
    decreases moves
  {
    if moves == [] then node
    else if node == null || node !in fp then null
    else Descend(if moves[0] then node.right else node.left, moves[1..], fp)
  }

  /** Sum of the values of the nodes visited from `node` along `moves`. */
  ghost function SumAlong(node: NumNode?, moves: seq<bool>, fp: set<NumNode>): int
    reads fp
    decreases moves
  {
    if node == null || node !in fp then 0
    else if moves == [] then node.value
    else node.value + SumAlong(if moves[0] then node.right else node.left, moves[1..], fp)
  }

  /** Following `moves` from the node at `(l, i)` reaches the node at
      `(l + |moves|, i + Rights(moves))`, which holds that number of the triangle and,
      on the bottom row, has no children. */
  lemma {:induction false} DescendLands(tree: NumTree, l: nat, i: nat, moves: seq<bool>)
    requires tree.Valid() && l < |tree.Rows| && i <= l && l + |moves| < |tree.Rows|
    ensures i + Rights(moves) <= l + |moves|
    ensures Descend(tree.Grid[l][i], moves, tree.Repr) == tree.Grid[l + |moves|][i + Rights(moves)]
    ensures tree.Grid[l + |moves|][i + Rights(moves)].value == tree.Rows[l + |moves|][i + Rights(moves)]
    ensures l + |moves| == |tree.Rows| - 1 ==>
              tree.Grid[l + |moves|][i + Rights(moves)].left == null &&
              tree.Grid[l + |moves|][i + Rights(moves)].right == null
    decreases moves
  {
    ChildrenAt(tree, l, i);
    if moves != [] {
      DescendLands(tree, l + 1, if moves[0] then i + 1 else i, moves[1..]);
    }
  }

  /** The values met along `moves` from `(l, i)` add up to the path sum of the triangle. */
  lemma {:induction false} SumAlongIsPathSum(tree: NumTree, l: nat, i: nat, moves: seq<bool>)
    requires tree.Valid() && l < |tree.Rows| && i <= l && l + |moves| < |tree.Rows|
    ensures SumAlong(tree.Grid[l][i], moves, tree.Repr) == PathSum(tree.Rows, l, i, moves)
    decreases moves
  {
    ChildrenAt(tree, l, i);
    if moves != [] {
      SumAlongIsPathSum(tree, l + 1, if moves[0] then i + 1 else i, moves[1..]);
    }
  }

  /** The built tree contains all numbers: each one is the value of a node reached
      from the root. */
  lemma ContainsAllNumbers(tree: NumTree, l: nat, i: nat)
    requires tree.Valid() && l < |tree.Rows| && i <= l
    ensures exists moves: seq<bool> :: |moves| == l && Descend(tree.root, moves, tree.Repr) != null &&
                                       Descend(tree.root, moves, tree.Repr).value == tree.Rows[l][i]
  {
    var moves := PathTo(l, i);
    DescendLands(tree, 0, 0, moves);
  }

  /** The node reached from the root depends only on the depth and the number of right
      moves: the two parents of an interior position share one child object. Different
      positions hold different nodes. */
  lemma SharedChildren(tree: NumTree, m1: seq<bool>, m2: seq<bool>)
    requires tree.Valid() && |m1| < |tree.Rows| && |m2| < |tree.Rows|
    ensures Descend(tree.root, m1, tree.Repr) == Descend(tree.root, m2, tree.Repr) <==>
            |m1| == |m2| && Rights(m1) == Rights(m2)
  {
    DescendLands(tree, 0, 0, m1);
    DescendLands(tree, 0, 0, m2);
    WiredInjective(tree.Rows, tree.Grid);
  }

  /** The children of a node reached from the root hold the numbers below-left and
      below-right of its own. */
  lemma ChildValues(tree: NumTree, moves: seq<bool>)
    requires tree.Valid() && |moves| + 1 < |tree.Rows|
    ensures var node := Descend(tree.root, moves, tree.Repr);
            node != null && node.left != null && node.right != null &&
            node.value == tree.Rows[|moves|][Rights(moves)] &&
            node.left.value == tree.Rows[|moves| + 1][Rights(moves)] &&
            node.right.value == tree.Rows[|moves| + 1][Rights(moves) + 1]
  {
    DescendLands(tree, 0, 0, moves);
    ChildrenAt(tree, |moves|, Rights(moves));
    ChildrenAt(tree, |moves| + 1, Rights(moves));
    ChildrenAt(tree, |moves| + 1, Rights(moves) + 1);
  }

  /** Every memoised result is the largest path sum below its node. */
  ghost predicate MemoSound(rows: seq<seq<int>>, grid: seq<seq<NumNode>>, memo: map<NumNode, int>)
  {
    forall l, i :: 0 <= l < |grid| && 0 <= i < |grid[l]| && grid[l][i] in memo ==>
      IsTriangular(rows) && l < |rows| && i <= l && memo[grid[l][i]] == MaxFrom(rows, l, i)
  }

  /** Recording the result for the node at `(l, i)` keeps the memo sound: no other
      position holds that node. */
  lemma MemoAdd(tree: NumTree, memo: map<NumNode, int>, l: nat, i: nat)
    requires tree.Valid() && l < |tree.Rows| && i <= l
    requires MemoSound(tree.Rows, tree.Grid, memo)
    ensures MemoSound(tree.Rows, tree.Grid, memo[tree.Grid[l][i] := MaxFrom(tree.Rows, l, i)])
  {
    WiredInjective(tree.Rows, tree.Grid);
  }

  /** Largest sum from `node` (at `(l, i)`) to the bottom: its value plus the larger result
      of its children, a missing child counting 0. A result is computed once per node and
      then looked up in `memo`, since each interior node has two parents. */
  method MaxSumFrom(tree: NumTree, node: NumNode, ghost l: nat, ghost i: nat, memo: map<NumNode, int>)
    returns (r: int, memo': map<NumNode, int>)
    requires tree.Valid() && l < |tree.Rows| && i <= l && node == tree.Grid[l][i]
    requires MemoSound(tree.Rows, tree.Grid, memo)
    ensures r == MaxFrom(tree.Rows, l, i)
    ensures MemoSound(tree.Rows, tree.Grid, memo')
    decreases |tree.Rows| - l
  {
    if node in memo {
      return memo[node], memo;
    }
    ChildrenAt(tree, l, i);
    memo' := memo;
    var fromLeft, fromRight := 0, 0;
    if node.left != null {
      fromLeft, memo' := MaxSumFrom(tree, node.left, l + 1, i, memo');
    }
    if node.right != null {
      fromRight, memo' := MaxSumFrom(tree, node.right, l + 1, i + 1, memo');
    }
    r := node.value + Max(fromLeft, fromRight);
    MemoAdd(tree, memo', l, i);
    memo' := memo'[node := r];
  }

  /** The largest sum of node values along a path from the root to the bottom row. */
  method FindMaxSum(tree: NumTree) returns (r: int)
    requires tree.Valid()
    ensures r == MaxFrom(tree.Rows, 0, 0)
    ensures forall moves: seq<bool> :: |moves| == |tree.Rows| - 1 ==> SumAlong(tree.root, moves, tree.Repr) <= r
    ensures exists moves: seq<bool> :: |moves| == |tree.Rows| - 1 && SumAlong(tree.root, moves, tree.Repr) == r
  {
    var memo;
    r, memo := MaxSumFrom(tree, tree.root, 0, 0, map[]);
    forall moves: seq<bool> | |moves| == |tree.Rows| - 1
      ensures SumAlong(tree.root, moves, tree.Repr) <= r
    {
      SumAlongIsPathSum(tree, 0, 0, moves);
      MaxFromIsUpperBound(tree.Rows, 0, 0, moves);
    }
    var best := BestPath(tree.Rows, 0, 0);
    SumAlongIsPathSum(tree, 0, 0, best);
  }

  /** The triangle of the repository's test, built and searched. */
  method ExampleTree() returns (rootValue: int, leftValue: int, rightValue: int, deepValue: int, maxSum: int)
    ensures rootValue == 5 && leftValue == 9 && rightValue == 6 && deepValue == 1
    ensures maxSum == 27
  {
    var result := CreateNumTree(ExampleRows());
    var tree := result.value;
    ChildrenAt(tree, 0, 0);
    ChildrenAt(tree, 1, 0);
    ChildrenAt(tree, 1, 1);
    ChildrenAt(tree, 2, 1);
    ChildrenAt(tree, 3, 2);
    rootValue := tree.root.value;
    leftValue := tree.root.left.value;
    rightValue := tree.root.right.value;
    deepValue := tree.root.right.left.right.value;
    maxSum := FindMaxSum(tree);
    ExampleMaxIs27();
  }
}
