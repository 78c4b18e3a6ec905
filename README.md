# Triangle maximum path sum, modelled in Dafny

This project models the triangle search of `src/triangle_search.py`. The input is a
triangle of integers: a list of rows in which row `l` holds `l + 1` numbers.
`create_num_tree` turns the rows into linked `NumNode`s held by a `NumTree`.
`find_max_sum` returns the largest sum of the values met on a path from the top node
to the bottom row.

The node at row `l`, index `i` has the node at `(l + 1, i)` as its left child and the
node at `(l + 1, i + 1)` as its right child. The repository's test fixes this:
`root.right.left.right` must hold 1, which is `nums[3][2]`. Every interior position
therefore has two parents, and the builder gives both parents the same node object.
The nodes form a directed acyclic graph with one node per position.

`create_num_tree` and `find_max_sum` have no bodies in the source: both are `pass`
(src/triangle_search.py:50, 62). Their behaviour here follows their doc comments and
the test in `test/test_triangle_search.py`.

Files:

- `triangle_paths.dfy`, module `TrianglePaths`. The pure specification.
  - `IsTriangular` is the input shape.
  - A path is a sequence of moves (`true` = right child).
  - `PathSum` adds up the numbers along a path.
  - `MaxFrom(nums, l, i)` is the largest sum from `(l, i)` to the bottom row.
  - Lemmas prove that `MaxFrom` bounds every path sum and that some path reaches it.
- `triangle_search.dfy`, module `TriangleSearch`. The source's objects and functions.
  - The classes `NumNode` and `NumTree`.
  - The builder `CreateNumTree`, which works bottom row first. Each node is allocated
    once and gets its children as soon as it exists.
  - `FindMaxSum`, a memoised recursion over the linked nodes. It is proved equal to
    `MaxFrom(rows, 0, 0)` and to the maximum over all paths of the node values met.
  - Lemmas about the built structure: where a sequence of moves from the root leads,
    the child values, node sharing, and that every number is in the tree.

`NumTree` carries ghost fields that describe the finished structure. They are not in
the source.
- `Rows`: the numbers the tree was built from.
- `Grid`: the node at each position.
- `Repr`: the set of all nodes.
- `Valid()` ties these fields to the real `root`, `value`, `left` and `right` fields.

## Model

| member | source | states |
|---|---|---|
| `TriangleSearch.NumNode.constructor` | src/triangle_search.py:28-36 | a new node holds the given value and has no left or right child |
| `TriangleSearch.NumTree.constructor` | src/triangle_search.py:15-21 | the tree holds exactly the root it is given |
| `TriangleSearch.CreateNumTree` | src/triangle_search.py:39-50 | an empty list of rows gives `InvalidInput`, and only the empty list does. Otherwise the result is a new tree whose nodes are all new. It is `Valid()` for exactly the input rows: one distinct node per number, holding that number. The node at `(l, i)` has children `(l + 1, i)` and `(l + 1, i + 1)`, the bottom row has none, and the root is the node at `(0, 0)` |
| `TriangleSearch.CreateRows` | src/triangle_search.py:39-50 | building the rows from the bottom up yields a wired grid for all of `nums` whose nodes are all new; the returned top row is the grid's first row |
| `TriangleSearch.CreateRow` | src/triangle_search.py:39-50 | one row of new, pairwise distinct nodes holding the row's numbers. Each node's children are the two nodes under it in the row below, or none when there is no row below |
| `TriangleSearch.WiredInjective` | src/triangle_search.py:39-50 | in a wired grid, no node object stands at two positions (each position gets its own node) |
| `TriangleSearch.DescendLands` | test/test_triangle_search.py:17-38 | following moves from the node at `(l, i)` reaches the node at `(l + number of moves, i + number of right moves)`. That node holds the number at that position, and on the bottom row it has no children |
| `TriangleSearch.ChildValues` | test/test_triangle_search.py:20-38 | a node reached from the root holds `nums[l][i]`; above the bottom row, its left child holds `nums[l+1][i]` and its right child holds `nums[l+1][i+1]` |
| `TriangleSearch.SharedChildren` | test/test_triangle_search.py:35-38 | two move sequences from the root reach the same node object if and only if they have the same length and the same number of right moves. So the two parents of an interior position share one child, and different positions hold different nodes |
| `TriangleSearch.ContainsAllNumbers` | src/triangle_search.py:47-48 | every number `nums[l][i]` is the value of a node reached from the root by `l` moves |
| `TriangleSearch.SumAlongIsPathSum` | src/triangle_search.py:53-62 | the sum of the node values met along a path in the linked tree equals the path sum of the same moves in the input rows |
| `TriangleSearch.MaxSumFrom` | src/triangle_search.py:53-62 | the memoised recursion returns the largest path sum from the node at `(l, i)` to the bottom row. It keeps every memo entry equal to the largest sum below its node |
| `TriangleSearch.MemoAdd` | src/triangle_search.py:53-62 | recording the largest sum of the node at `(l, i)` keeps every memo entry correct, because no other position holds that node |
| `TriangleSearch.FindMaxSum` | src/triangle_search.py:53-62 | the result is at least the node-value sum of every top-to-bottom path. Some top-to-bottom path has exactly that sum, so the result is the maximum. It also equals `MaxFrom(rows, 0, 0)` |
| `TriangleSearch.ExampleTree` | test/test_triangle_search.py:17-38 | for `[[5], [9, 6], [4, 6, 8], [0, 7, 1, 5]]`: root 5, root.left 9, root.right 6, root.right.left.right 1. The maximum sum is 27 |
| `TrianglePaths.MaxFromIsUpperBound` | src/triangle_search.py:53-62 | no path from `(l, i)` to the bottom row sums to more than `MaxFrom(nums, l, i)` |
| `TrianglePaths.BestPath` | src/triangle_search.py:53-62 | a path from `(l, i)` to the bottom row whose sum is exactly `MaxFrom(nums, l, i)` |
| `TrianglePaths.MaxFromIsMaximum` | src/triangle_search.py:53-62 | `MaxFrom(nums, l, i)` is the maximum of the path sums from `(l, i)`: every path is at or below it, and some path reaches it |
| `TrianglePaths.PathTo` | src/triangle_search.py:47-48 | for every position `(l, i)` there is a move sequence of length `l` with `i` right moves, so every position can be reached from the top |
| `TrianglePaths.ExampleMaxIs27` | test/test_triangle_search.py:17 | the largest path sum of the test triangle is 27, reached by 5 + 9 + 6 + 7 |

## Left out

- `src/wifi_search.py` is not part of this model. It is floating-point plane geometry
  (trigonometry, tolerances), and every function in it is unimplemented.
- Input shape:
  - `CreateNumTree` requires that row `l` has exactly `l + 1` numbers.
  - The doc comment (src/triangle_search.py:43-45) says only that each row is one
    longer than the one before. The model also asks for a one-number top row, as the
    test triangle has.
  - Input of any other shape is a precondition violation, not a modelled error.
- `CreateNumTree` returns `InvalidInput` for an empty list of rows. The source does not
  say what happens then.
- Values are unbounded integers, following the doc comment "An integer"
  (src/triangle_search.py:32). Python's dynamic typing (floats, other objects) is not
  modelled.
- `MaxSumFrom` memoises with a map keyed by node identity. It does not cache the result
  in a field on the node. Nothing is mutated during the search.
- Running time and the number of recursive calls are not modelled. The memo's
  effect on cost is not proved.
- `Descend` and `SumAlong` follow child links only through nodes of the given
  footprint (`Repr`). For a `Valid()` tree this holds for every node reachable from
  the root.
- Parsing the input text and printing the result are not in the source file and are
  not modelled.
