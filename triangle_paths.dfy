/** Top-to-bottom paths through a triangle of integers and their largest sum.
    A triangle is a list of rows in which row `l` holds `l + 1` numbers. The number
    at row `l`, index `i` sits above `(l + 1, i)` (its left child) and
    `(l + 1, i + 1)` (its right child), so each interior position has two parents.
    A path is written as a sequence of moves, `true` meaning "go to the right child". */
module TrianglePaths {

  /** Row `l` holds exactly `l + 1` numbers; the empty list is allowed here. */
  predicate IsTriangular(nums: seq<seq<int>>)
  {
    forall l :: 0 <= l < |nums| ==> |nums[l]| == l + 1
  }

  function Max(a: int, b: int): (m: int)
    ensures m >= a && m >= b && (m == a || m == b)
  {
    if a >= b then a else b
  }

  /** Number of right moves in `moves`: the index gained on the way down. */
  function Rights(moves: seq<bool>): (k: nat)
    ensures k <= |moves|
  {
    if moves == [] then 0 else (if moves[0] then 1 else 0) + Rights(moves[1..])
  }

  /** A path of `l` moves that ends at index `i`: `i` moves right, then left. */
  function PathTo(l: nat, i: nat): (moves: seq<bool>)
    requires i <= l
    ensures |moves| == l && Rights(moves) == i
  {
    if l == 0 then []
    else if i > 0 then [true] + PathTo(l - 1, i - 1)
    else [false] + PathTo(l - 1, 0)
  }

  /** Sum of the numbers visited by starting at `(l, i)` and following `moves`. */
  function PathSum(nums: seq<seq<int>>, l: nat, i: nat, moves: seq<bool>): int
    requires IsTriangular(nums) && l < |nums| && i <= l && l + |moves| < |nums|
    decreases moves
  {
    if moves == [] then nums[l][i]
    else nums[l][i] + PathSum(nums, l + 1, if moves[0] then i + 1 else i, moves[1..])
  }

  /** Largest sum of a path from `(l, i)` down to the bottom row. */
  function MaxFrom(nums: seq<seq<int>>, l: nat, i: nat): int
    requires IsTriangular(nums) && l < |nums| && i <= l
    decreases |nums| - l
  {
    if l == |nums| - 1 then nums[l][i]
    else nums[l][i] + Max(MaxFrom(nums, l + 1, i), MaxFrom(nums, l + 1, i + 1))
  }

  /** No path from `(l, i)` to the bottom row sums to more than `MaxFrom(nums, l, i)`. */
  lemma {:induction false} MaxFromIsUpperBound(nums: seq<seq<int>>, l: nat, i: nat, moves: seq<bool>)
    requires IsTriangular(nums) && l < |nums| && i <= l
    requires l + |moves| == |nums| - 1
    ensures PathSum(nums, l, i, moves) <= MaxFrom(nums, l, i)
    decreases moves
  {
    if moves != [] {
      MaxFromIsUpperBound(nums, l + 1, if moves[0] then i + 1 else i, moves[1..]);
    }
  }

  /** A path from `(l, i)` to the bottom row whose sum is `MaxFrom(nums, l, i)`:
      at each step it goes towards the child with the larger `MaxFrom`, left on a tie. */
  function BestPath(nums: seq<seq<int>>, l: nat, i: nat): (moves: seq<bool>)
    requires IsTriangular(nums) && l < |nums| && i <= l
    ensures l + |moves| == |nums| - 1
    ensures PathSum(nums, l, i, moves) == MaxFrom(nums, l, i)
    decreases |nums| - l
  {
    if l == |nums| - 1 then []
    else if MaxFrom(nums, l + 1, i) >= MaxFrom(nums, l + 1, i + 1) then [false] + BestPath(nums, l + 1, i)
    else [true] + BestPath(nums, l + 1, i + 1)
  }

  /** `MaxFrom` is the maximum over all paths: an upper bound that some path reaches. */
  lemma MaxFromIsMaximum(nums: seq<seq<int>>, l: nat, i: nat)
    requires IsTriangular(nums) && l < |nums| && i <= l
    ensures forall moves: seq<bool> :: l + |moves| == |nums| - 1 ==> PathSum(nums, l, i, moves) <= MaxFrom(nums, l, i)
    ensures exists moves: seq<bool> :: l + |moves| == |nums| - 1 && PathSum(nums, l, i, moves) == MaxFrom(nums, l, i)
  {
    forall moves: seq<bool> | l + |moves| == |nums| - 1
      ensures PathSum(nums, l, i, moves) <= MaxFrom(nums, l, i)
    {
      MaxFromIsUpperBound(nums, l, i, moves);
    }
    var best := BestPath(nums, l, i);
    assert PathSum(nums, l, i, best) == MaxFrom(nums, l, i);
  }

  /** The triangle of the repository's test and its largest path sum, 5 + 9 + 6 + 7. */
  function ExampleRows(): (nums: seq<seq<int>>)
    ensures IsTriangular(nums) && |nums| == 4
  {
    [[5], [9, 6], [4, 6, 8], [0, 7, 1, 5]]
  }

  lemma ExampleMaxIs27()
    ensures MaxFrom(ExampleRows(), 0, 0) == 27
    ensures PathSum(ExampleRows(), 0, 0, [false, true, false]) == 27
  {
    var nums := ExampleRows();
    assert MaxFrom(nums, 2, 0) == 4 + 7;
    assert MaxFrom(nums, 2, 1) == 6 + 7;
    assert MaxFrom(nums, 2, 2) == 8 + 5;
    assert MaxFrom(nums, 1, 0) == 9 + 13;
    assert MaxFrom(nums, 1, 1) == 6 + 13;
  }
}
