/**
 * The binary search tree of lab06/src/binary_search_tree.py as a value: the
 * shape of the nodes reachable from a root, and what insert, delete, the
 * min/max walks, the validity check and height do to and with that shape.
 * The heap-based tree in module Bst is proved against these functions.
 */
module TreeModel {
  import opened Wrappers
  import opened Recursion

  datatype Tree = Leaf | Node(left: Tree, value: int, right: Tree)

  /** The keys stored in a tree. */
  function Keys(t: Tree): set<int>
  {
    match t
    case Leaf => {}
    case Node(l, x, r) => Keys(l) + {x} + Keys(r)
  }

  /** The number of nodes. */
  function NodeCount(t: Tree): nat
  {
    match t
    case Leaf => 0
    case Node(l, _, r) => NodeCount(l) + 1 + NodeCount(r)
  }

  /** The search-tree ordering: every key in a left subtree is strictly less
      than its node's value, every key in a right subtree strictly greater. */
  predicate Ordered(t: Tree)
  {
    match t
    case Leaf => true
    case Node(l, x, r) =>
      && Ordered(l) && Ordered(r)
      && (forall k :: k in Keys(l) ==> k < x)
      && (forall k :: k in Keys(r) ==> x < k)
  }

  /** k lies strictly above the optional lower bound (None: no bound). */
  predicate AboveBound(k: int, lo: Option<int>)
  {
    lo.None? || lo.value < k
  }

  /** k lies strictly below the optional upper bound (None: no bound). */
  predicate BelowBound(k: int, hi: Option<int>)
  {
    hi.None? || k < hi.value
  }

  /** Every key of t lies strictly between the bounds. */
  predicate Between(t: Tree, lo: Option<int>, hi: Option<int>)
  {
    forall k :: k in Keys(t) ==> AboveBound(k, lo) && BelowBound(k, hi)
  }

  // ---------------------------------------------------------------------
  // insert
  // ---------------------------------------------------------------------

  /** insert: walk left of greater and right of smaller values; an empty
      place gets a new leaf holding v, an equal value stops the walk. */
  function Insert(t: Tree, v: int): (after: Tree)
    ensures NodeCount(t) <= NodeCount(after) <= NodeCount(t) + 1
  {
    match t
    case Leaf => Node(Leaf, v, Leaf)
    case Node(l, x, r) =>
      if v < x then Node(Insert(l, v), x, r)
      else if v > x then Node(l, x, Insert(r, v))
      else t
  }

  /** The keys after insert are the old keys and v. */
  lemma {:induction false} InsertKeys(t: Tree, v: int)
    ensures Keys(Insert(t, v)) == Keys(t) + {v}
  {
    match t
    case Leaf =>
    case Node(l, x, r) =>
      if v < x {
        InsertKeys(l, v);
      } else if v > x {
        InsertKeys(r, v);
      }
  }

  /** insert keeps the search-tree ordering. */
  lemma {:induction false} InsertOrdered(t: Tree, v: int)
    requires Ordered(t)
    ensures Ordered(Insert(t, v))
  {
    match t
    case Leaf =>
    case Node(l, x, r) =>
      if v < x {
        InsertOrdered(l, v);
        InsertKeys(l, v);
      } else if v > x {
        InsertOrdered(r, v);
        InsertKeys(r, v);
      }
  }

  /** Inserting a value that the walk meets changes nothing (on an ordered
      tree, by ContainsIffKey, any value that is already present). */
  lemma {:induction false} InsertPresent(t: Tree, v: int)
    requires Contains(t, v)
    ensures Insert(t, v) == t
  {
    match t
    case Leaf =>
    case Node(l, x, r) =>
      if v < x {
        InsertPresent(l, v);
      } else if v > x {
        InsertPresent(r, v);
      }
  }

  /** After insert, the search walk finds v. */
  lemma {:induction false} InsertFinds(t: Tree, v: int)
    ensures Contains(Insert(t, v), v)
  {
    match t
    case Leaf =>
    case Node(l, x, r) =>
      if v < x {
        InsertFinds(l, v);
      } else if v > x {
        InsertFinds(r, v);
      }
  }

  /** Inserting an absent value adds exactly one node. */
  lemma {:induction false} InsertAddsOneNode(t: Tree, v: int)
    requires v !in Keys(t)
    ensures NodeCount(Insert(t, v)) == NodeCount(t) + 1
  {
    match t
    case Leaf =>
    case Node(l, x, r) =>
      if v < x {
        InsertAddsOneNode(l, v);
      } else {
        InsertAddsOneNode(r, v);
      }
  }

  /** The tree built by inserting the values one after another into t. */
  function InsertAll(t: Tree, vs: seq<int>): Tree
    decreases |vs|
  {
    if vs == [] then t else InsertAll(Insert(t, vs[0]), vs[1..])
  }

  // ---------------------------------------------------------------------
  // search
  // ---------------------------------------------------------------------

  /** The search walk: stop at an equal value, go left of greater values and
      right of smaller ones, fail at an empty place. */
  predicate Contains(t: Tree, v: int)
    ensures Contains(t, v) ==> v in Keys(t)
  {
    match t
    case Leaf => false
    case Node(l, x, r) => if v == x then true else if v < x then Contains(l, v) else Contains(r, v)
  }

  /** On an ordered tree the search walk finds exactly the stored keys. */
  lemma {:induction false} ContainsIffKey(t: Tree, v: int)
    requires Ordered(t)
    ensures Contains(t, v) <==> v in Keys(t)
  {
    match t
    case Leaf =>
    case Node(l, x, r) =>
      ContainsIffKey(l, v);
      ContainsIffKey(r, v);
  }

  // ---------------------------------------------------------------------
  // _find_min / _find_max
  // ---------------------------------------------------------------------

  /** The value of the leftmost node. */
  function MinKey(t: Tree): (m: int)
    requires t.Node?
    ensures m in Keys(t)
  {
    if t.left.Leaf? then t.value else MinKey(t.left)
  }

  /** The value of the rightmost node. */
  function MaxKey(t: Tree): (m: int)
    requires t.Node?
    ensures m in Keys(t)
  {
    if t.right.Leaf? then t.value else MaxKey(t.right)
  }

  /** On an ordered tree the leftmost value is the least key. */
  lemma {:induction false} MinKeyLeast(t: Tree)
    requires t.Node?
    ensures Ordered(t) ==> forall k :: k in Keys(t) ==> MinKey(t) <= k
  {
    if t.left.Node? {
      MinKeyLeast(t.left);
    }
  }

  /** On an ordered tree the rightmost value is the greatest key. */
  lemma {:induction false} MaxKeyGreatest(t: Tree)
    requires t.Node?
    ensures Ordered(t) ==> forall k :: k in Keys(t) ==> k <= MaxKey(t)
  {
    if t.right.Node? {
      MaxKeyGreatest(t.right);
    }
  }

  // ---------------------------------------------------------------------
  // delete
  // ---------------------------------------------------------------------

  /** _delete_recursive: walk to the value; a node with at most one child is
      replaced by that child, a node with two children takes the least value
      of its right subtree, which is then deleted from that subtree. */
  function Delete(t: Tree, v: int): (after: Tree)
    ensures after.Leaf? ==> NodeCount(t) <= 1
  {
    match t
    case Leaf => Leaf
    case Node(l, x, r) =>
      if v < x then Node(Delete(l, v), x, r)
      else if v > x then Node(l, x, Delete(r, v))
      else if l.Leaf? then r
      else if r.Leaf? then l
      else Node(l, MinKey(r), Delete(r, MinKey(r)))
  }

  /** Deleting an absent value returns the tree unchanged. */
  lemma {:induction false} DeleteAbsent(t: Tree, v: int)
    requires v !in Keys(t)
    ensures Delete(t, v) == t
  {
    match t
    case Leaf =>
    case Node(l, x, r) =>
      if v < x {
        DeleteAbsent(l, v);
      } else if v > x {
        DeleteAbsent(r, v);
      }
  }

  /** delete removes v and keeps every other key of an ordered tree. */
  lemma {:induction false} DeleteKeys(t: Tree, v: int)
    requires Ordered(t)
    ensures Keys(Delete(t, v)) == Keys(t) - {v}
  {
    match t
    case Leaf =>
    case Node(l, x, r) =>
      if v < x {
        DeleteKeys(l, v);
      } else if v > x {
        DeleteKeys(r, v);
      } else if l.Node? && r.Node? {
        MinKeyLeast(r);
        DeleteKeys(r, MinKey(r));
      }
  }

  /** delete keeps the search-tree ordering. */
  lemma {:induction false} DeleteOrdered(t: Tree, v: int)
    requires Ordered(t)
    ensures Ordered(Delete(t, v))
  {
    match t
    case Leaf =>
    case Node(l, x, r) =>
      if v < x {
        DeleteOrdered(l, v);
        DeleteKeys(l, v);
      } else if v > x {
        DeleteOrdered(r, v);
        DeleteKeys(r, v);
      } else if l.Node? && r.Node? {
        var m := MinKey(r);
        MinKeyLeast(r);
        DeleteOrdered(r, m);
        DeleteKeys(r, m);
        assert forall k :: k in Keys(l) ==> k < m;
      }
  }

  /** delete removes exactly one node when the value is present in an
      ordered tree, and none otherwise. */
  lemma {:induction false} DeleteCount(t: Tree, v: int)
    requires Ordered(t)
    ensures NodeCount(Delete(t, v)) == NodeCount(t) - (if v in Keys(t) then 1 else 0)
  {
    match t
    case Leaf =>
    case Node(l, x, r) =>
      if v < x {
        DeleteCount(l, v);
        assert v !in Keys(r);
      } else if v > x {
        DeleteCount(r, v);
        assert v !in Keys(l);
      } else if l.Node? && r.Node? {
        DeleteCount(r, MinKey(r));
      }
  }

  // ---------------------------------------------------------------------
  // _is_valid_bst / height
  // ---------------------------------------------------------------------

  /** _is_valid_bst(node, min, max): every node's value lies strictly
      between the bounds inherited from its ancestors. */
  predicate IsValidBst(t: Tree, lo: Option<int>, hi: Option<int>)
    ensures IsValidBst(t, lo, hi) ==> Between(t, lo, hi)
  {
    match t
    case Leaf => true
    case Node(l, x, r) =>
      if !AboveBound(x, lo) || !BelowBound(x, hi) then false
      else IsValidBst(l, lo, Some(x)) && IsValidBst(r, Some(x), hi)
  }

  /** The bound-tightening check accepts exactly the ordered trees whose keys
      lie between the bounds; from unbounded start, exactly the ordered trees. */
  lemma {:induction false} IsValidBstIffOrdered(t: Tree, lo: Option<int>, hi: Option<int>)
    ensures IsValidBst(t, lo, hi) <==> Ordered(t) && Between(t, lo, hi)
  {
    match t
    case Leaf =>
    case Node(l, x, r) =>
      IsValidBstIffOrdered(l, lo, Some(x));
      IsValidBstIffOrdered(r, Some(x), hi);
      if Ordered(t) && Between(t, lo, hi) {
        assert x in Keys(t);
        assert Between(l, lo, Some(x)) by {
          forall k | k in Keys(l) ensures AboveBound(k, lo) && BelowBound(k, Some(x)) {
            assert k in Keys(t);
          }
        }
        assert Between(r, Some(x), hi) by {
          forall k | k in Keys(r) ensures AboveBound(k, Some(x)) && BelowBound(k, hi) {
            assert k in Keys(t);
          }
        }
      }
  }

  /** height: 0 for an empty tree, else one more than the taller subtree. */
  function Height(t: Tree): (h: nat)
    ensures h <= NodeCount(t)
    ensures h == 0 <==> t.Leaf?
  {
    match t
    case Leaf => 0
    case Node(l, _, r) => (if Height(l) >= Height(r) then Height(l) else Height(r)) + 1
  }

  /** A tree of height h has fewer than 2^h nodes. */
  lemma {:induction false} HeightBounds(t: Tree)
    ensures NodeCount(t) < Pow(2, Height(t))
  {
    match t
    case Leaf =>
    case Node(l, _, r) =>
      HeightBounds(l);
      HeightBounds(r);
      PowTwoMonotone(Height(l), Height(t) - 1);
      PowTwoMonotone(Height(r), Height(t) - 1);
  }

  /** 1 <= 2^a <= 2^b for a <= b. */
  lemma {:induction false} PowTwoMonotone(a: nat, b: nat)
    requires a <= b
    ensures 1 <= Pow(2, a) <= Pow(2, b)
  {
    if a < b {
      PowTwoMonotone(a, b - 1);
    } else if a > 0 {
      PowTwoMonotone(a - 1, a - 1);
    }
  }

  // ---------------------------------------------------------------------
  // The driver's insertion sequences
  // ---------------------------------------------------------------------

  /** Inserting 50, 30, 70, 20, 40, 60, 80 gives a complete tree of height 3,
      in which 40 is found and 100 is not; deleting the root 50 promotes its
      in-order successor 60. */
  lemma BalancedScenario()
    ensures var t := InsertAll(Leaf, [50, 30, 70, 20, 40, 60, 80]);
      && t == Node(Node(Node(Leaf, 20, Leaf), 30, Node(Leaf, 40, Leaf)), 50,
                   Node(Node(Leaf, 60, Leaf), 70, Node(Leaf, 80, Leaf)))
      && Ordered(t) && Height(t) == 3
      && Contains(t, 40) && !Contains(t, 100)
      && Delete(t, 50) == Node(Node(Node(Leaf, 20, Leaf), 30, Node(Leaf, 40, Leaf)), 60,
                              Node(Leaf, 70, Node(Leaf, 80, Leaf)))
  {
  }

  /** Every key of vs is strictly greater than the ones before it. */
  predicate StrictlyIncreasing(vs: seq<int>)
  {
    forall i, j :: 0 <= i < j < |vs| ==> vs[i] < vs[j]
  }

  /** A chain of right children: no node has a left child. */
  predicate RightChain(t: Tree)
  {
    t.Leaf? || (t.left.Leaf? && RightChain(t.right))
  }

  /** A key greater than every key of a right chain goes to its bottom: the
      chain grows by one node and its height by one. */
  lemma {:induction false} InsertAboveChain(t: Tree, v: int)
    requires RightChain(t) && forall k :: k in Keys(t) ==> k < v
    ensures RightChain(Insert(t, v)) && Height(Insert(t, v)) == Height(t) + 1
  {
    if t.Node? {
      assert t.value in Keys(t);
      assert forall k :: k in Keys(t.right) ==> k in Keys(t);
      InsertAboveChain(t.right, v);
      assert Insert(t, v) == Node(Leaf, t.value, Insert(t.right, v));
    }
  }

  /** Inserting increasing keys, all above the keys of a right chain, extends
      the chain by one node per key. */
  lemma {:induction false} IncreasingChain(t: Tree, vs: seq<int>)
    requires RightChain(t) && StrictlyIncreasing(vs)
    requires vs != [] ==> forall k :: k in Keys(t) ==> k < vs[0]
    ensures RightChain(InsertAll(t, vs)) && Height(InsertAll(t, vs)) == Height(t) + |vs|
    decreases |vs|
  {
    if vs != [] {
      InsertAboveChain(t, vs[0]);
      InsertKeys(t, vs[0]);
      IncreasingChain(Insert(t, vs[0]), vs[1..]);
    }
  }

  /** The degenerate case of height: keys inserted in strictly increasing
      order form a right chain whose height is the number of keys, the
      largest height n nodes can have. */
  lemma IncreasingHeight(vs: seq<int>)
    requires StrictlyIncreasing(vs)
    ensures RightChain(InsertAll(Leaf, vs)) && Height(InsertAll(Leaf, vs)) == |vs|
  {
    IncreasingChain(Leaf, vs);
  }

  /** Inserting 1, 2, ..., 6 in increasing order gives a chain of height 6. */
  lemma DegenerateScenario()
    ensures var t := InsertAll(Leaf, [1, 2, 3, 4, 5, 6]);
      && t == Node(Leaf, 1, Node(Leaf, 2, Node(Leaf, 3, Node(Leaf, 4, Node(Leaf, 5, Node(Leaf, 6, Leaf))))))
      && Height(t) == 6
  {
  }
}
