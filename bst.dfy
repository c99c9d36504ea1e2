/**
 * The heap-based binary search tree of lab06/src/binary_search_tree.py:
 * TreeNode objects linked through left/right fields, and a tree object that
 * holds the root. Every node carries a ghost Model (the value of the subtree
 * it roots, in module TreeModel) and a ghost Repr (the objects of that
 * subtree), and the operations are proved against the TreeModel functions.
 */
module Bst {
  import opened Wrappers
  import opened TreeModel
  import opened Recursion

  class TreeNode {
    var value: int
    var left: TreeNode?
    var right: TreeNode?

    /** The subtree rooted here, as a value. */
    ghost var Model: Tree
    /** The nodes of that subtree. */
    ghost var Repr: set<object>

    /** The subtree is a tree (the two children own disjoint sets of nodes and
        none of them reaches back to this node) and Model mirrors it. */
    ghost predicate Valid()
      reads this, Repr
      decreases Repr
    {
      && this in Repr
      && (left != null ==>
            left in Repr && left.Repr <= Repr && this !in left.Repr && left.Valid())
      && (right != null ==>
            right in Repr && right.Repr <= Repr && this !in right.Repr && right.Valid())
      && (left != null && right != null ==> left.Repr !! right.Repr)
      && Model == Node(ModelOf(left), value, ModelOf(right))
    }

    /** TreeNode(value): a node without children. */
    constructor(value: int)
      ensures Valid() && Repr == {this}
      ensures this.value == value && left == null && right == null
      ensures Model == Node(Leaf, value, Leaf)
    {
      this.value := value;
      left := null;
      right := null;
      Model := Node(Leaf, value, Leaf);
      Repr := {this};
    }
  }

  /** A valid subtree none of whose nodes has changed is still valid and
      still has the same model. */
  twostate lemma StillValid(n: TreeNode)
    requires old(n.Valid()) && unchanged(old(n.Repr))
    ensures n.Valid() && n.Model == old(n.Model) && n.Repr == old(n.Repr)
  {
  }

  /** The value of the subtree rooted at n (None: the empty tree). */
  ghost function ModelOf(n: TreeNode?): Tree
    reads n
  {
    if n == null then Leaf else n.Model
  }

  /** The nodes of the subtree rooted at n (none: the empty tree). */
  ghost function ReprOf(n: TreeNode?): set<object>
    reads n
  {
    if n == null then {} else n.Repr
  }

  /** The child of n on the side where v belongs. */
  function Toward(n: TreeNode, v: int): TreeNode?
    reads n
  {
    if v < n.value then n.left else n.right
  }

  /** The child of n on the other side. */
  function Away(n: TreeNode, v: int): TreeNode?
    reads n
  {
    if v < n.value then n.right else n.left
  }

  /** The attach step of insert: node has no child on the side where v
      belongs, and a new leaf holding v becomes that child. */
  method Attach(node: TreeNode, v: int) returns (leaf: TreeNode)
    requires node.Valid() && node.value != v && Toward(node, v) == null
    modifies node
    ensures fresh(leaf) && leaf.value == v && leaf.left == null && leaf.right == null
    ensures leaf.Valid() && leaf.Repr == {leaf}
    ensures node.value == old(node.value) && Toward(node, v) == leaf
    ensures Away(node, v) == old(Away(node, v))
    ensures node.Valid()
    ensures node.Model == TreeModel.Insert(old(node.Model), v)
    ensures node.Repr == old(node.Repr) + {leaf}
  {
    leaf := new TreeNode(v);
    if v < node.value {
      node.left := leaf;
    } else {
      node.right := leaf;
    }
    node.Repr := node.Repr + {leaf};
    node.Model := Node(ModelOf(node.left), node.value, ModelOf(node.right));
  }

  /** path is a walk down the tree toward v: every node on it is a valid
      subtree, and each node after the first is the v-ward child of the one
      before, which does not hold v. */
  ghost predicate Descends(path: seq<TreeNode>, v: int)
    requires |path| >= 1
    reads path[0], path[0].Repr
    decreases |path|
  {
    && path[0].Valid()
    && (|path| > 1 ==>
          path[0].value != v && path[1] == Toward(path[0], v) && Descends(path[1..], v))
  }

  /** The walk goes one step further, to the v-ward child of its last node. */
  lemma {:induction false} DescendsExtend(path: seq<TreeNode>, next: TreeNode, v: int)
    requires |path| >= 1 && Descends(path, v)
    requires path[|path| - 1].value != v && next == Toward(path[|path| - 1], v)
    ensures Descends(path + [next], v)
    decreases |path|
  {
    var q := path + [next];
    if |path| == 1 {
      assert q[1..] == [next];
      assert path[0].Valid();
    } else {
      assert q[1..] == path[1..] + [next];
      DescendsExtend(path[1..], next, v);
    }
  }

  /** The tail of insert: path is the walk from the root down to the node
      whose v-ward child is missing; a new leaf holding v becomes that child,
      and the ghost Model and Repr of every node on the path are brought up to
      date. */
  method LinkLeaf(path: seq<TreeNode>, v: int) returns (leaf: TreeNode)
    requires |path| >= 1 && Descends(path, v)
    requires path[|path| - 1].value != v && Toward(path[|path| - 1], v) == null
    modifies path[0].Repr
    decreases |path|
    ensures fresh(leaf) && leaf.value == v && leaf.left == null && leaf.right == null
    ensures path[0].Valid()
    ensures path[0].Model == TreeModel.Insert(old(path[0].Model), v)
    ensures path[0].Repr == old(path[0].Repr) + {leaf}
  {
    if |path| == 1 {
      leaf := Attach(path[0], v);
      return;
    }
    var p := path[0];
    var rest := path[1..];
    ghost var away := Away(p, v);
    assert rest[|rest| - 1] == path[|path| - 1];
    assert p !in rest[0].Repr;
    assert away != null ==> away.Valid() && away.Repr !! rest[0].Repr;
    leaf := LinkLeaf(rest, v);
    assert p.left == old(p.left) && p.right == old(p.right) && p.value == old(p.value);
    if away != null {
      StillValid(away);
    }
    p.Repr := p.Repr + {leaf};
    p.Model := Node(ModelOf(p.left), p.value, ModelOf(p.right));
  }

  class BinarySearchTree {
    var root: TreeNode?
    /** The tree object and every node reachable from the root. */
    ghost var Repr: set<object>

    ghost predicate Valid()
      reads this, Repr
    {
      && this in Repr
      && (root != null ==>
            root in Repr && root.Repr <= Repr && this !in root.Repr && root.Valid())
    }

    /** The whole tree as a value. */
    ghost function Model(): Tree
      reads this, root
    {
      ModelOf(root)
    }

    /** An empty tree: no root. */
    constructor()
      ensures Valid() && fresh(Repr)
      ensures root == null && Model() == Leaf
    {
      root := null;
      Repr := {this};
    }

    /** insert: an empty tree gets a one-node root; otherwise the loop walks
        down from the root and hangs a new leaf where the walk leaves the
        tree, or stops without writing at a node holding the value. */
    method Insert(value: int)
      requires Valid()
      modifies Repr
      ensures Valid() && fresh(Repr - old(Repr))
      ensures Model() == TreeModel.Insert(old(Model()), value)
      ensures Keys(Model()) == Keys(old(Model())) + {value}
      ensures Ordered(old(Model())) ==> Ordered(Model())
      ensures old(root) == null ==>
        root != null && root.value == value && root.left == null && root.right == null
      ensures old(Contains(Model(), value)) ==> unchanged(old(Repr)) && Repr == old(Repr)
    {
      InsertKeys(Model(), value);
      if Ordered(Model()) {
        InsertOrdered(Model(), value);
      }
      if root == null {
        root := new TreeNode(value);
        Repr := Repr + root.Repr;
        return;
      }
      var current: TreeNode := root;
      var path: seq<TreeNode> := [root];
      while true
        invariant Repr == old(Repr) && unchanged(old(Repr)) && root == old(root)
        invariant |path| >= 1 && path[0] == root && path[|path| - 1] == current
        invariant Descends(path, value) && current.Valid()
        invariant Contains(Model(), value) <==> Contains(current.Model, value)
        decreases current.Repr
      {
        if value == current.value {
          InsertPresent(Model(), value);
          return;
        }
        var next := if value < current.value then current.left else current.right;
        if next == null {
          break;
        }
        DescendsExtend(path, next, value);
        path := path + [next];
        current := next;
      }
      // The walk left the tree below current: hang the new leaf there.
      var leaf := LinkLeaf(path, value);
      Repr := Repr + {leaf};
    }

    /** search: walk down from the root, stopping at a node holding the value
        or falling off the tree. It finds the node _search_recursive finds. */
    method Search(value: int) returns (found: TreeNode?)
      requires Valid()
      ensures found == SearchRecursive(root, value)
      ensures found != null <==> Contains(Model(), value)
      ensures Ordered(Model()) ==> (found != null <==> value in Keys(Model()))
      ensures found != null ==> found.value == value && found in Repr
    {
      if Ordered(Model()) {
        ContainsIffKey(Model(), value);
      }
      var current := root;
      while current != null
        invariant current == null || (current.Valid() && current.Repr <= ReprOf(root))
        invariant SearchRecursive(current, value) == SearchRecursive(root, value)
        decreases ReprOf(current)
      {
        if current.value == value {
          return current;
        } else if value < current.value {
          current := current.left;
        } else {
          current := current.right;
        }
      }
      return null;
    }

    /** _search_recursive(node, value): the node holding value on the search
        walk from node, or none when the walk falls off the tree. */
    static function SearchRecursive(node: TreeNode?, value: int): (r: TreeNode?)
      requires node == null || node.Valid()
      reads node, if node == null then {} else node.Repr
      decreases ReprOf(node)
      ensures r != null <==> Contains(ModelOf(node), value)
      ensures r != null ==> r.value == value && r in ReprOf(node)
    {
      if node == null || node.value == value then node
      else if value < node.value then SearchRecursive(node.left, value)
      else SearchRecursive(node.right, value)
    }

    /** delete: the root becomes what _delete_recursive returns for it. */
    method Delete(value: int)
      requires Valid()
      modifies Repr
      ensures Valid() && Repr == old(Repr)
      ensures Model() == TreeModel.Delete(old(Model()), value)
      ensures Ordered(old(Model())) ==>
        Ordered(Model()) && Keys(Model()) == Keys(old(Model())) - {value}
      ensures value !in Keys(old(Model())) ==>
        Model() == old(Model()) && root == old(root) && unchanged(old(Repr))
    {
      if Ordered(Model()) {
        DeleteOrdered(Model(), value);
        DeleteKeys(Model(), value);
      }
      if value !in Keys(Model()) {
        DeleteAbsent(Model(), value);
      }
      root := DeleteRecursive(root, value);
    }

    /** _delete_recursive(node, value): walk to the value and remove the node
        holding it (RemoveNode). Returns the new root of the subtree, made of
        nodes of the old one; for an absent value, the same root with no node
        changed. */
    static method DeleteRecursive(node: TreeNode?, value: int) returns (r: TreeNode?)
      requires node == null || node.Valid()
      modifies ReprOf(node)
      decreases ReprOf(node), 1
      ensures r == null || (r.Valid() && r.Repr <= old(ReprOf(node)))
      ensures ModelOf(r) == TreeModel.Delete(old(ModelOf(node)), value)
      ensures value !in Keys(old(ModelOf(node))) ==> r == node && unchanged(old(ReprOf(node)))
    {
      if node == null {
        return node;
      }
      if value == node.value {
        r := RemoveNode(node);
      } else {
        DeleteInChild(node, value);
        r := node;
      }
    }

    /** The two walking branches of _delete_recursive: the child on the
        value's side is replaced by the result of deleting the value from it. */
    static method DeleteInChild(node: TreeNode, value: int)
      requires node.Valid() && node.value != value
      modifies node.Repr
      decreases node.Repr, 0
      ensures node.Valid() && node.Repr == old(node.Repr)
      ensures node.Model == TreeModel.Delete(old(node.Model), value)
      ensures value !in Keys(old(node.Model)) ==> unchanged(old(node.Repr))
    {
      if value < node.value {
        ghost var other := node.right;
        node.left := DeleteRecursive(node.left, value);
        if other != null {
          assert unchanged(other.Repr);
          StillValid(other);
        }
      } else {
        ghost var other := node.left;
        node.right := DeleteRecursive(node.right, value);
        if other != null {
          assert unchanged(other.Repr);
          StillValid(other);
        }
      }
      node.Model := Node(ModelOf(node.left), node.value, ModelOf(node.right));
    }

    /** The branch of _delete_recursive that has found the value: a node with
        at most one child is replaced by that child; a node with two children
        takes the value of the leftmost node of its right subtree, which is
        then deleted from that subtree. */
    static method RemoveNode(node: TreeNode) returns (r: TreeNode?)
      requires node.Valid()
      modifies node.Repr
      decreases node.Repr, 0
      ensures r == null || (r.Valid() && r.Repr <= old(node.Repr))
      ensures ModelOf(r) == TreeModel.Delete(old(node.Model), old(node.value))
    {
      if node.left == null {
        return node.right;
      } else if node.right == null {
        return node.left;
      }
      var minLargerNode := FindMin(node.right);
      ghost var other := node.left;
      assert node !in other.Repr && other.Repr !! node.right.Repr;
      node.value := minLargerNode.value;
      ghost var rightRepr := node.right.Repr;
      node.right := DeleteRecursive(node.right, minLargerNode.value);
      assert unchanged(other.Repr);
      assert other.Valid() && other.Model == old(other.Model);
      assert node.right == null || (node.right.Repr <= rightRepr
        && node !in node.right.Repr && other.Repr !! node.right.Repr);
      node.Model := Node(ModelOf(node.left), node.value, ModelOf(node.right));
      return node;
    }

    /** _find_min(node): the leftmost node of the subtree, which holds its
        least key when the subtree is ordered. */
    static method FindMin(node: TreeNode) returns (m: TreeNode)
      requires node.Valid()
      ensures m in node.Repr && m.left == null
      ensures m.value == MinKey(node.Model) && m.value in Keys(node.Model)
      ensures Ordered(node.Model) ==> forall k :: k in Keys(node.Model) ==> m.value <= k
    {
      MinKeyLeast(node.Model);
      var current: TreeNode := node;
      while current.left != null
        invariant current.Valid() && current in node.Repr && current.Repr <= node.Repr
        invariant MinKey(current.Model) == MinKey(node.Model)
        decreases current.Repr
      {
        current := current.left;
      }
      return current;
    }

    /** _find_max(node): the rightmost node of the subtree, which holds its
        greatest key when the subtree is ordered. */
    static method FindMax(node: TreeNode) returns (m: TreeNode)
      requires node.Valid()
      ensures m in node.Repr && m.right == null
      ensures m.value == MaxKey(node.Model) && m.value in Keys(node.Model)
      ensures Ordered(node.Model) ==> forall k :: k in Keys(node.Model) ==> k <= m.value
    {
      MaxKeyGreatest(node.Model);
      var current: TreeNode := node;
      while current.right != null
        invariant current.Valid() && current in node.Repr && current.Repr <= node.Repr
        invariant MaxKey(current.Model) == MaxKey(node.Model)
        decreases current.Repr
      {
        current := current.right;
      }
      return current;
    }

    /** is_valid_bst: the bound check started without bounds accepts exactly
        the ordered trees. */
    function IsValidBst(): (r: bool)
      requires Valid()
      reads this, Repr
      ensures r <==> Ordered(Model())
    {
      IsValidBstFrom(root, None, None)
    }

    /** _is_valid_bst(node, min, max): every value lies strictly between the
        bounds it inherits (None: unbounded). */
    static function IsValidBstFrom(node: TreeNode?, lo: Option<int>, hi: Option<int>): (r: bool)
      requires node == null || node.Valid()
      reads node, if node == null then {} else node.Repr
      decreases ReprOf(node)
      ensures r == TreeModel.IsValidBst(ModelOf(node), lo, hi)
      ensures r <==> Ordered(ModelOf(node)) && Between(ModelOf(node), lo, hi)
    {
      IsValidBstIffOrdered(ModelOf(node), lo, hi);
      if node == null then true
      else if !AboveBound(node.value, lo) || !BelowBound(node.value, hi) then false
      else
        (IsValidBstFrom(node.left, lo, Some(node.value))
         && IsValidBstFrom(node.right, Some(node.value), hi))
    }

    /** height(node): 0 for no node, else one more than the taller subtree;
        it lies between the node count's logarithm and the node count. */
    static function Height(node: TreeNode?): (r: nat)
      requires node == null || node.Valid()
      reads node, if node == null then {} else node.Repr
      decreases ReprOf(node)
      ensures r == TreeModel.Height(ModelOf(node))
      ensures r <= NodeCount(ModelOf(node)) < Pow(2, r)
    {
      HeightBounds(ModelOf(node));
      if node == null then 0
      else
        var leftHeight := Height(node.left);
        var rightHeight := Height(node.right);
        (if leftHeight >= rightHeight then leftHeight else rightHeight) + 1
    }
  }

  /** The build loop of the analysis driver: a new tree, then insert for each
      value in turn. */
  method BuildTree(values: seq<int>) returns (t: BinarySearchTree)
    ensures fresh(t) && t.Valid() && fresh(t.Repr)
    ensures t.Model() == InsertAll(Leaf, values)
  {
    t := new BinarySearchTree();
    for i := 0 to |values|
      invariant t.Valid() && fresh(t.Repr)
      invariant InsertAll(t.Model(), values[i..]) == InsertAll(Leaf, values)
    {
      assert values[i..][0] == values[i] && values[i..][1..] == values[i + 1..];
      t.Insert(values[i]);
    }
    assert values[|values|..] == [];
  }

  /** The insert and validity test cases: after inserting 10, 5 and 15, search
      finds each of them and is_valid_bst holds. */
  method InsertSearchScenario() returns (a: TreeNode?, b: TreeNode?, c: TreeNode?, valid: bool)
    ensures a != null && a.value == 10
    ensures b != null && b.value == 5
    ensures c != null && c.value == 15
    ensures valid
  {
    var t := new BinarySearchTree();
    t.Insert(10);
    assert t.Model() == Node(Leaf, 10, Leaf);
    t.Insert(5);
    assert t.Model() == Node(Node(Leaf, 5, Leaf), 10, Leaf);
    t.Insert(15);
    assert t.Model() == Node(Node(Leaf, 5, Leaf), 10, Node(Leaf, 15, Leaf));
    a := t.Search(10);
    b := t.Search(5);
    c := t.Search(15);
    valid := t.IsValidBst();
  }

  /** The delete test case: after inserting 10 and 5 and deleting 5, search
      for 5 finds nothing. */
  method DeleteScenario() returns (found: TreeNode?)
    ensures found == null
  {
    var t := new BinarySearchTree();
    t.Insert(10);
    t.Insert(5);
    t.Delete(5);
    assert t.Model() == Node(Leaf, 10, Leaf);
    found := t.Search(5);
  }

  /** The analysis driver's trees: the balanced insertion order gives height 3
      and a valid tree, the increasing order a chain of height 6. */
  method HeightScenario() returns (balanced: nat, degenerate: nat, valid: bool)
    ensures balanced == 3 && degenerate == 6 && valid
  {
    BalancedScenario();
    DegenerateScenario();
    var t1 := BuildTree([50, 30, 70, 20, 40, 60, 80]);
    balanced := BinarySearchTree.Height(t1.root);
    valid := t1.IsValidBst();
    var t2 := BuildTree([1, 2, 3, 4, 5, 6]);
    degenerate := BinarySearchTree.Height(t2.root);
  }
}
