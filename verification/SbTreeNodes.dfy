/** The linked nodes of engine/tool/sbtree.c.  Every operation rewrites links and size fields in
    place and is proved to compute the function of the same meaning in `SbTree`. */
module SbTreeNodes {
  import opened SbTree
  import opened SbTreeDamage
  import opened SbTreeQueries
  import opened Options

  class TreeNode {
    var key: nat
    var value: int
    var left: TreeNode?
    var right: TreeNode?
    var size: nat

    ghost var repr: set<object>
    ghost var tree: Tree
    ghost var raw: Raw

    /** The links form a tree; nothing is said about the size fields. */
    ghost predicate Linked()
      reads this, repr
      ensures Linked() ==> this in repr && tree.Node? && raw.Cell?
      decreases repr
    {
      && this in repr
      && (left != null ==> left in repr && left.repr <= repr && this !in left.repr && left.Linked())
      && (right != null ==> right in repr && right.repr <= repr && this !in right.repr && right.Linked())
      && ReprOf(left) !! ReprOf(right)
      && tree == Node(TreeOf(left), key, value, TreeOf(right))
      && raw == Cell(RawOf(left), key, value, size, RawOf(right))
    }

    /** Every size field is exact. */
    ghost predicate Valid()
      reads this, repr
      ensures Valid() ==> this in repr && tree.Node?
    {
      Linked() && raw == Exact(tree)
    }

    constructor (key: nat, value: int)
      ensures Valid() && fresh(repr) && repr == {this}
      ensures tree == Node(Leaf, key, value, Leaf) && left == null && right == null
    {
      this.key := key;
      this.value := value;
      left := null;
      right := null;
      size := 1;
      repr := {this};
      tree := Node(Leaf, key, value, Leaf);
      raw := Cell(Nil, key, value, 1, Nil);
    }
  }

  ghost function ReprOf(n: TreeNode?): set<object>
    reads n
  {
    if n == null then {} else n.repr
  }

  /** The tree below a link. */
  ghost function TreeOf(n: TreeNode?): Tree
    reads n
  {
    if n == null then Leaf else n.tree
  }

  /** The same with the size fields. */
  ghost function RawOf(n: TreeNode?): Raw
    reads n
  {
    if n == null then Nil else n.raw
  }

  ghost predicate LinkedLink(n: TreeNode?)
    reads n, ReprOf(n)
  {
    n != null ==> n.Linked()
  }

  ghost predicate ValidLink(n: TreeNode?)
    reads n, ReprOf(n)
  {
    LinkedLink(n) && RawOf(n) == Exact(TreeOf(n))
  }

  /** Below a node with exact fields all fields are exact. */
  lemma ValidBelow(n: TreeNode)
    requires n.Valid()
    ensures ValidLink(n.left) && ValidLink(n.right) && n.size == Size(n.tree)
    ensures Size(n.tree) == Size(TreeOf(n.left)) + Size(TreeOf(n.right)) + 1
  {
    ExactNode(n.tree);
  }

  /** The size fields tell which tree it is. */
  lemma {:induction false} ExactTree(n: TreeNode?, t: Tree)
    requires LinkedLink(n) && RawOf(n) == Exact(t)
    ensures ValidLink(n) && TreeOf(n) == t
    decreases t
  {
    if t.Node? {
      ExactTree(n.left, t.left);
      ExactTree(n.right, t.right);
    }
  }

  /** Rebalancing nodes with exact fields gives the rebalanced tree, with exact fields. */
  lemma KeptExact(n: TreeNode?, t: Tree, rightDeeper: bool)
    requires LinkedLink(n) && Shortage(Exact(t)) <= 1 && RawOf(n) == RawMaintain(Exact(t), rightDeeper)
    ensures ValidLink(n) && TreeOf(n) == Maintain(t, rightDeeper)
  {
    RawMaintainExact(t, rightDeeper);
    ExactTree(n, Maintain(t, rightDeeper));
  }

  /** `_S` */
  function SizeOf(n: TreeNode?): (s: nat)
    requires LinkedLink(n)
    reads n, ReprOf(n)
    ensures s == Field(RawOf(n)) && (ValidLink(n) ==> s == Size(TreeOf(n)))
  {
    if n == null then 0 else n.size
  }

  /** Writes the two links and the size field of one node. */
  method Relink(n: TreeNode, left: TreeNode?, right: TreeNode?, size: nat, ghost repr: set<object>)
    requires LinkedLink(left) && LinkedLink(right) && ReprOf(left) !! ReprOf(right)
    requires n !in ReprOf(left) && n !in ReprOf(right)
    requires n in repr && ReprOf(left) <= repr && ReprOf(right) <= repr
    modifies n
    ensures n.Linked() && n.repr == repr
    ensures n.left == left && n.right == right && n.size == size && n.key == old(n.key) && n.value == old(n.value)
    ensures n.raw == Cell(old(RawOf(left)), n.key, n.value, size, old(RawOf(right)))
    ensures n.tree == Node(old(TreeOf(left)), n.key, n.value, old(TreeOf(right)))
  {
    n.left := left;
    n.right := right;
    n.size := size;
    n.repr := repr;
    n.tree := Node(TreeOf(left), n.key, n.value, TreeOf(right));
    n.raw := Cell(RawOf(left), n.key, n.value, size, RawOf(right));
  }

  /** The same where all size fields are exact and stay so. */
  method RelinkExact(n: TreeNode, left: TreeNode?, right: TreeNode?, size: nat, ghost repr: set<object>)
    requires ValidLink(left) && ValidLink(right) && ReprOf(left) !! ReprOf(right)
    requires n !in ReprOf(left) && n !in ReprOf(right)
    requires n in repr && ReprOf(left) <= repr && ReprOf(right) <= repr
    requires size == Size(TreeOf(left)) + Size(TreeOf(right)) + 1
    modifies n
    ensures n.Valid() && n.repr == repr
    ensures n.left == left && n.right == right && n.key == old(n.key) && n.value == old(n.value)
    ensures n.tree == Node(old(TreeOf(left)), n.key, n.value, old(TreeOf(right)))
  {
    Relink(n, left, right, size, repr);
    ExactNode(n.tree);
  }

  method LeftRotate(node: TreeNode) returns (root: TreeNode)
    requires node.Linked() && node.right != null
    modifies node, node.right
    ensures root == old(node.right) && root.left == node && root.right == old(node.right.right)
    ensures node.left == old(node.left) && node.right == old(node.right.left)
    ensures root.Linked() && root.repr == old(node.repr)
    ensures root.raw == RawRotateLeft(old(node.raw))
  {
    root := node.right;
    assert root.Linked();
    var size := node.size;
    ghost var repr := node.repr;
    Relink(node, node.left, root.left, SizeOf(node.left) + SizeOf(root.left) + 1,
           repr - {root} - ReprOf(root.right));
    Relink(root, node, root.right, size, repr);
  }

  method RightRotate(node: TreeNode) returns (root: TreeNode)
    requires node.Linked() && node.left != null
    modifies node, node.left
    ensures root == old(node.left) && root.right == node && root.left == old(node.left.left)
    ensures node.right == old(node.right) && node.left == old(node.left.right)
    ensures root.Linked() && root.repr == old(node.repr)
    ensures root.raw == RawRotateRight(old(node.raw))
  {
    root := node.left;
    assert root.Linked();
    var size := node.size;
    ghost var repr := node.repr;
    Relink(node, root.right, node.right, SizeOf(root.right) + SizeOf(node.right) + 1,
           repr - {root} - ReprOf(root.left));
    Relink(root, root.left, node, size, repr);
  }

  /** The rotations of `sb_tree_main_tain` for a tree that is too deep on the left. */
  method RotateTooDeepLeft(node: TreeNode) returns (root: TreeNode)
    requires node.Linked() && RawTooDeepLeft(node.raw)
    modifies node.repr
    ensures root.Linked() && root.repr == old(node.repr)
    ensures root.raw == RawLiftLeft(old(node.raw)) && root.right == node
  {
    assert node.left.Linked();
    if SizeOf(node.left.left) > SizeOf(node.right) {
      root := RightRotate(node);
    } else {
      var l := LeftRotate(node.left);
      Relink(node, l, node.right, node.size, node.repr);
      root := RightRotate(node);
    }
  }

  method RotateTooDeepRight(node: TreeNode) returns (root: TreeNode)
    requires node.Linked() && RawTooDeepRight(node.raw)
    modifies node.repr
    ensures root.Linked() && root.repr == old(node.repr)
    ensures root.raw == RawLiftRight(old(node.raw)) && root.left == node
  {
    assert node.right.Linked();
    if SizeOf(node.right.right) > SizeOf(node.left) {
      root := LeftRotate(node);
    } else {
      var r := RightRotate(node.right);
      Relink(node, node.left, r, node.size, node.repr);
      root := LeftRotate(node);
    }
  }

  /** The guards of `sb_tree_main_tain`. */
  function IsTooDeep(node: TreeNode, rightDeeper: bool): (b: bool)
    requires node.Linked()
    reads node.repr
    ensures b == if rightDeeper then RawTooDeepRight(node.raw) else RawTooDeepLeft(node.raw)
  {
    assert LinkedLink(node.left) && LinkedLink(node.right);
    if rightDeeper then
      node.right != null &&
      (SizeOf(node.right.right) > SizeOf(node.left) || SizeOf(node.right.left) > SizeOf(node.left))
    else
      node.left != null &&
      (SizeOf(node.left.left) > SizeOf(node.right) || SizeOf(node.left.right) > SizeOf(node.right))
  }

  /** The recursive call on the subtree the old root, now `top.right`, is left with. */
  method SettleLeft(top: TreeNode)
    requires top.Linked() && top.right != null && Shortage(top.raw) <= 1 && Shortage(top.raw.right.left) <= 1
    modifies top.repr
    ensures top.Linked() && top.repr == old(top.repr)
    ensures top.raw == old(top.raw.(right := top.raw.right.(left := RawMaintain(top.raw.right.left, false))))
    decreases Measure(top.raw), 0
  {
    var node := top.right;
    assert node.Linked() && LinkedLink(top.left);
    MeasureBelow(top.raw);
    MaintainLeft(node);
    Relink(top, top.left, node, top.size, top.repr);
  }

  method MaintainLeft(node: TreeNode)
    requires node.Linked() && Shortage(node.raw.left) <= 1
    modifies node.repr
    ensures node.Linked() && node.repr == old(node.repr)
    ensures node.raw == old(node.raw.(left := RawMaintain(node.raw.left, false)))
    decreases Measure(node.raw), 0
  {
    MeasureBelow(node.raw);
    assert LinkedLink(node.left) && LinkedLink(node.right);
    var below := MainTain(node.left, false);
    Relink(node, below, node.right, node.size, node.repr);
  }

  method SettleRight(top: TreeNode)
    requires top.Linked() && top.left != null && Shortage(top.raw) <= 1 && Shortage(top.raw.left.right) <= 1
    modifies top.repr
    ensures top.Linked() && top.repr == old(top.repr)
    ensures top.raw == old(top.raw.(left := top.raw.left.(right := RawMaintain(top.raw.left.right, true))))
    decreases Measure(top.raw), 0
  {
    var node := top.left;
    assert node.Linked() && LinkedLink(top.right);
    MeasureBelow(top.raw);
    MaintainRight(node);
    Relink(top, node, top.right, top.size, top.repr);
  }

  method MaintainRight(node: TreeNode)
    requires node.Linked() && Shortage(node.raw.right) <= 1
    modifies node.repr
    ensures node.Linked() && node.repr == old(node.repr)
    ensures node.raw == old(node.raw.(right := RawMaintain(node.raw.right, true)))
    decreases Measure(node.raw), 0
  {
    MeasureBelow(node.raw);
    assert LinkedLink(node.left) && LinkedLink(node.right);
    var below := MainTain(node.right, true);
    Relink(node, node.left, below, node.size, node.repr);
  }

  /** `sb_tree_main_tain`, also where one size field is one too small. */
  method MainTain(node: TreeNode?, rightDeeper: bool) returns (root: TreeNode?)
    requires LinkedLink(node) && Shortage(RawOf(node)) <= 1
    modifies ReprOf(node)
    ensures LinkedLink(root) && (root == null <==> node == null)
    ensures ReprOf(root) == old(ReprOf(node))
    ensures RawOf(root) == RawMaintain(old(RawOf(node)), rightDeeper)
    decreases Measure(RawOf(node)), 1
  {
    if node == null || !IsTooDeep(node, rightDeeper) { return node; }
    RawMaintainRound(node.raw, rightDeeper);
    root := Lift(node, rightDeeper);
    root := MainTain(root, false);
    root := MainTain(root, true);
  }

  /** One round: the rotations and the first recursive call. */
  method Lift(node: TreeNode, rightDeeper: bool) returns (root: TreeNode)
    requires node.Linked() && Shortage(node.raw) <= 1
    requires if rightDeeper then RawTooDeepRight(node.raw) else RawTooDeepLeft(node.raw)
    modifies node.repr
    ensures root.Linked() && root.repr == old(node.repr)
    ensures root.raw == RawAfterLift(old(node.raw), rightDeeper)
    decreases Measure(node.raw), 0
  {
    if !rightDeeper {
      RawLiftLeftReduces(node.raw);
      root := RotateTooDeepLeft(node);
      ShortageBelow(root.raw);
      ShortageBelow(root.raw.right);
      SettleLeft(root);
    } else {
      RawLiftRightReduces(node.raw);
      root := RotateTooDeepRight(node);
      ShortageBelow(root.raw);
      ShortageBelow(root.raw.left);
      SettleRight(root);
    }
  }

  /** The descent of `sb_tree_insert_node`: one more in the size, and one subtree replaced. */
  method InsertBelowNode(compNode: TreeNode, node: TreeNode)
    requires compNode.Valid() && node.Valid() && node.repr !! compNode.repr
    requires node.left == null && node.right == null && node.repr == {node}
    modifies compNode.repr, node
    ensures compNode.Valid() && compNode.repr == old(compNode.repr) + {node}
    ensures var t, k, v := old(compNode.tree), old(node.key), old(node.value);
            compNode.tree == if k < t.key then t.(left := Insert(t.left, k, v))
                             else t.(right := Insert(t.right, k, v))
    decreases compNode.repr, 0
  {
    ValidBelow(compNode);
    if node.key < compNode.key {
      InsertSize(compNode.tree.left, node.key, node.value);
      var child := InsertNode(compNode.left, node);
      RelinkExact(compNode, child, compNode.right, compNode.size + 1, compNode.repr + {node});
    } else {
      InsertSize(compNode.tree.right, node.key, node.value);
      var child := InsertNode(compNode.right, node);
      RelinkExact(compNode, compNode.left, child, compNode.size + 1, compNode.repr + {node});
    }
  }

  /** `sb_tree_insert_node`, with the fresh node that `sb_tree_insert` allocates. */
  method InsertNode(compNode: TreeNode?, node: TreeNode) returns (root: TreeNode)
    requires ValidLink(compNode) && node.Valid() && node.repr !! ReprOf(compNode)
    requires node.left == null && node.right == null && node.repr == {node}
    modifies ReprOf(compNode), node
    ensures root.Valid() && root.repr == old(ReprOf(compNode)) + {node}
    ensures root.tree == Insert(old(TreeOf(compNode)), old(node.key), old(node.value))
    decreases ReprOf(compNode), 1
  {
    if compNode == null { return node; }
    var isLeft := node.key < compNode.key;
    InsertBelowNode(compNode, node);
    root := MainTainExact(compNode, !isLeft);
  }

  /** `sb_tree_main_tain` where all size fields are exact. */
  method MainTainExact(node: TreeNode, rightDeeper: bool) returns (root: TreeNode)
    requires node.Valid()
    modifies node.repr
    ensures root.Valid() && root.repr == old(node.repr) && root.tree == Maintain(old(node.tree), rightDeeper)
  {
    ghost var t := node.tree;
    ExactShortage(t);
    var top := MainTain(node, rightDeeper);
    KeptExact(top, t, rightDeeper);
    root := top;
  }

  /** `sb_tree_delete_node` with `isfind` set: unlinks the node with the largest entry. */
  method DeleteMaxNode(node: TreeNode) returns (root: TreeNode?, record: TreeNode)
    requires node.Valid()
    modifies node.repr
    ensures ValidLink(root) && record in old(node.repr)
    ensures record !in ReprOf(root) && ReprOf(root) <= old(node.repr)
    ensures (TreeOf(root), record.key, record.value) == DeleteMax(old(node.tree))
    decreases node.repr
  {
    ValidBelow(node);
    if node.right == null { return node.left, node; }
    var child;
    child, record := DeleteMaxNode(node.right);
    DeleteMaxSize(old(node.tree.right));
    RelinkExact(node, node.left, child, node.size - 1, node.repr - {record});
    root := MainTainExact(node, false);
  }

  lemma {:induction false} DeleteMaxSize(t: Tree)
    requires t.Node?
    ensures Size(DeleteMax(t).0) == Size(t) - 1
  {
    if t.right.Node? { DeleteMaxSize(t.right); }
  }

  lemma {:induction false} DeleteSize(t: Tree, key: nat)
    requires !Delete(t, key).Fault?
    ensures Size(Delete(t, key).tree) == Size(t) - (if Delete(t, key).Removed? then 1 else 0)
  {
    if t.Node? {
      SizePositive(t.left); SizePositive(t.right);
      if key == t.key {
        if Size(t) > 2 { DeleteMaxSize(t.left); }
      } else if key < t.key {
        DeleteSize(t.left, key);
      } else {
        DeleteSize(t.right, key);
      }
    }
  }

  /** The matched node, which stands for two or more entries: it takes over the entry of the node it
      unlinks.  With three or more entries and no left child there is nothing to take over; the
      source still reduces the size field, which is the damage `fault` reports. */
  method DeleteMatched(node: TreeNode) returns (record: TreeNode?, fault: bool)
    requires node.Valid() && node.size >= 2
    modifies node.repr
    ensures node.Linked() && node.repr <= old(node.repr)
    ensures fault <==> old(MatchHollow(node.tree, node.key))
    ensures fault ==> record == null && node.raw == Cell(Nil, old(node.key), old(node.value), old(node.size) - 1,
            old(node.raw.right))
    ensures fault ==> old(node.raw.left) == Nil && node.repr == old(node.repr)
    ensures !fault ==>
              && node.Valid() && record != null && record in old(node.repr) && record !in node.repr
              && node.tree == old(Replaced(node.tree)) && (record.key, record.value) == old(GivenUp(node.tree))
  {
    ValidBelow(node);
    SizePositive(node.tree.left); SizePositive(node.tree.right);
    if node.size == 2 {
      record := TakeOnlyChild(node);
    } else if node.left == null {
      Relink(node, null, node.right, node.size - 1, node.repr);
      return null, true;
    } else {
      record := TakeLargest(node);
    }
    fault := false;
  }

  method TakeOnlyChild(node: TreeNode) returns (record: TreeNode)
    requires node.Valid() && node.size == 2
    modifies node.repr
    ensures node.Valid() && node.repr <= old(node.repr) && record in old(node.repr) && record !in node.repr
    ensures !old(MatchHollow(node.tree, node.key)) && node.tree == old(Replaced(node.tree))
    ensures (record.key, record.value) == old(GivenUp(node.tree))
  {
    ValidBelow(node);
    SizePositive(node.tree.left); SizePositive(node.tree.right);
    record := if node.left != null then node.left else node.right;
    assert record.Valid();
    TakeOver(node, record, null, null, 1, node.repr - {record});
  }

  method TakeLargest(node: TreeNode) returns (record: TreeNode)
    requires node.Valid() && node.size >= 3 && node.left != null
    modifies node.repr
    ensures node.Valid() && node.repr <= old(node.repr) && record in old(node.repr) && record !in node.repr
    ensures !old(MatchHollow(node.tree, node.key)) && node.tree == old(Replaced(node.tree))
    ensures (record.key, record.value) == old(GivenUp(node.tree))
  {
    ValidBelow(node);
    DeleteMaxSize(node.tree.left);
    var child;
    child, record := DeleteMaxNode(node.left);
    TakeOver(node, record, child, node.right, node.size - 1, node.repr - {record});
  }

  /** The matched node gets the entry of the node that leaves the tree. */
  method TakeOver(node: TreeNode, record: TreeNode, left: TreeNode?, right: TreeNode?, size: nat,
                  ghost repr: set<object>)
    requires ValidLink(left) && ValidLink(right) && ReprOf(left) !! ReprOf(right)
    requires node in repr && ReprOf(left) <= repr - {node} && ReprOf(right) <= repr - {node} && record != node
    requires size == Size(TreeOf(left)) + Size(TreeOf(right)) + 1
    modifies node
    ensures node.Valid() && node.repr == repr && record.key == old(record.key) && record.value == old(record.value)
    ensures node.tree == Node(old(TreeOf(left)), record.key, record.value, old(TreeOf(right)))
  {
    node.key := record.key;
    node.value := record.value;
    RelinkExact(node, left, right, size, repr);
  }

  /** The tree of the matched node once it has taken over an entry. */
  ghost function Replaced(t: Tree): Tree
    requires t.Node? && Size(t) >= 2 && !MatchHollow(t, t.key)
  {
    SizePositive(t.left); SizePositive(t.right);
    if Size(t) == 2 then
      var child := if t.left.Node? then t.left else t.right;
      Node(Leaf, child.key, child.value, Leaf)
    else
      var (left, k, v) := DeleteMax(t.left);
      Node(left, k, v, t.right)
  }

  /** The entry the matched node takes over. */
  ghost function GivenUp(t: Tree): (nat, int)
    requires t.Node? && Size(t) >= 2 && !MatchHollow(t, t.key)
  {
    (Replaced(t).key, Replaced(t).value)
  }

  /** The subtree a key below the root belongs to. */
  ghost function Side(t: Tree, key: nat): Tree
    requires t.Node?
  {
    if key < t.key then t.left else t.right
  }

  /** The descent of `sb_tree_delete_node`: one less in the size if something was found. */
  method DeleteBelowNode(node: TreeNode, key: nat) returns (record: TreeNode?, fault: bool)
    requires node.Valid() && key != node.key
    modifies node.repr
    ensures node.Linked() && node.repr <= old(node.repr) && node.key == old(node.key)
    ensures fault <==> old(Delete(node.tree, key)).Fault?
    ensures fault ==> record == null && node.repr == old(node.repr) && node.raw == FaultedDescent(old(node.tree), key)
    ensures !fault ==>
              && node.Valid() && (record != null ==> record in old(node.repr) && record !in node.repr)
              && DescentDone(old(node.tree), key, node.tree, record != null)
    ensures record != null ==> (record.key, record.value) == FreedEntry(old(Side(node.tree, key)), key)
    decreases node.repr, 1
  {
    ghost var t := node.tree;
    ValidBelow(node);
    ExactNode(t);
    var child;
    child, record, fault := DeleteChild(node, key);
    ghost var raw, tree := RawOf(child), TreeOf(child);
    if key < node.key {
      Rejoin(node, child, node.right, record);
    } else {
      Rejoin(node, node.left, child, record);
    }
    DescentOutcome(t, key, fault, record != null, raw, tree, node.raw, node.tree);
  }

  /** The recursive call, before its result is linked. */
  method DeleteChild(node: TreeNode, key: nat) returns (child: TreeNode?, record: TreeNode?, fault: bool)
    requires node.Valid() && key != node.key
    modifies node.repr - {node}
    ensures LinkedLink(child) && ReprOf(child) <= node.repr - {node, record} && record != node
    ensures var other := if key < node.key then node.right else node.left;
            && LinkedLink(other) && ReprOf(other) <= node.repr - {node, record} && ReprOf(child) !! ReprOf(other)
            && RawOf(other) == old(RawOf(other)) && TreeOf(other) == old(TreeOf(other))
    ensures fault <==> old(Delete(Side(node.tree, key), key)).Fault?
    ensures fault ==> record == null && RawOf(child) == Faulted(old(Side(node.tree, key)), key)
    ensures !fault ==>
              && RawOf(child) == Exact(TreeOf(child))
              && old(Delete(Side(node.tree, key), key)) ==
                 if record != null then Removed(TreeOf(child)) else Absent(TreeOf(child))
    ensures record != null ==>
              record in node.repr && (record.key, record.value) == FreedEntry(old(Side(node.tree, key)), key)
    decreases node.repr, 0
  {
    ValidBelow(node);
    if key < node.key {
      child, record, fault := DeleteNode(node.left, key);
    } else {
      child, record, fault := DeleteNode(node.right, key);
    }
  }

  /** Links what a deletion below has left, one less in the size if it unlinked a node. */
  method Rejoin(node: TreeNode, left: TreeNode?, right: TreeNode?, record: TreeNode?)
    requires node in node.repr && node.size > 0 && LinkedLink(left) && LinkedLink(right)
             && ReprOf(left) !! ReprOf(right)
    requires ReprOf(left) <= node.repr - {node, record} && ReprOf(right) <= node.repr - {node, record} && node != record
    modifies node
    ensures node.Linked() && node.repr == old(node.repr) - (if record != null then {record} else {})
    ensures node.key == old(node.key)
    ensures var size := old(node.size) - (if record != null then 1 else 0);
            && node.raw == Cell(old(RawOf(left)), node.key, old(node.value), size, old(RawOf(right)))
            && node.tree == Node(old(TreeOf(left)), node.key, old(node.value), old(TreeOf(right)))
  {
    ghost var repr := if record != null then node.repr - {record} else node.repr;
    Relink(node, left, right, if record != null then node.size - 1 else node.size, repr);
  }

  lemma DescentOutcome(t: Tree, key: nat, fault: bool, found: bool, childRaw: Raw, child: Tree, raw: Raw, tree: Tree)
    requires t.Node? && key != t.key
    requires var d, sub := Delete(Side(t, key), key), Side(t, key);
             && fault == d.Fault? && (fault ==> !found && childRaw == Faulted(sub, key))
             && (!fault ==> childRaw == Exact(child) && d == if found then Removed(child) else Absent(child))
    requires var size := Size(t) - (if found then 1 else 0);
             size >= 0 && raw == if key < t.key then Cell(childRaw, t.key, t.value, size, Exact(t.right))
                                 else Cell(Exact(t.left), t.key, t.value, size, childRaw)
    requires tree == if key < t.key then t.(left := child) else t.(right := child)
    ensures fault <==> Delete(t, key).Fault?
    ensures fault ==> raw == FaultedDescent(t, key)
    ensures !fault ==> raw == Exact(tree) && DescentDone(t, key, tree, found)
  {
    AfterDescent(t, key, fault, found);
    ExactNode(tree);
  }

  /** The tree before the rebalancing above a fault. */
  ghost function FaultedDescent(t: Tree, key: nat): Raw
    requires Delete(t, key).Fault? && key != t.key
  {
    if key < t.key then Cell(Faulted(t.left, key), t.key, t.value, Size(t), Exact(t.right))
    else Cell(Exact(t.left), t.key, t.value, Size(t), Faulted(t.right, key))
  }

  ghost predicate DescentDone(t: Tree, key: nat, u: Tree, found: bool)
  {
    t.Node? && key != t.key &&
    var d := Delete(if key < t.key then t.left else t.right, key);
    !d.Fault? && found == d.Removed? &&
    u == if key < t.key then t.(left := d.tree) else t.(right := d.tree)
  }

  /** The size field written above a deletion is exact again, unless it has faulted. */
  lemma AfterDescent(t: Tree, key: nat, fault: bool, found: bool)
    requires t.Node? && key != t.key
    requires var d := Delete(if key < t.key then t.left else t.right, key);
             fault == d.Fault? && (!fault ==> found == d.Removed?)
    ensures !fault ==>
              var d := Delete(if key < t.key then t.left else t.right, key);
              var u := if key < t.key then t.(left := d.tree) else t.(right := d.tree);
              Size(u) == Size(t) - (if found then 1 else 0)
  {
    if !fault { DeleteSize(if key < t.key then t.left else t.right, key); }
  }

  /** The entry freed below is the one freed. */
  lemma FreedBelow(t: Tree, key: nat)
    requires t.Node? && key != t.key && Delete(if key < t.key then t.left else t.right, key).Removed?
    ensures Delete(t, key).Removed? && FreedEntry(t, key) == FreedEntry(if key < t.key then t.left else t.right, key)
  {
  }

  /** `sb_tree_delete_node` with `isfind` clear.  After a fault no node is unlinked, and the size field of the
      matched node is one too small. */
  method DeleteNode(pnode: TreeNode?, key: nat) returns (root: TreeNode?, record: TreeNode?, fault: bool)
    requires ValidLink(pnode)
    modifies ReprOf(pnode)
    ensures LinkedLink(root) && ReprOf(root) <= old(ReprOf(pnode))
    ensures fault <==> old(Delete(TreeOf(pnode), key)).Fault?
    ensures fault ==>
              record == null && ReprOf(root) == old(ReprOf(pnode)) && RawOf(root) == Faulted(old(TreeOf(pnode)), key)
    ensures !fault ==>
              && ValidLink(root)
              && (record != null ==> record in old(ReprOf(pnode)) && record !in ReprOf(root))
              && Delete(old(TreeOf(pnode)), key) ==
                 if record != null then Removed(TreeOf(root)) else Absent(TreeOf(root))
    ensures record != null ==> (record.key, record.value) == FreedEntry(old(TreeOf(pnode)), key)
    decreases ReprOf(pnode), 2
  {
    if pnode == null { return null, null, false; }
    ghost var t := pnode.tree;
    ValidBelow(pnode);
    if key == pnode.key {
      SizePositive(t.left); SizePositive(t.right);
      if pnode.size == 1 { return null, pnode, false; }
      record, fault := DeleteMatched(pnode);
      root := RebalanceMatched(pnode, key, t, fault);
    } else {
      record, fault := DeleteBelowNode(pnode, key);
      if record != null { FreedBelow(t, key); }
      root := RebalanceAbove(pnode, key, t, fault, record != null);
    }
  }

  /** The two rebalancings at the matched node. */
  method RebalanceMatched(node: TreeNode, key: nat, ghost t: Tree, ghost fault: bool) returns (root: TreeNode?)
    requires node.Linked() && t.Node? && key == t.key && Size(t) >= 2 && (fault <==> MatchHollow(t, key))
    requires fault ==>
              t.left.Leaf? && node.key == t.key && node.raw == Cell(Nil, t.key, t.value, Size(t) - 1, Exact(t.right))
    requires !fault ==> node.Valid() && node.tree == Replaced(t)
    modifies node.repr
    ensures LinkedLink(root) && ReprOf(root) == old(node.repr)
    ensures fault ==> Delete(t, key).Fault? && RawOf(root) == Faulted(t, key)
    ensures !fault ==> ValidLink(root) && Delete(t, key) == Removed(TreeOf(root))
  {
    ghost var u, raw := node.tree, node.raw;
    var below := key < node.key;
    MatchedShortage(t, raw, u, fault);
    root := MainTain(node, true);
    root := MainTain(root, below);
    if fault { FaultHere(t, key, raw); } else {
      TwiceExact(root, u, below);
      RemovedHere(t, key, u);
    }
  }

  lemma FaultHere(t: Tree, key: nat, raw: Raw)
    requires t.Node? && key == t.key && Size(t) >= 2 && MatchHollow(t, key)
    requires t.left.Leaf? && raw == Cell(Nil, t.key, t.value, Size(t) - 1, Exact(t.right)) && Shortage(raw) <= 1
    ensures Delete(t, key).Fault? && Faulted(t, key) == RawMaintain(RawMaintain(raw, true), false)
  {
    DeleteOutcome(t, key);
  }

  lemma RemovedHere(t: Tree, key: nat, u: Tree)
    requires t.Node? && key == t.key && Size(t) >= 2 && !MatchHollow(t, key) && u == Replaced(t)
    ensures Delete(t, key) == Removed(Maintain(Maintain(u, true), key < u.key))
  {
    DeleteOutcome(t, key);
  }

  lemma MatchedShortage(t: Tree, raw: Raw, u: Tree, fault: bool)
    requires t.Node? && if fault then t.left.Leaf?
             && raw == Cell(Nil, t.key, t.value, Size(t) - 1, Exact(t.right)) else raw == Exact(u)
    ensures Shortage(raw) <= 1
  {
    if fault { ExactShortage(t.right); } else { ExactShortage(u); }
  }

  lemma TwiceExact(n: TreeNode?, t: Tree, below: bool)
    requires LinkedLink(n) && Shortage(Exact(t)) <= 1
    requires RawOf(n) == RawMaintain(RawMaintain(Exact(t), true), below)
    ensures ValidLink(n) && TreeOf(n) == Maintain(Maintain(t, true), below)
  {
    RawMaintainExact(t, true);
    RawMaintainExact(Maintain(t, true), below);
    ExactTree(n, Maintain(Maintain(t, true), below));
  }

  /** The rebalancing on the way back up. */
  method RebalanceAbove(node: TreeNode, key: nat, ghost t: Tree, ghost fault: bool, ghost found: bool)
    returns (root: TreeNode?)
    requires node.Linked() && t.Node? && key != t.key && node.key == t.key && (fault <==> Delete(t, key).Fault?)
    requires fault ==> node.raw == FaultedDescent(t, key)
    requires !fault ==> node.Valid() && DescentDone(t, key, node.tree, found)
    modifies node.repr
    ensures LinkedLink(root) && ReprOf(root) == old(node.repr)
    ensures fault ==> RawOf(root) == Faulted(t, key)
    ensures !fault ==> ValidLink(root) && Delete(t, key) == if found then Removed(TreeOf(root))
            else Absent(TreeOf(root))
  {
    ghost var u := node.tree;
    if fault { DescentShortage(t, key); } else { ExactShortage(u); }
    root := MainTain(node, key < node.key);
    if !fault { KeptExact(root, u, key < t.key); }
  }

  lemma DescentShortage(t: Tree, key: nat)
    requires Delete(t, key).Fault? && key != t.key
    ensures Shortage(FaultedDescent(t, key)) <= 1
    ensures RawMaintain(FaultedDescent(t, key), key < t.key) == Faulted(t, key)
  {
    ExactShortage(t.left);
    ExactShortage(t.right);
  }

  // ---------------------------------------------------------------- queries

  /** `sb_tree_find_cnt` */
  function FindCntOf(root: TreeNode?, key: nat): (n: nat)
    requires ValidLink(root)
    reads root, ReprOf(root)
    ensures n == FindCnt(TreeOf(root), key)
    decreases ReprOf(root)
  {
    if root == null then 0
    else
      ValidBelow(root);
      if key < root.key then FindCntOf(root.left, key)
      else if root.key < key then FindCntOf(root.right, key)
      else 1 + FindCntOf(root.left, key) + FindCntOf(root.right, key)
  }

  /** `sb_tree_lt`, exact size fields or not. */
  function LtOf(node: TreeNode?, key: nat): (n: nat)
    requires LinkedLink(node)
    reads node, ReprOf(node)
    ensures n == RawLt(RawOf(node), key) && (ValidLink(node) ==> n == Lt(TreeOf(node), key))
    decreases ReprOf(node)
  {
    RawLtExact(TreeOf(node), key);
    if node == null then 0
    else
      assert LinkedLink(node.left) && LinkedLink(node.right);
      if node.key < key then SizeOf(node.left) + 1 + LtOf(node.right, key)
      else LtOf(node.left, key)
  }

  /** `sb_tree_index`; `missing` where it follows a link that is not there. */
  method IndexOf(root: TreeNode?, index: nat) returns (found: TreeNode?, missing: bool)
    requires LinkedLink(root)
    ensures index >= Field(RawOf(root)) ==> found == null && !missing
    ensures index < Field(RawOf(root)) ==>
              && (missing <==> RawWalk(RawOf(root), index).None?) && (found != null <==> !missing)
              && (found != null ==> Some((found.key, found.value)) == RawWalk(RawOf(root), index))
  {
    if root == null || index >= SizeOf(root) { return null, false; }
    var node: TreeNode? := root;
    var i: nat := index;
    while node != null
      invariant LinkedLink(node) && RawWalk(RawOf(node), i) == RawWalk(RawOf(root), index)
      decreases ReprOf(node)
    {
      assert LinkedLink(node.left) && LinkedLink(node.right);
      var size := SizeOf(node.left);
      if i == size { return node, false; }
      if i < size {
        node := node.left;
      } else {
        i := i - (size + 1);
        node := node.right;
      }
    }
    return null, true;
  }

  /** With exact size fields no link is missing, and what is found is the selected entry. */
  lemma ExactWalk(root: TreeNode?, index: nat)
    requires ValidLink(root)
    ensures index < Field(RawOf(root)) <==> index < Size(TreeOf(root))
    ensures index < Size(TreeOf(root)) ==> RawWalk(RawOf(root), index) == Some(Select(TreeOf(root), index))
  {
    if index < Size(TreeOf(root)) { RawWalkExact(TreeOf(root), index); }
  }
}
