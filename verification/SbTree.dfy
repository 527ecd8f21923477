/** The size-balanced tree of engine/tool/sbtree.c as a value: what every operation computes,
    branch by branch.  `SbTreeNodes` holds the linked nodes that refine these functions. */
module SbTree {
  import opened Options

  datatype Tree = Leaf | Node(left: Tree, key: nat, value: int, right: Tree)

  /** What the exact `size` field of a node holds. */
  function Size(t: Tree): nat
  {
    if t.Leaf? then 0 else Size(t.left) + Size(t.right) + 1
  }

  /** The stored pairs in order. */
  function Entries(t: Tree): seq<(nat, int)>
  {
    if t.Leaf? then [] else Entries(t.left) + [(t.key, t.value)] + Entries(t.right)
  }

  /** The sum of the sizes of all subtrees, the measure that rotations reduce. */
  ghost function Weight(t: Tree): nat
  {
    if t.Leaf? then 0 else Size(t) + Weight(t.left) + Weight(t.right)
  }

  function RotateLeft(t: Tree): (r: Tree)
    requires t.Node? && t.right.Node?
  {
    var right := t.right;
    Node(Node(t.left, t.key, t.value, right.left), right.key, right.value, right.right)
  }

  function RotateRight(t: Tree): (r: Tree)
    requires t.Node? && t.left.Node?
  {
    var left := t.left;
    Node(left.left, left.key, left.value, Node(left.right, t.key, t.value, t.right))
  }

  /** The rotation `sb_tree_main_tain` performs on a tree that is too deep on the left, if any. */
  function LiftLeft(t: Tree): Tree
    requires t.Node?
  {
    if t.left.Leaf? then t
    else if Size(t.left.left) > Size(t.right) then RotateRight(t)
    else if Size(t.left.right) > Size(t.right) then RotateRight(t.(left := RotateLeft(t.left)))
    else t
  }

  function LiftRight(t: Tree): Tree
    requires t.Node?
  {
    if t.right.Leaf? then t
    else if Size(t.right.right) > Size(t.left) then RotateLeft(t)
    else if Size(t.right.left) > Size(t.left) then RotateLeft(t.(right := RotateRight(t.right)))
    else t
  }

  predicate TooDeepLeft(t: Tree)
  {
    t.Node? && t.left.Node? && (Size(t.left.left) > Size(t.right) || Size(t.left.right) > Size(t.right))
  }

  predicate TooDeepRight(t: Tree)
  {
    t.Node? && t.right.Node? && (Size(t.right.right) > Size(t.left) || Size(t.right.left) > Size(t.left))
  }

  /** Every rotation that fires keeps the size and strictly reduces the sum of all subtree sizes;
      it leaves the old root as the right child of the new one. */
  lemma LiftLeftDecreases(t: Tree)
    requires TooDeepLeft(t)
    ensures LiftLeft(t).Node? && LiftLeft(t).right.Node?
    ensures LiftLeft(t).right.key == t.key && LiftLeft(t).right.right == t.right
    ensures Size(LiftLeft(t)) == Size(t)
    ensures Weight(LiftLeft(t)) < Weight(t)
    ensures Weight(LiftLeft(t).right.left) < Weight(t)
  {
    var l, r := t.left, t.right;
    if Size(l.left) > Size(r) {
      assert LiftLeft(t) == Node(l.left, l.key, l.value, Node(l.right, t.key, t.value, r));
    } else {
      var m := l.right;
      var n1, n2 := Node(l.left, l.key, l.value, m.left), Node(m.right, t.key, t.value, r);
      assert LiftLeft(t) == Node(n1, m.key, m.value, n2);
      assert Weight(n1) == Size(n1) + Weight(l.left) + Weight(m.left);
      assert Weight(n2) == Size(n2) + Weight(m.right) + Weight(r);
      assert Weight(l) == Size(l) + Weight(l.left) + Weight(m);
    }
  }

  lemma LiftRightDecreases(t: Tree)
    requires TooDeepRight(t)
    ensures LiftRight(t).Node? && LiftRight(t).left.Node?
    ensures LiftRight(t).left.key == t.key && LiftRight(t).left.left == t.left
    ensures Size(LiftRight(t)) == Size(t)
    ensures Weight(LiftRight(t)) < Weight(t)
    ensures Weight(LiftRight(t).left.right) < Weight(t)
  {
    var l, r := t.left, t.right;
    if Size(r.right) > Size(l) {
      assert LiftRight(t) == Node(Node(l, t.key, t.value, r.left), r.key, r.value, r.right);
    } else {
      var m := r.left;
      var n1, n2 := Node(l, t.key, t.value, m.left), Node(m.right, r.key, r.value, r.right);
      assert LiftRight(t) == Node(n1, m.key, m.value, n2);
      assert Weight(n1) == Size(n1) + Weight(l) + Weight(m.left);
      assert Weight(n2) == Size(n2) + Weight(m.right) + Weight(r.right);
      assert Weight(r) == Size(r) + Weight(m) + Weight(r.right);
    }
  }

  /** `sb_tree_main_tain`.  After a rotation the source goes on using the old root, so the first
      recursive call is on a subtree of the new root's child, not on a child of the new root. */
  function Maintain(t: Tree, rightDeeper: bool): (r: Tree)
    ensures Size(r) == Size(t)
    ensures Weight(r) <= Weight(t)
    decreases Weight(t)
  {
    if !rightDeeper then
      if !TooDeepLeft(t) then t
      else
        LiftLeftDecreases(t);
        var u := LiftLeft(t);
        var node := u.right;
        var node' := node.(left := Maintain(node.left, false));
        var u' := u.(right := node');
        assert Weight(node') <= Weight(node) && Size(node') == Size(node);
        Maintain(Maintain(u', false), true)
    else
      if !TooDeepRight(t) then t
      else
        LiftRightDecreases(t);
        var u := LiftRight(t);
        var node := u.left;
        var node' := node.(right := Maintain(node.right, true));
        var u' := u.(left := node');
        assert Weight(node') <= Weight(node) && Size(node') == Size(node);
        Maintain(Maintain(u', false), true)
  }

  /** The tree after the rotation and the first recursive call. */
  function AfterLift(t: Tree, rightDeeper: bool): (u: Tree)
    requires if rightDeeper then TooDeepRight(t) else TooDeepLeft(t)
  {
    if !rightDeeper then
      LiftLeftDecreases(t);
      var u := LiftLeft(t);
      u.(right := u.right.(left := Maintain(u.right.left, false)))
    else
      LiftRightDecreases(t);
      var u := LiftRight(t);
      u.(left := u.left.(right := Maintain(u.left.right, true)))
  }

  lemma AfterLiftDecreases(t: Tree, rightDeeper: bool)
    requires if rightDeeper then TooDeepRight(t) else TooDeepLeft(t)
    ensures Weight(if rightDeeper then LiftRight(t) else LiftLeft(t)) < Weight(t)
    ensures Weight(AfterLift(t, rightDeeper)) < Weight(t) && Size(AfterLift(t, rightDeeper)) == Size(t)
    ensures Maintain(t, rightDeeper) == Maintain(Maintain(AfterLift(t, rightDeeper), false), true)
  {
    var u := AfterLift(t, rightDeeper);
    if rightDeeper {
      LiftRightDecreases(t);
      var node := LiftRight(t).left;
      assert Size(u.left) == Size(node) && Weight(u.left) <= Weight(node);
    } else {
      LiftLeftDecreases(t);
      var node := LiftLeft(t).right;
      assert Size(u.right) == Size(node) && Weight(u.right) <= Weight(node);
    }
  }

  /** Rebalancing never changes what is stored nor the order it is stored in. */
  lemma {:induction false} MaintainEntries(t: Tree, rightDeeper: bool)
    ensures Entries(Maintain(t, rightDeeper)) == Entries(t)
    decreases Weight(t)
  {
    if !rightDeeper && TooDeepLeft(t) {
      LiftLeftDecreases(t);
      var u := LiftLeft(t);
      LiftLeftEntries(t);
      var node := u.right;
      MaintainEntries(node.left, false);
      var node' := node.(left := Maintain(node.left, false));
      var u' := u.(right := node');
      assert Weight(node') <= Weight(node) && Size(node') == Size(node);
      MaintainEntries(u', false);
      MaintainEntries(Maintain(u', false), true);
    } else if rightDeeper && TooDeepRight(t) {
      LiftRightDecreases(t);
      var u := LiftRight(t);
      LiftRightEntries(t);
      var node := u.left;
      MaintainEntries(node.right, true);
      var node' := node.(right := Maintain(node.right, true));
      var u' := u.(left := node');
      assert Weight(node') <= Weight(node) && Size(node') == Size(node);
      MaintainEntries(u', false);
      MaintainEntries(Maintain(u', false), true);
    }
  }

  lemma LiftLeftEntries(t: Tree)
    requires TooDeepLeft(t)
    ensures Entries(LiftLeft(t)) == Entries(t)
  {
    var l, r := t.left, t.right;
    if Size(l.left) > Size(r) {
      assert Entries(LiftLeft(t)) ==
        Entries(l.left) + [(l.key, l.value)] + (Entries(l.right) + [(t.key, t.value)] + Entries(r));
    } else {
      var m := l.right;
      var n1, n2 := Node(l.left, l.key, l.value, m.left), Node(m.right, t.key, t.value, r);
      assert LiftLeft(t) == Node(n1, m.key, m.value, n2);
      assert Entries(n1) == Entries(l.left) + [(l.key, l.value)] + Entries(m.left);
      assert Entries(n2) == Entries(m.right) + [(t.key, t.value)] + Entries(r);
      assert Entries(l) ==
        Entries(l.left) + [(l.key, l.value)] + (Entries(m.left) + [(m.key, m.value)] + Entries(m.right));
    }
  }

  lemma LiftRightEntries(t: Tree)
    requires TooDeepRight(t)
    ensures Entries(LiftRight(t)) == Entries(t)
  {
    var l, r := t.left, t.right;
    if Size(r.right) > Size(l) {
      assert Entries(LiftRight(t)) ==
        (Entries(l) + [(t.key, t.value)] + Entries(r.left)) + [(r.key, r.value)] + Entries(r.right);
    } else {
      var m := r.left;
      var n1, n2 := Node(l, t.key, t.value, m.left), Node(m.right, r.key, r.value, r.right);
      assert LiftRight(t) == Node(n1, m.key, m.value, n2);
      assert Entries(n1) == Entries(l) + [(t.key, t.value)] + Entries(m.left);
      assert Entries(n2) == Entries(m.right) + [(r.key, r.value)] + Entries(r.right);
      assert Entries(r) ==
        (Entries(m.left) + [(m.key, m.value)] + Entries(m.right)) + [(r.key, r.value)] + Entries(r.right);
    }
  }

  lemma {:induction false} EntriesLength(t: Tree)
    ensures |Entries(t)| == Size(t)
  {
    if t.Node? {
      EntriesLength(t.left);
      EntriesLength(t.right);
    }
  }

  // ---------------------------------------------------------------- shape

  /** Any node that stands for three or more entries has two children. */
  ghost predicate Shape(t: Tree)
  {
    t.Node? ==>
      && (Size(t) >= 3 ==> t.left.Node? && t.right.Node?)
      && Shape(t.left) && Shape(t.right)
  }

  lemma SizePositive(t: Tree)
    ensures Size(t) > 0 <==> t.Node?
  {
  }

  lemma LiftLeftShape(t: Tree)
    requires TooDeepLeft(t) && Shape(t)
    ensures Shape(LiftLeft(t))
  {
    var l, r := t.left, t.right;
    SizePositive(r); SizePositive(l.left); SizePositive(l.right);
    if Size(l.left) > Size(r) {
      var n := Node(l.right, t.key, t.value, r);
      assert LiftLeft(t) == Node(l.left, l.key, l.value, n);
      assert Shape(n);
    } else {
      var m := l.right;
      SizePositive(m.left); SizePositive(m.right);
      assert r.Node? && l.left.Node? && Size(m) >= 2;
      assert Shape(l) && Shape(m) && Shape(m.left) && Shape(m.right);
      assert Size(m) == Size(m.left) + Size(m.right) + 1;
      var n1, n2 := Node(l.left, l.key, l.value, m.left), Node(m.right, t.key, t.value, r);
      assert LiftLeft(t) == Node(n1, m.key, m.value, n2);
      assert Shape(n1) && Shape(n2);
    }
  }

  lemma LiftRightShape(t: Tree)
    requires TooDeepRight(t) && Shape(t)
    ensures Shape(LiftRight(t))
  {
    var l, r := t.left, t.right;
    SizePositive(l); SizePositive(r.left); SizePositive(r.right);
    if Size(r.right) > Size(l) {
      var n := Node(l, t.key, t.value, r.left);
      assert LiftRight(t) == Node(n, r.key, r.value, r.right);
      assert Shape(n);
    } else {
      var m := r.left;
      SizePositive(m.left); SizePositive(m.right);
      assert l.Node? && r.right.Node? && Size(m) >= 2;
      assert Shape(r) && Shape(m) && Shape(m.left) && Shape(m.right);
      assert Size(m) == Size(m.left) + Size(m.right) + 1;
      var n1, n2 := Node(l, t.key, t.value, m.left), Node(m.right, r.key, r.value, r.right);
      assert LiftRight(t) == Node(n1, m.key, m.value, n2);
      assert Shape(n1) && Shape(n2);
    }
  }

  /** Rebalancing keeps the shape. */
  lemma {:induction false} MaintainShape(t: Tree, rightDeeper: bool)
    requires Shape(t)
    ensures Shape(Maintain(t, rightDeeper))
    decreases Weight(t)
  {
    if !rightDeeper && TooDeepLeft(t) {
      LiftLeftDecreases(t);
      LiftLeftShape(t);
      var u := LiftLeft(t);
      var node := u.right;
      MaintainShape(node.left, false);
      var l' := Maintain(node.left, false);
      SizePositive(node.left); SizePositive(l');
      var node' := node.(left := l');
      var u' := u.(right := node');
      assert Weight(node') <= Weight(node) && Size(node') == Size(node);
      assert Shape(node');
      MaintainShape(u', false);
      MaintainShape(Maintain(u', false), true);
    } else if rightDeeper && TooDeepRight(t) {
      LiftRightDecreases(t);
      LiftRightShape(t);
      var u := LiftRight(t);
      var node := u.left;
      MaintainShape(node.right, true);
      var r' := Maintain(node.right, true);
      SizePositive(node.right); SizePositive(r');
      var node' := node.(right := r');
      var u' := u.(left := node');
      assert Weight(node') <= Weight(node) && Size(node') == Size(node);
      assert Shape(node');
      MaintainShape(u', false);
      MaintainShape(Maintain(u', false), true);
    }
  }

  // ---------------------------------------------------------------- insert

  /** `sb_tree_insert_node`: equal keys go to the right. */
  function Insert(t: Tree, key: nat, value: int): Tree
  {
    if t.Leaf? then Node(Leaf, key, value, Leaf)
    else if key < t.key then Maintain(t.(left := Insert(t.left, key, value)), false)
    else Maintain(t.(right := Insert(t.right, key, value)), true)
  }

  ghost predicate Sorted(s: seq<(nat, int)>)
  {
    forall i, j :: 0 <= i < j < |s| ==> s[i].0 <= s[j].0
  }

  /** How many entries of an ordered sequence have a key not above `key`. */
  function CountUpTo(s: seq<(nat, int)>, key: nat): nat
  {
    if s == [] then 0 else (if s[0].0 <= key then 1 else 0) + CountUpTo(s[1..], key)
  }

  /** How many entries have a key below `key`. */
  function CountBelow(s: seq<(nat, int)>, key: nat): nat
  {
    if s == [] then 0 else (if s[0].0 < key then 1 else 0) + CountBelow(s[1..], key)
  }

  /** How many entries have exactly this key. */
  function CountEqual(s: seq<(nat, int)>, key: nat): nat
  {
    if s == [] then 0 else (if s[0].0 == key then 1 else 0) + CountEqual(s[1..], key)
  }

  lemma {:induction false} CountsConcat(a: seq<(nat, int)>, b: seq<(nat, int)>, key: nat)
    ensures CountUpTo(a + b, key) == CountUpTo(a, key) + CountUpTo(b, key)
    ensures CountBelow(a + b, key) == CountBelow(a, key) + CountBelow(b, key)
    ensures CountEqual(a + b, key) == CountEqual(a, key) + CountEqual(b, key)
  {
    if a == [] {
      assert a + b == b;
    } else {
      CountsConcat(a[1..], b, key);
      assert (a + b)[1..] == a[1..] + b;
    }
  }

  lemma {:induction false} CountsOutside(s: seq<(nat, int)>, key: nat)
    ensures CountUpTo(s, key) == CountBelow(s, key) + CountEqual(s, key) <= |s|
    ensures (forall i :: 0 <= i < |s| ==> s[i].0 <= key) ==> CountUpTo(s, key) == |s|
    ensures (forall i :: 0 <= i < |s| ==> s[i].0 > key) ==> CountUpTo(s, key) == 0
    ensures (forall i :: 0 <= i < |s| ==> s[i].0 < key) ==> CountBelow(s, key) == |s|
    ensures (forall i :: 0 <= i < |s| ==> s[i].0 >= key) ==> CountBelow(s, key) == 0
  {
    if s != [] {
      CountsOutside(s[1..], key);
      assert forall i :: 0 <= i < |s[1..]| ==> s[1..][i] == s[i + 1];
    }
  }

  lemma SortedParts(a: seq<(nat, int)>, e: (nat, int), b: seq<(nat, int)>)
    requires Sorted(a + [e] + b)
    ensures Sorted(a) && Sorted(b)
    ensures forall i :: 0 <= i < |a| ==> a[i].0 <= e.0
    ensures forall i :: 0 <= i < |b| ==> e.0 <= b[i].0
  {
    var s := a + [e] + b;
    assert forall i :: 0 <= i < |a| ==> s[i] == a[i];
    assert s[|a|] == e;
    assert forall i :: 0 <= i < |b| ==> s[|a| + 1 + i] == b[i];
  }

  function InsertAt<T>(s: seq<T>, p: nat, x: T): seq<T>
    requires p <= |s|
  {
    s[..p] + [x] + s[p..]
  }

  function RemoveAt<T>(s: seq<T>, p: nat): seq<T>
    requires p < |s|
  {
    s[..p] + s[p + 1..]
  }

  lemma CountUpToAround(l: seq<(nat, int)>, e: (nat, int), r: seq<(nat, int)>, key: nat)
    requires Sorted(l + [e] + r)
    ensures CountUpTo(l, key) <= |l| && CountUpTo(r, key) <= |r|
    ensures CountUpTo(l + [e] + r, key) == if key < e.0 then CountUpTo(l, key) else |l| + 1 + CountUpTo(r, key)
  {
    SortedParts(l, e, r);
    CountsConcat(l + [e], r, key);
    CountsConcat(l, [e], key);
    CountsOutside(l, key);
    CountsOutside(r, key);
    var one: seq<(nat, int)> := [e];
    assert one[1..] == [];
  }

  lemma InsertAtLeft<T>(l: seq<T>, e: T, r: seq<T>, p: nat, x: T)
    requires p <= |l|
    ensures InsertAt(l, p, x) + [e] + r == InsertAt(l + [e] + r, p, x)
  {
  }

  lemma InsertAtRight<T>(l: seq<T>, e: T, r: seq<T>, p: nat, x: T)
    requires p <= |r|
    ensures l + [e] + InsertAt(r, p, x) == InsertAt(l + [e] + r, |l| + 1 + p, x)
  {
  }

  lemma InsertUnfold(t: Tree, key: nat, value: int)
    requires t.Node?
    ensures Entries(Insert(t, key, value)) ==
            if key < t.key then Entries(Insert(t.left, key, value)) + [(t.key, t.value)] + Entries(t.right)
            else Entries(t.left) + [(t.key, t.value)] + Entries(Insert(t.right, key, value))
  {
    if key < t.key {
      MaintainEntries(t.(left := Insert(t.left, key, value)), false);
    } else {
      MaintainEntries(t.(right := Insert(t.right, key, value)), true);
    }
  }

  /** The new entry lands behind every entry whose key is not greater, and nothing else moves. */
  lemma {:induction false} InsertEntries(t: Tree, key: nat, value: int)
    requires Sorted(Entries(t))
    ensures CountUpTo(Entries(t), key) <= |Entries(t)|
    ensures Entries(Insert(t, key, value)) == InsertAt(Entries(t), CountUpTo(Entries(t), key), (key, value))
  {
    if t.Leaf? {
      assert Entries(Insert(t, key, value)) == [(key, value)];
    } else {
      InsertUnfold(t, key, value);
      var l, e, r := Entries(t.left), (t.key, t.value), Entries(t.right);
      assert Entries(t) == l + [e] + r;
      SortedParts(l, e, r);
      CountUpToAround(l, e, r, key);
      if key < t.key {
        InsertEntries(t.left, key, value);
        InsertAtLeft(l, e, r, CountUpTo(l, key), (key, value));
      } else {
        InsertEntries(t.right, key, value);
        InsertAtRight(l, e, r, CountUpTo(r, key), (key, value));
      }
    }
  }

  lemma {:induction false} InsertSize(t: Tree, key: nat, value: int)
    ensures Size(Insert(t, key, value)) == Size(t) + 1
  {
    if t.Node? {
      if key < t.key { InsertSize(t.left, key, value); } else { InsertSize(t.right, key, value); }
    }
  }

  /** Insertion keeps the order of keys. */
  lemma InsertSorted(t: Tree, key: nat, value: int)
    requires Sorted(Entries(t))
    ensures Sorted(Entries(Insert(t, key, value)))
  {
    InsertEntries(t, key, value);
    CountUpToSplits(Entries(t), key);
  }

  /** In an ordered sequence the counted entries are exactly a prefix. */
  lemma {:induction false} CountUpToSplits(s: seq<(nat, int)>, key: nat)
    requires Sorted(s)
    ensures CountUpTo(s, key) <= |s|
    ensures forall i :: 0 <= i < CountUpTo(s, key) ==> s[i].0 <= key
    ensures forall i :: CountUpTo(s, key) <= i < |s| ==> s[i].0 > key
  {
    if s != [] {
      CountUpToSplits(s[1..], key);
      var n := CountUpTo(s[1..], key);
      if s[0].0 <= key {
        assert forall i :: 1 <= i < |s| ==> s[i] == s[1..][i - 1];
      } else {
        assert forall i :: 0 <= i < |s[1..]| ==> s[1..][i] == s[i + 1];
        CountsOutside(s[1..], key);
      }
    }
  }

  lemma {:induction false} CountBelowSplits(s: seq<(nat, int)>, key: nat)
    requires Sorted(s)
    ensures CountBelow(s, key) <= |s|
    ensures forall i :: 0 <= i < CountBelow(s, key) ==> s[i].0 < key
    ensures forall i :: CountBelow(s, key) <= i < |s| ==> s[i].0 >= key
  {
    if s != [] {
      CountBelowSplits(s[1..], key);
      var n := CountBelow(s[1..], key);
      if s[0].0 < key {
        assert forall i :: 1 <= i < |s| ==> s[i] == s[1..][i - 1];
      } else {
        assert forall i :: 0 <= i < |s[1..]| ==> s[1..][i] == s[i + 1];
        CountsOutside(s[1..], key);
      }
    }
  }

  /** A node one of whose children just grew: at most one child is missing, and then the other one
      stands for at most two entries. */
  lemma LiftSmall(t: Tree, rightDeeper: bool)
    requires t.Node? && Shape(t.left) && Shape(t.right)
    requires if rightDeeper then t.right.Node? && (t.left.Leaf? ==> Size(t.right) <= 2)
                            else t.left.Node? && (t.right.Leaf? ==> Size(t.left) <= 2)
    ensures Shape(Maintain(t, rightDeeper))
    decreases Weight(t)
  {
    SizePositive(t.left); SizePositive(t.right);
    if Size(t) < 3 || (t.left.Node? && t.right.Node?) {
      MaintainShape(t, rightDeeper);
    } else if !rightDeeper {
      LiftTwoLeft(t);
      LiftLeftDecreases(t);
      var u := AfterLift(t, false);
      SmallShape(u.left); SmallShape(u.right);
      MaintainShape(u, false);
      MaintainShape(Maintain(u, false), true);
    } else {
      LiftTwoRight(t);
      LiftRightDecreases(t);
      var u := AfterLift(t, true);
      SmallShape(u.left); SmallShape(u.right);
      MaintainShape(u, false);
      MaintainShape(Maintain(u, false), true);
    }
  }

  lemma SmallShape(t: Tree)
    requires Size(t) == 1
    ensures t.Node? && t.left.Leaf? && t.right.Leaf? && Shape(t)
  {
    SizePositive(t.left); SizePositive(t.right);
  }

  /** Two entries on the left and none on the right become one on each side. */
  lemma LiftTwoLeft(t: Tree)
    requires t.Node? && t.right.Leaf? && Size(t.left) == 2
    ensures TooDeepLeft(t)
    ensures var u := AfterLift(t, false); u.Node? && Size(u) == 3 && Size(u.left) == 1 && Size(u.right) == 1
  {
    var l := t.left;
    SizePositive(l.left); SizePositive(l.right);
    if l.left.Node? {
      assert l.right.Leaf?;
      assert LiftLeft(t) == Node(l.left, l.key, l.value, Node(Leaf, t.key, t.value, Leaf));
    } else {
      SmallShape(l.right);
      assert LiftLeft(t) == Node(Node(Leaf, l.key, l.value, Leaf), l.right.key, l.right.value,
             Node(Leaf, t.key, t.value, Leaf));
    }
  }

  lemma LiftTwoRight(t: Tree)
    requires t.Node? && t.left.Leaf? && Size(t.right) == 2
    ensures TooDeepRight(t)
    ensures var u := AfterLift(t, true); u.Node? && Size(u) == 3 && Size(u.left) == 1 && Size(u.right) == 1
  {
    var r := t.right;
    SizePositive(r.left); SizePositive(r.right);
    if r.right.Node? {
      assert r.left.Leaf?;
      assert LiftRight(t) == Node(Node(Leaf, t.key, t.value, Leaf), r.key, r.value, r.right);
    } else {
      SmallShape(r.left);
      assert LiftRight(t) == Node(Node(Leaf, t.key, t.value, Leaf), r.left.key, r.left.value,
             Node(Leaf, r.key, r.value, Leaf));
    }
  }

  /** Insertion preserves the shape invariant. */
  lemma {:induction false} InsertShape(t: Tree, key: nat, value: int)
    requires Shape(t)
    ensures Shape(Insert(t, key, value))
  {
    if t.Leaf? {
      assert Shape(Leaf);
    } else if key < t.key {
      InsertShape(t.left, key, value);
      InsertSize(t.left, key, value);
      SizePositive(t.left); SizePositive(t.right); SizePositive(Insert(t.left, key, value));
      LiftSmall(t.(left := Insert(t.left, key, value)), false);
    } else {
      InsertShape(t.right, key, value);
      InsertSize(t.right, key, value);
      SizePositive(t.left); SizePositive(t.right); SizePositive(Insert(t.right, key, value));
      LiftSmall(t.(right := Insert(t.right, key, value)), true);
    }
  }

  // ---------------------------------------------------------------- delete

  /** `sb_tree_delete_node` with `isfind` set: unlink the largest entry of a non-empty tree. */
  function DeleteMax(t: Tree): (r: (Tree, nat, int))
    requires t.Node?
  {
    if t.right.Leaf? then (t.left, t.key, t.value)
    else
      var (right, key, value) := DeleteMax(t.right);
      (Maintain(t.(right := right), false), key, value)
  }

  /** What `sb_tree_delete` ends with.  `Removed` is its answer 1.  `Absent` and `Fault` are its
      answer 0; `Fault` is the path on which it looks for a replacement in an empty left subtree,
      finds none, and still takes one off the size field of the matched node. */
  datatype Deleted = Absent(tree: Tree) | Removed(tree: Tree) | Fault

  function Delete(t: Tree, key: nat): Deleted
  {
    if t.Leaf? then Absent(t)
    else if key == t.key then
      if Size(t) == 1 then Removed(Leaf)
      else if Size(t) == 2 then
        var child := if t.left.Node? then t.left else t.right;
        Removed(Maintain(Maintain(Node(Leaf, child.key, child.value, Leaf), true), key < child.key))
      else if t.left.Leaf? then Fault
      else
        var (left, k, v) := DeleteMax(t.left);
        Removed(Maintain(Maintain(Node(left, k, v, t.right), true), key < k))
    else if key < t.key then
      match Delete(t.left, key) {
        case Fault => Fault
        case Absent(left) => Absent(Maintain(t.(left := left), true))
        case Removed(left) => Removed(Maintain(t.(left := left), true))
      }
    else
      match Delete(t.right, key) {
        case Fault => Fault
        case Absent(right) => Absent(Maintain(t.(right := right), false))
        case Removed(right) => Removed(Maintain(t.(right := right), false))
      }
  }

  /** The position, in order, of the first node with this key on the search path, or -1. */
  function MatchIndex(t: Tree, key: nat): (i: int)
    ensures -1 <= i < Size(t)
  {
    if t.Leaf? then -1
    else if key == t.key then Size(t.left)
    else if key < t.key then MatchIndex(t.left, key)
    else
      var i := MatchIndex(t.right, key);
      if i < 0 then -1 else Size(t.left) + 1 + i
  }

  /** That node stands for three or more entries and has no left child. */
  predicate MatchHollow(t: Tree, key: nat)
  {
    t.Node? &&
    if key == t.key then Size(t) >= 3 && t.left.Leaf?
    else if key < t.key then MatchHollow(t.left, key)
    else MatchHollow(t.right, key)
  }

  lemma {:induction false} DeleteMaxEntries(t: Tree)
    requires t.Node?
    ensures var (u, k, v) := DeleteMax(t); Entries(t) == Entries(u) + [(k, v)]
  {
    if t.right.Node? {
      DeleteMaxEntries(t.right);
      var (right, k, v) := DeleteMax(t.right);
      MaintainEntries(t.(right := right), false);
      assert Entries(t.(right := right)) == Entries(t.left) + [(t.key, t.value)] + Entries(right);
    }
  }

  lemma RemoveAtAround<T>(l: seq<T>, e: T, r: seq<T>)
    ensures RemoveAt(l + [e] + r, |l|) == l + r
    ensures forall p :: 0 <= p < |l| ==> RemoveAt(l + [e] + r, p) == RemoveAt(l, p) + [e] + r
    ensures forall p :: 0 <= p < |r| ==> RemoveAt(l + [e] + r, |l| + 1 + p) == l + [e] + RemoveAt(r, p)
  {
  }

  /** Deletion at the matched node itself. */
  lemma DeleteHere(t: Tree)
    requires t.Node? && !MatchHollow(t, t.key)
    ensures Delete(t, t.key).Removed?
    ensures Entries(Delete(t, t.key).tree) == Entries(t.left) + Entries(t.right)
  {
    SizePositive(t.left); SizePositive(t.right);
    if Size(t) == 2 {
      var child := if t.left.Node? then t.left else t.right;
      assert Size(child.left) == 0 && Size(child.right) == 0;
      SizePositive(child.left); SizePositive(child.right);
      assert Entries(child) == [(child.key, child.value)];
      var one := Node(Leaf, child.key, child.value, Leaf);
      MaintainEntries(one, true);
      MaintainEntries(Maintain(one, true), t.key < child.key);
    } else if Size(t) >= 3 {
      DeleteMaxEntries(t.left);
      var (left, k, v) := DeleteMax(t.left);
      var u := Node(left, k, v, t.right);
      MaintainEntries(u, true);
      MaintainEntries(Maintain(u, true), t.key < k);
    }
  }

  /** Exactly what `sb_tree_delete` does on a tree with exact sizes, whatever its shape: it leaves
      the entries alone when the search finds nothing, removes the matched entry and nothing else
      when that node has a left child or stands for at most two entries, and fails otherwise. */
  lemma {:induction false} DeleteOutcome(t: Tree, key: nat)
    ensures |Entries(t)| == Size(t)
    ensures Delete(t, key).Absent? <==> MatchIndex(t, key) < 0
    ensures Delete(t, key).Fault? <==> MatchIndex(t, key) >= 0 && MatchHollow(t, key)
    ensures Delete(t, key).Absent? ==> Entries(Delete(t, key).tree) == Entries(t)
    ensures Delete(t, key).Removed? ==>
              Entries(Delete(t, key).tree) == RemoveAt(Entries(t), MatchIndex(t, key))
    ensures MatchHollow(t, key) ==> MatchIndex(t, key) >= 0
  {
    EntriesLength(t);
    if t.Node? {
      EntriesLength(t.left);
      if key == t.key {
        RemoveAtAround(Entries(t.left), (t.key, t.value), Entries(t.right));
        if !MatchHollow(t, key) { DeleteHere(t); }
      } else if key < t.key {
        DeleteOutcome(t.left, key);
        DeleteDescends(t, key);
      } else {
        DeleteOutcome(t.right, key);
        DeleteDescends(t, key);
      }
    }
  }

  lemma DeleteDescends(t: Tree, key: nat)
    requires t.Node? && key != t.key
    ensures var child := if key < t.key then t.left else t.right;
            var d, i := Delete(child, key), MatchIndex(child, key);
            && |Entries(child)| == Size(child)
            && (Delete(t, key).Fault? <==> d.Fault?) && (Delete(t, key).Absent? <==> d.Absent?)
            && (d.Absent? && Entries(d.tree) == Entries(child) ==>
                  Entries(Delete(t, key).tree) == Entries(t))
            && (d.Removed? && i >= 0 && Entries(d.tree) == RemoveAt(Entries(child), i) ==>
                  0 <= MatchIndex(t, key) < |Entries(t)| &&
                  Entries(Delete(t, key).tree) == RemoveAt(Entries(t), MatchIndex(t, key)))
  {
    EntriesLength(t);
    EntriesLength(t.left);
    EntriesLength(t.right);
    if key < t.key {
      var d, i := Delete(t.left, key), MatchIndex(t.left, key);
      if d.Absent? && Entries(d.tree) == Entries(t.left) { ReplacedLeft(t, d.tree); }
      if d.Removed? && i >= 0 && Entries(d.tree) == RemoveAt(Entries(t.left), i) { LeftRemoved(t, d.tree, i); }
    } else {
      var d, i := Delete(t.right, key), MatchIndex(t.right, key);
      if d.Absent? && Entries(d.tree) == Entries(t.right) { ReplacedRight(t, d.tree); }
      if d.Removed? && i >= 0 && Entries(d.tree) == RemoveAt(Entries(t.right), i) {
        RightRemoved(t, d.tree, i, MatchIndex(t, key));
      }
    }
  }

  lemma LeftRemoved(t: Tree, left: Tree, i: nat)
    requires t.Node? && i < |Entries(t.left)| && Entries(left) == RemoveAt(Entries(t.left), i)
    ensures i < |Entries(t)| && Entries(Maintain(t.(left := left), true)) == RemoveAt(Entries(t), i)
  {
    ReplacedLeft(t, left);
    RemoveInFront(Entries(t.left), [(t.key, t.value)], Entries(t.right), i, Entries(t), Entries(left));
  }

  lemma RightRemoved(t: Tree, right: Tree, i: nat, j: nat)
    requires t.Node? && i < |Entries(t.right)| && Entries(right) == RemoveAt(Entries(t.right), i)
    requires j == |Entries(t.left)| + 1 + i
    ensures j < |Entries(t)| && Entries(Maintain(t.(right := right), false)) == RemoveAt(Entries(t), j)
  {
    var e := [(t.key, t.value)];
    ReplacedRight(t, right);
    RemoveBehind(Entries(t.left), e, Entries(t.right), i, Entries(t), Entries(right), j);
  }

  /** The entries after a subtree was replaced and the node rebalanced. */
  lemma ReplacedLeft(t: Tree, left: Tree)
    requires t.Node?
    ensures Entries(Maintain(t.(left := left), true)) == Entries(left) + [(t.key, t.value)] + Entries(t.right)
  {
    MaintainEntries(t.(left := left), true);
  }

  lemma ReplacedRight(t: Tree, right: Tree)
    requires t.Node?
    ensures Entries(Maintain(t.(right := right), false)) == Entries(t.left) + [(t.key, t.value)] + Entries(right)
  {
    MaintainEntries(t.(right := right), false);
  }

  lemma RemoveInFront<T>(l: seq<T>, e: seq<T>, r: seq<T>, i: nat, s: seq<T>, l': seq<T>)
    requires i < |l| && s == l + e + r && l' == RemoveAt(l, i)
    ensures RemoveAt(s, i) == l' + e + r
  {
  }

  lemma RemoveBehind<T>(l: seq<T>, e: seq<T>, r: seq<T>, i: nat, s: seq<T>, r': seq<T>, j: nat)
    requires i < |r| && s == l + e + r && r' == RemoveAt(r, i) && j == |l| + |e| + i
    ensures j < |s| && RemoveAt(s, j) == l + e + r'
  {
  }

  lemma {:induction false} CountEqualZero(s: seq<(nat, int)>, key: nat)
    ensures CountEqual(s, key) == 0 <==> forall i :: 0 <= i < |s| ==> s[i].0 != key
  {
    if s != [] {
      CountEqualZero(s[1..], key);
      assert forall i :: 0 <= i < |s[1..]| ==> s[1..][i] == s[i + 1];
    }
  }

  /** On ordered keys the search succeeds exactly for the keys that are stored. */
  lemma {:induction false} MatchIndexMeaning(t: Tree, key: nat)
    requires Sorted(Entries(t))
    ensures |Entries(t)| == Size(t)
    ensures MatchIndex(t, key) < 0 <==> CountEqual(Entries(t), key) == 0
    ensures MatchIndex(t, key) >= 0 ==> Entries(t)[MatchIndex(t, key)].0 == key
  {
    EntriesLength(t);
    if t.Node? {
      EntriesLength(t.left);
      var l, e, r := Entries(t.left), (t.key, t.value), Entries(t.right);
      SortedParts(l, e, r);
      CountEqualAround(l, e, r, key);
      if key < t.key {
        MatchIndexMeaning(t.left, key);
      } else if key > t.key {
        MatchIndexMeaning(t.right, key);
      }
    }
  }

  lemma CountEqualAround(l: seq<(nat, int)>, e: (nat, int), r: seq<(nat, int)>, key: nat)
    requires Sorted(l + [e] + r)
    ensures CountEqual(l + [e] + r, key) ==
            CountEqual(l, key) + (if e.0 == key then 1 else 0) + CountEqual(r, key)
    ensures key < e.0 ==> CountEqual(r, key) == 0
    ensures key > e.0 ==> CountEqual(l, key) == 0
  {
    SortedParts(l, e, r);
    CountsConcat(l + [e], r, key);
    CountsConcat(l, [e], key);
    CountEqualZero(l, key);
    CountEqualZero(r, key);
    var one: seq<(nat, int)> := [e];
    assert one[1..] == [];
  }

  lemma {:induction false} ShapeNotHollow(t: Tree, key: nat)
    requires Shape(t)
    ensures !MatchHollow(t, key)
  {
    if t.Node? {
      if key < t.key { ShapeNotHollow(t.left, key); }
      if key > t.key { ShapeNotHollow(t.right, key); }
    }
  }

  /** From a tree of the invariant shape, `sb_tree_delete` answers 1 exactly when the key is
      present, and then takes exactly one entry with that key out of the sequence. */
  lemma DeleteFromShape(t: Tree, key: nat)
    requires Shape(t) && Sorted(Entries(t))
    ensures Delete(t, key).Removed? <==> CountEqual(Entries(t), key) > 0
    ensures Delete(t, key).Absent? <==> CountEqual(Entries(t), key) == 0
    ensures Delete(t, key).Absent? ==> Entries(Delete(t, key).tree) == Entries(t)
    ensures Delete(t, key).Removed? ==>
              exists p :: 0 <= p < |Entries(t)| && Entries(t)[p].0 == key &&
                          Entries(Delete(t, key).tree) == RemoveAt(Entries(t), p)
  {
    DeleteOutcome(t, key);
    MatchIndexMeaning(t, key);
    ShapeNotHollow(t, key);
  }

  // ---------------------------------------------------------------- rank and select

  /** `sb_tree_index`, as the recursion its loop performs. */
  function Select(t: Tree, index: nat): (nat, int)
    requires index < Size(t)
  {
    if index == Size(t.left) then (t.key, t.value)
    else if index < Size(t.left) then Select(t.left, index)
    else Select(t.right, index - (Size(t.left) + 1))
  }

  /** `sb_tree_find`: the value of the first node with this key on the search path. */
  function Find(t: Tree, key: nat): Option<int>
  {
    if t.Leaf? then None
    else if key < t.key then Find(t.left, key)
    else if t.key < key then Find(t.right, key)
    else Some(t.value)
  }

  /** Searching finds the very entry that a deletion would match. */
  lemma {:induction false} FindIsMatch(t: Tree, key: nat)
    ensures MatchIndex(t, key) < |Entries(t)| == Size(t)
    ensures Find(t, key) == if MatchIndex(t, key) < 0 then None else Some(Entries(t)[MatchIndex(t, key)].1)
    ensures MatchIndex(t, key) >= 0 ==> Entries(t)[MatchIndex(t, key)].0 == key
  {
    EntriesLength(t);
    if t.Node? {
      EntriesLength(t.left);
      if key < t.key { FindIsMatch(t.left, key); }
      if t.key < key { FindIsMatch(t.right, key); }
    }
  }

  /** The entry whose node a successful deletion unlinks and frees; unless it is the matched one, its
      key and value move to the matched node. */
  function FreedEntry(t: Tree, key: nat): (nat, int)
    requires Delete(t, key).Removed?
  {
    if key < t.key then FreedEntry(t.left, key)
    else if t.key < key then FreedEntry(t.right, key)
    else if Size(t) == 1 then (t.key, t.value)
    else if Size(t) == 2 then (if t.left.Node? then (t.left.key, t.left.value) else (t.right.key, t.right.value))
    else (DeleteMax(t.left).1, DeleteMax(t.left).2)
  }

  /** `sb_tree_lt`. */
  function Lt(t: Tree, key: nat): nat
  {
    if t.Leaf? then 0
    else if t.key < key then Size(t.left) + 1 + Lt(t.right, key)
    else Lt(t.left, key)
  }

  /** `sb_tree_find_cnt`. */
  function FindCnt(t: Tree, key: nat): nat
  {
    if t.Leaf? then 0
    else if key < t.key then FindCnt(t.left, key)
    else if t.key < key then FindCnt(t.right, key)
    else 1 + FindCnt(t.left, key) + FindCnt(t.right, key)
  }

  lemma {:induction false} SelectIsEntry(t: Tree, index: nat)
    requires index < Size(t)
    ensures |Entries(t)| == Size(t)
    ensures Select(t, index) == Entries(t)[index]
  {
    EntriesLength(t);
    EntriesLength(t.left);
    if index < Size(t.left) {
      SelectIsEntry(t.left, index);
    } else if index > Size(t.left) {
      SelectIsEntry(t.right, index - (Size(t.left) + 1));
    }
  }

  lemma {:induction false} LtIsCount(t: Tree, key: nat)
    requires Sorted(Entries(t))
    ensures Lt(t, key) == CountBelow(Entries(t), key)
  {
    if t.Node? {
      EntriesLength(t.left);
      var l, e, r := Entries(t.left), (t.key, t.value), Entries(t.right);
      SortedParts(l, e, r);
      CountsConcat(l + [e], r, key);
      CountsConcat(l, [e], key);
      CountsOutside(l, key);
      CountsOutside(r, key);
      var one: seq<(nat, int)> := [e];
      assert one[1..] == [];
      if t.key < key { LtIsCount(t.right, key); } else { LtIsCount(t.left, key); }
    }
  }

  lemma {:induction false} FindCntIsCount(t: Tree, key: nat)
    requires Sorted(Entries(t))
    ensures FindCnt(t, key) == CountEqual(Entries(t), key)
  {
    if t.Node? {
      var l, e, r := Entries(t.left), (t.key, t.value), Entries(t.right);
      SortedParts(l, e, r);
      CountEqualAround(l, e, r, key);
      FindCntIsCount(t.left, key);
      FindCntIsCount(t.right, key);
    }
  }

  /** Rank and select are inverse: position `i` lies in the run of its key, which starts at the
      rank of the key, and the position at the rank of a stored key holds that key. */
  lemma RankSelectInverse(t: Tree, i: nat, key: nat)
    requires Sorted(Entries(t))
    ensures i < Size(t) ==>
              var k := Select(t, i).0;
              Lt(t, k) <= i < Lt(t, k) + FindCnt(t, k)
    ensures FindCnt(t, key) > 0 ==> Lt(t, key) < Size(t) && Select(t, Lt(t, key)).0 == key
  {
    EntriesLength(t);
    var s := Entries(t);
    if i < Size(t) {
      SelectIsEntry(t, i);
      RankSplits(t, Select(t, i).0);
    }
    RankSplits(t, key);
    if FindCnt(t, key) > 0 { SelectIsEntry(t, Lt(t, key)); }
  }

  /** The entries below, at and above a key are three consecutive runs, cut at its rank. */
  lemma RankSplits(t: Tree, key: nat)
    requires Sorted(Entries(t))
    ensures |Entries(t)| == Size(t) && Lt(t, key) + FindCnt(t, key) <= Size(t)
    ensures forall i :: 0 <= i < Size(t) ==>
              var k := Entries(t)[i].0;
              (i < Lt(t, key) <==> k < key) && (i >= Lt(t, key) + FindCnt(t, key) <==> k > key)
  {
    EntriesLength(t);
    LtIsCount(t, key);
    FindCntIsCount(t, key);
    CountsOutside(Entries(t), key);
    CountBelowSplits(Entries(t), key);
    CountUpToSplits(Entries(t), key);
  }
}
