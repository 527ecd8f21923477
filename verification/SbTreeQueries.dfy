/** What `sb_tree_lt` and `sb_tree_index` answer on a tree of engine/tool/sbtree.c that a deletion has left with a
    size field one too small. */
module SbTreeQueries {
  import opened Options
  import opened SbTree
  import opened SbTreeDamage

  // ---------------------------------------------------------------- how far fields can be off

  ghost function Nodes(r: Raw): nat
  {
    if r.Nil? then 0 else Nodes(r.left) + 1 + Nodes(r.right)
  }

  lemma {:induction false} NodesEntries(r: Raw)
    ensures |RawEntries(r)| == Nodes(r)
  {
    if r.Cell? {
      NodesEntries(r.left);
      NodesEntries(r.right);
    }
  }

  /** No field counts more than there is. */
  ghost predicate Under(r: Raw)
  {
    r.Cell? ==> r.size <= Nodes(r) && Under(r.left) && Under(r.right)
  }

  /** A field misses no more than falls short below it. */
  lemma {:induction false} FieldMisses(r: Raw)
    ensures Nodes(r) <= Field(r) + Shortage(r)
  {
    if r.Cell? {
      FieldMisses(r.left);
      FieldMisses(r.right);
    }
  }

  lemma {:induction false} ExactUnder(t: Tree)
    ensures Under(Exact(t)) && Nodes(Exact(t)) == Size(t)
  {
    if t.Node? {
      ExactUnder(t.left);
      ExactUnder(t.right);
    }
  }

  lemma TurnLeftUnder(r: Raw)
    requires r.Cell? && r.right.Cell? && Under(r)
    ensures Under(RawRotateLeft(r)) && Nodes(RawRotateLeft(r)) == Nodes(r)
  {
    var h := r.right;
    TurnedUnder(r.left, h.left);
  }

  lemma TurnRightUnder(r: Raw)
    requires r.Cell? && r.left.Cell? && Under(r)
    ensures Under(RawRotateRight(r)) && Nodes(RawRotateRight(r)) == Nodes(r)
  {
    var l := r.left;
    TurnedUnder(l.right, r.right);
  }

  lemma TurnedUnder(a: Raw, b: Raw)
    requires Under(a) && Under(b)
    ensures Field(a) <= Nodes(a) && Field(b) <= Nodes(b)
  {
  }

  lemma LiftLeftUnder(r: Raw)
    requires RawTooDeepLeft(r) && Under(r)
    ensures Under(RawLiftLeft(r)) && Nodes(RawLiftLeft(r)) == Nodes(r)
  {
    if Field(r.left.left) > Field(r.right) {
      TurnRightUnder(r);
    } else {
      TurnLeftUnder(r.left);
      TurnRightUnder(r.(left := RawRotateLeft(r.left)));
    }
  }

  lemma LiftRightUnder(r: Raw)
    requires RawTooDeepRight(r) && Under(r)
    ensures Under(RawLiftRight(r)) && Nodes(RawLiftRight(r)) == Nodes(r)
  {
    if Field(r.right.right) > Field(r.left) {
      TurnLeftUnder(r);
    } else {
      TurnRightUnder(r.right);
      TurnLeftUnder(r.(right := RawRotateRight(r.right)));
    }
  }

  /** Rebalancing never makes a field count more than there is. */
  lemma {:induction false} MaintainUnder(r: Raw, rightDeeper: bool)
    requires Shortage(r) <= 1 && Under(r)
    ensures Under(RawMaintain(r, rightDeeper)) && Nodes(RawMaintain(r, rightDeeper)) == Nodes(r)
    decreases Measure(r)
  {
    if if rightDeeper then RawTooDeepRight(r) else RawTooDeepLeft(r) {
      RawMaintainRound(r, rightDeeper);
      var next := RawAfterLift(r, rightDeeper);
      if rightDeeper { SettledRight(r, next); } else { SettledLeft(r, next); }
      MaintainUnder(next, false);
      MaintainUnder(RawMaintain(next, false), true);
    }
  }

  lemma {:induction false} SettledLeft(r: Raw, next: Raw)
    requires Shortage(r) <= 1 && Under(r) && RawTooDeepLeft(r) && next == RawAfterLift(r, false)
    ensures Under(next) && Nodes(next) == Nodes(r)
    decreases Measure(r), 0
  {
    LiftLeftUnder(r);
    RawLiftLeftReduces(r);
    var lifted := RawLiftLeft(r);
    ShortageBelow(lifted);
    ShortageBelow(lifted.right);
    MaintainUnder(lifted.right.left, false);
  }

  lemma {:induction false} SettledRight(r: Raw, next: Raw)
    requires Shortage(r) <= 1 && Under(r) && RawTooDeepRight(r) && next == RawAfterLift(r, true)
    ensures Under(next) && Nodes(next) == Nodes(r)
    decreases Measure(r), 0
  {
    LiftRightUnder(r);
    RawLiftRightReduces(r);
    var lifted := RawLiftRight(r);
    ShortageBelow(lifted);
    ShortageBelow(lifted.left);
    MaintainUnder(lifted.left.right, true);
  }

  /** The tree a faulting deletion leaves: fields are exact or one too small. */
  lemma {:induction false} FaultedUnder(t: Tree, key: nat)
    requires Delete(t, key).Fault?
    ensures Under(Faulted(t, key)) && Nodes(Faulted(t, key)) == Size(t)
  {
    ExactUnder(t.left);
    ExactUnder(t.right);
    ExactShortage(t.left);
    ExactShortage(t.right);
    if key == t.key {
      var hollow := Cell(Exact(t.left), t.key, t.value, Size(t) - 1, Exact(t.right));
      MaintainUnder(hollow, true);
      StaysUnder(t, RawMaintain(hollow, true), false, Faulted(t, key));
    } else if key < t.key {
      FaultedUnder(t.left, key);
      StaysUnder(t, Cell(Faulted(t.left, key), t.key, t.value, Size(t), Exact(t.right)), true, Faulted(t, key));
    } else {
      FaultedUnder(t.right, key);
      StaysUnder(t, Cell(Exact(t.left), t.key, t.value, Size(t), Faulted(t.right, key)), false, Faulted(t, key));
    }
  }

  lemma StaysUnder(t: Tree, r: Raw, rightDeeper: bool, u: Raw)
    requires Shortage(r) <= 1 && Under(r) && Nodes(r) == Size(t) && u == RawMaintain(r, rightDeeper)
    ensures Under(u) && Nodes(u) == Size(t)
  {
    MaintainUnder(r, rightDeeper);
  }

  // ---------------------------------------------------------------- the rank

  /** `sb_tree_lt` on nodes with their size fields. */
  function RawLt(r: Raw, key: nat): nat
  {
    if r.Nil? then 0
    else if r.key < key then Field(r.left) + 1 + RawLt(r.right, key)
    else RawLt(r.left, key)
  }

  lemma {:induction false} RawLtExact(t: Tree, key: nat)
    ensures RawLt(Exact(t), key) == Lt(t, key)
  {
    if t.Node? {
      RawLtExact(t.left, key);
      RawLtExact(t.right, key);
    }
  }

  /** The search goes right past a subtree whose field is too small. */
  ghost predicate PassesShort(r: Raw, key: nat)
  {
    r.Cell? &&
    if r.key < key then Field(r.left) < Nodes(r.left) || PassesShort(r.right, key) else PassesShort(r.left, key)
  }

  /** Where nothing falls short, nothing is passed. */
  lemma {:induction false} NoneShort(r: Raw, key: nat)
    requires Shortage(r) == 0
    ensures !PassesShort(r, key)
  {
    if r.Cell? {
      FieldMisses(r.left);
      NoneShort(r.left, key);
      NoneShort(r.right, key);
    }
  }

  /** The rank counts the smaller keys, but for one exactly if a subtree with too small a field is passed. */
  lemma {:induction false} RawLtCounts(r: Raw, key: nat)
    requires Sorted(RawEntries(r)) && Under(r) && Shortage(r) <= 1
    ensures RawLt(r, key) + (if PassesShort(r, key) then 1 else 0) == CountBelow(RawEntries(r), key)
  {
    if r.Cell? {
      var l, e, h := RawEntries(r.left), (r.key, r.value), RawEntries(r.right);
      SortedParts(l, e, h);
      CountsAround(l, e, h, key);
      NodesEntries(r.left);
      ShortageBelow(r);
      FieldMisses(r.left);
      if r.key < key {
        RawLtCounts(r.right, key);
        if Field(r.left) < Nodes(r.left) { NoneShort(r.right, key); }
      } else {
        RawLtCounts(r.left, key);
      }
    }
  }

  lemma CountsAround(l: seq<(nat, int)>, e: (nat, int), h: seq<(nat, int)>, key: nat)
    requires forall i :: 0 <= i < |l| ==> l[i].0 <= e.0
    requires forall i :: 0 <= i < |h| ==> e.0 <= h[i].0
    ensures CountBelow(l + [e] + h, key) == if e.0 < key then |l| + 1 + CountBelow(h, key) else CountBelow(l, key)
  {
    CountsConcat(l + [e], h, key);
    CountsConcat(l, [e], key);
    CountsOutside(l, key);
    CountsOutside(h, key);
    var one: seq<(nat, int)> := [e];
    assert one[1..] == [];
  }

  // ---------------------------------------------------------------- selection

  /** The loop of `sb_tree_index`; `None` where it follows a link that is not there. */
  function RawWalk(r: Raw, index: nat): Option<(nat, int)>
  {
    if r.Nil? then None
    else if index == Field(r.left) then Some((r.key, r.value))
    else if index < Field(r.left) then RawWalk(r.left, index)
    else RawWalk(r.right, index - (Field(r.left) + 1))
  }

  lemma {:induction false} RawWalkExact(t: Tree, index: nat)
    requires index < Size(t)
    ensures RawWalk(Exact(t), index) == Some(Select(t, index))
  {
    ExactNode(t);
    if index < Size(t.left) {
      RawWalkExact(t.left, index);
    } else if index > Size(t.left) {
      RawWalkExact(t.right, index - (Size(t.left) + 1));
    }
  }

  /** The walk passes, or stops behind, a subtree whose field is too small. */
  ghost predicate Late(r: Raw, index: nat)
  {
    r.Cell? &&
    if index < Field(r.left) then Late(r.left, index)
    else Field(r.left) < Nodes(r.left) || (index > Field(r.left) && Late(r.right, index - (Field(r.left) + 1)))
  }

  /** How many entries lie in front of the end of the innermost subtree that the walk has entered to the left. */
  ghost function Reach(r: Raw, index: nat): nat
  {
    if r.Nil? then 0
    else if index < Field(r.left) then Reach(r.left, index)
    else if index == Field(r.left) then Nodes(r)
    else Nodes(r.left) + 1 + Reach(r.right, index - (Field(r.left) + 1))
  }

  lemma {:induction false} NoneLate(r: Raw, index: nat)
    requires Shortage(r) == 0
    ensures !Late(r, index)
  {
    if r.Cell? {
      FieldMisses(r.left);
      if index < Field(r.left) {
        NoneLate(r.left, index);
      } else if index > Field(r.left) {
        NoneLate(r.right, index - (Field(r.left) + 1));
      }
    }
  }

  /** The walk answers the entry with the index, or the one behind it exactly if it passes a subtree with too small a
      field; if the subtree it is in ends before that entry, it comes to a child that is not there. */
  lemma {:induction false} RawWalkAnswers(r: Raw, index: nat)
    requires Under(r) && Shortage(r) <= 1
    ensures var p := index + (if Late(r, index) then 1 else 0);
            && Reach(r, index) <= |RawEntries(r)|
            && RawWalk(r, index) == if p < Reach(r, index) then Some(RawEntries(r)[p]) else None
    decreases r, 1
  {
    if r.Cell? {
      NodesEntries(r.left);
      NodesEntries(r.right);
      ShortageBelow(r);
      FieldMisses(r.left);
      EntriesAround(RawEntries(r.left), (r.key, r.value), RawEntries(r.right), RawEntries(r));
      if index < Field(r.left) {
        RawWalkAnswers(r.left, index);
      } else if index > Field(r.left) {
        WalkRight(r, index, index - (Field(r.left) + 1));
      }
    }
  }

  lemma EntriesAround<T>(l: seq<T>, e: T, h: seq<T>, all: seq<T>)
    requires all == l + [e] + h
    ensures |all| == |l| + 1 + |h| && all[|l|] == e
    ensures forall i :: 0 <= i < |l| ==> all[i] == l[i]
    ensures forall i :: |l| < i < |all| ==> all[i] == h[i - |l| - 1]
  {
  }

  /** To the right, the entries are counted from behind the node, and the field of its left subtree stands for them. */
  lemma {:induction false} WalkRight(r: Raw, index: nat, i: nat)
    requires r.Cell? && Under(r) && Shortage(r) <= 1 && index == Field(r.left) + 1 + i
    requires |RawEntries(r.left)| == Nodes(r.left) <= Field(r.left) + Shortage(r.left)
    requires |RawEntries(r)| == |RawEntries(r.left)| + 1 + |RawEntries(r.right)|
    requires forall k :: |RawEntries(r.left)| < k < |RawEntries(r)| ==>
               RawEntries(r)[k] == RawEntries(r.right)[k - |RawEntries(r.left)| - 1]
    ensures var p := index + (if Late(r, index) then 1 else 0);
            && Reach(r, index) <= |RawEntries(r)|
            && RawWalk(r, index) == if p < Reach(r, index) then Some(RawEntries(r)[p]) else None
    decreases r, 0
  {
    RawWalkAnswers(r.right, i);
    if Field(r.left) < Nodes(r.left) { NoneLate(r.right, i); }
  }
}
