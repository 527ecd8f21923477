/** What a deletion that finds no record does to the tree of engine/tool/sbtree.c.  It takes one off the
    size field of the matched node and rebalances with sizes that are no longer exact, so nodes carry
    their size fields here. */
module SbTreeDamage {
  import opened Options
  import opened SbTree

  datatype Raw = Nil | Cell(left: Raw, key: nat, value: int, size: nat, right: Raw)

  /** `_S` */
  function Field(r: Raw): nat
  {
    if r.Nil? then 0 else r.size
  }

  function RawEntries(r: Raw): seq<(nat, int)>
  {
    if r.Nil? then [] else RawEntries(r.left) + [(r.key, r.value)] + RawEntries(r.right)
  }

  /** The same tree with the size fields every operation but the faulting one leaves. */
  function Exact(t: Tree): (r: Raw)
    ensures Field(r) == Size(t)
  {
    if t.Leaf? then Nil else Cell(Exact(t.left), t.key, t.value, Size(t), Exact(t.right))
  }

  lemma {:induction false} ExactEntries(t: Tree)
    ensures RawEntries(Exact(t)) == Entries(t)
  {
    if t.Node? {
      ExactEntries(t.left);
      ExactEntries(t.right);
    }
  }

  // ---------------------------------------------------------------- rebalancing ends

  /** What the fields of the children call for. */
  ghost function Due(r: Raw): nat
  {
    if r.Nil? then 0 else Field(r.left) + Field(r.right) + 1
  }

  /** How much the size fields fall short of what their children call for, all nodes together. */
  ghost function Shortage(r: Raw): nat
  {
    if r.Nil? then 0
    else (if r.size < Due(r) then Due(r) - r.size else 0) + Shortage(r.left) + Shortage(r.right)
  }

  ghost function Load(r: Raw): nat
  {
    if r.Nil? then 0 else (if r.size < Due(r) then Due(r) else r.size) + Load(r.left) + Load(r.right)
  }

  /** What every rotation reduces, whatever the fields hold. */
  ghost function Measure(r: Raw): nat
  {
    if r.Nil? then 0 else Load(r) + Shortage(r.left) + Shortage(r.right)
  }

  predicate RawTooDeepLeft(r: Raw)
  {
    r.Cell? && r.left.Cell? && (Field(r.left.left) > Field(r.right) || Field(r.left.right) > Field(r.right))
  }

  predicate RawTooDeepRight(r: Raw)
  {
    r.Cell? && r.right.Cell? && (Field(r.right.right) > Field(r.left) || Field(r.right.left) > Field(r.left))
  }

  /** `left_rotate`: the root's field stays at the root, the node that moves down gets what its new
      children call for. */
  function RawRotateLeft(r: Raw): Raw
    requires r.Cell? && r.right.Cell?
  {
    var h := r.right;
    Cell(Cell(r.left, r.key, r.value, Field(r.left) + Field(h.left) + 1, h.left), h.key, h.value, r.size, h.right)
  }

  function RawRotateRight(r: Raw): Raw
    requires r.Cell? && r.left.Cell?
  {
    var l := r.left;
    Cell(l.left, l.key, l.value, r.size, Cell(l.right, r.key, r.value, Field(l.right) + Field(r.right) + 1, r.right))
  }

  function RawLiftLeft(r: Raw): Raw
    requires RawTooDeepLeft(r)
  {
    if Field(r.left.left) > Field(r.right) then RawRotateRight(r)
    else RawRotateRight(r.(left := RawRotateLeft(r.left)))
  }

  function RawLiftRight(r: Raw): Raw
    requires RawTooDeepRight(r)
  {
    if Field(r.right.right) > Field(r.left) then RawRotateLeft(r)
    else RawRotateLeft(r.(right := RawRotateRight(r.right)))
  }

  /** No heavier, no shorter, and not above in the measure. */
  ghost predicate NotWorse(u: Raw, r: Raw)
  {
    Field(u) == Field(r) && Load(u) <= Load(r) && Shortage(u) <= Shortage(r) && Measure(u) <= Measure(r)
  }

  lemma RawLiftLeftReduces(r: Raw)
    requires RawTooDeepLeft(r) && Shortage(r) <= 1
    ensures var u := RawLiftLeft(r);
            && u.Cell? && u.right.Cell? && NotWorse(u, r) && Measure(u) < Measure(r)
            && Measure(u.right.left) < Measure(u)
  {
    var l, u := r.left, RawLiftLeft(r);
    if Field(l.left) > Field(r.right) { OneTurnLeft(r, l, u); } else { TwoTurnsLeft(r, l, l.right, u); }
    MeasureBelow(u.right);
    MeasureBelow(u);
  }

  lemma RawLiftRightReduces(r: Raw)
    requires RawTooDeepRight(r) && Shortage(r) <= 1
    ensures var u := RawLiftRight(r);
            && u.Cell? && u.left.Cell? && NotWorse(u, r) && Measure(u) < Measure(r)
            && Measure(u.left.right) < Measure(u)
  {
    var h, u := r.right, RawLiftRight(r);
    if Field(h.right) > Field(r.left) { OneTurnRight(r, h, u); } else { TwoTurnsRight(r, h, h.left, u); }
    MeasureBelow(u.left);
    MeasureBelow(u);
  }

  lemma OneTurnLeft(r: Raw, l: Raw, u: Raw)
    requires r.Cell? && r.left == l && l.Cell? && Field(l.left) > Field(r.right) && Shortage(r) <= 1
    requires u == Cell(l.left, l.key, l.value, r.size,
                       Cell(l.right, r.key, r.value, Field(l.right) + Field(r.right) + 1, r.right))
    ensures NotWorse(u, r) && Measure(u) < Measure(r)
  {
    Totals(r); Totals(l); Totals(u); Totals(u.right);
  }

  lemma TwoTurnsLeft(r: Raw, l: Raw, m: Raw, u: Raw)
    requires r.Cell? && r.left == l && l.Cell? && l.right == m && m.Cell? && Field(m) > Field(r.right)
             && Shortage(r) <= 1
    requires u == Cell(Cell(l.left, l.key, l.value, Field(l.left) + Field(m.left) + 1, m.left), m.key, m.value, r.size,
                       Cell(m.right, r.key, r.value, Field(m.right) + Field(r.right) + 1, r.right))
    ensures NotWorse(u, r) && Measure(u) < Measure(r)
  {
    Totals(r); Totals(l); Totals(m); Totals(u); Totals(u.left); Totals(u.right);
  }

  lemma OneTurnRight(r: Raw, h: Raw, u: Raw)
    requires r.Cell? && r.right == h && h.Cell? && Field(h.right) > Field(r.left) && Shortage(r) <= 1
    requires u == Cell(Cell(r.left, r.key, r.value, Field(r.left) + Field(h.left) + 1, h.left), h.key, h.value, r.size,
             h.right)
    ensures NotWorse(u, r) && Measure(u) < Measure(r)
  {
    Totals(r); Totals(h); Totals(u); Totals(u.left);
  }

  lemma TwoTurnsRight(r: Raw, h: Raw, m: Raw, u: Raw)
    requires r.Cell? && r.right == h && h.Cell? && h.left == m && m.Cell? && Field(m) > Field(r.left)
             && Shortage(r) <= 1
    requires u == Cell(Cell(r.left, r.key, r.value, Field(r.left) + Field(m.left) + 1, m.left), m.key, m.value, r.size,
                       Cell(m.right, h.key, h.value, Field(m.right) + Field(h.right) + 1, h.right))
    ensures NotWorse(u, r) && Measure(u) < Measure(r)
  {
    Totals(r); Totals(h); Totals(m); Totals(u); Totals(u.left); Totals(u.right);
  }

  lemma Totals(r: Raw)
    requires r.Cell?
    ensures Load(r) == (if r.size < Due(r) then Due(r) else r.size) + Load(r.left) + Load(r.right)
    ensures Shortage(r) == (if r.size < Due(r) then Due(r) - r.size else 0) + Shortage(r.left) + Shortage(r.right)
    ensures Due(r) == Field(r.left) + Field(r.right) + 1
  {
  }

  lemma MeasureBelow(r: Raw)
    requires r.Cell?
    ensures Measure(r.left) < Measure(r) && Measure(r.right) < Measure(r)
  {
  }

  lemma ReplaceLeft(r: Raw, u: Raw)
    requires r.Cell? && NotWorse(u, r.left)
    ensures NotWorse(r.(left := u), r)
  {
  }

  lemma ReplaceRight(r: Raw, u: Raw)
    requires r.Cell? && NotWorse(u, r.right)
    ensures NotWorse(r.(right := u), r)
  {
  }

  /** `sb_tree_main_tain` on a tree in which one field may be one too small: it still ends. */
  function RawMaintain(r: Raw, rightDeeper: bool): (u: Raw)
    requires Shortage(r) <= 1
    ensures NotWorse(u, r)
    decreases Measure(r)
  {
    if !rightDeeper then
      if !RawTooDeepLeft(r) then r
      else
        RawLiftLeftReduces(r);
        var lifted := RawLiftLeft(r);
        ShortageBelow(lifted);
        ShortageBelow(lifted.right);
        var node := lifted.right.(left := RawMaintain(lifted.right.left, false));
        ReplaceLeft(lifted.right, node.left);
        ReplaceRight(lifted, node);
        RawMaintain(RawMaintain(lifted.(right := node), false), true)
    else
      if !RawTooDeepRight(r) then r
      else
        RawLiftRightReduces(r);
        var lifted := RawLiftRight(r);
        ShortageBelow(lifted);
        ShortageBelow(lifted.left);
        var node := lifted.left.(right := RawMaintain(lifted.left.right, true));
        ReplaceRight(lifted.left, node.right);
        ReplaceLeft(lifted, node);
        RawMaintain(RawMaintain(lifted.(left := node), false), true)
  }

  lemma ShortageBelow(r: Raw)
    requires r.Cell?
    ensures Shortage(r.left) <= Shortage(r) && Shortage(r.right) <= Shortage(r)
  {
  }

  /** It never changes what is stored nor the order it is stored in. */
  lemma {:induction false} RawMaintainEntries(r: Raw, rightDeeper: bool)
    requires Shortage(r) <= 1
    ensures RawEntries(RawMaintain(r, rightDeeper)) == RawEntries(r)
    decreases Measure(r)
  {
    if !rightDeeper && RawTooDeepLeft(r) {
      RawLiftLeftReduces(r);
      var lifted := RawLiftLeft(r);
      ShortageBelow(lifted);
      ShortageBelow(lifted.right);
      var node := lifted.right.(left := RawMaintain(lifted.right.left, false));
      ReplaceLeft(lifted.right, node.left);
      ReplaceRight(lifted, node);
      var next := lifted.(right := node);
      RawMaintainEntries(lifted.right.left, false);
      RawMaintainEntries(next, false);
      RawMaintainEntries(RawMaintain(next, false), true);
      RawLiftLeftEntries(r);
    }
    if rightDeeper && RawTooDeepRight(r) {
      RawLiftRightReduces(r);
      var lifted := RawLiftRight(r);
      ShortageBelow(lifted);
      ShortageBelow(lifted.left);
      var node := lifted.left.(right := RawMaintain(lifted.left.right, true));
      ReplaceRight(lifted.left, node.right);
      ReplaceLeft(lifted, node);
      var next := lifted.(left := node);
      RawMaintainEntries(lifted.left.right, true);
      RawMaintainEntries(next, false);
      RawMaintainEntries(RawMaintain(next, false), true);
      RawLiftRightEntries(r);
    }
  }

  lemma RawLiftLeftEntries(r: Raw)
    requires RawTooDeepLeft(r)
    ensures RawEntries(RawLiftLeft(r)) == RawEntries(r)
  {
    var l, u := r.left, RawLiftLeft(r);
    if Field(l.left) > Field(r.right) {
      Regroup(RawEntries(l.left), [(l.key, l.value)], RawEntries(l.right), [(r.key, r.value)], RawEntries(r.right));
    } else {
      var m := l.right;
      assert RawEntries(l) == RawEntries(l.left) + [(l.key, l.value)] + RawEntries(m);
      RegroupTwice(RawEntries(l.left), [(l.key, l.value)], RawEntries(m.left), [(m.key, m.value)], RawEntries(m.right),
                   [(r.key, r.value)], RawEntries(r.right));
    }
  }

  lemma RawLiftRightEntries(r: Raw)
    requires RawTooDeepRight(r)
    ensures RawEntries(RawLiftRight(r)) == RawEntries(r)
  {
    var h, u := r.right, RawLiftRight(r);
    if Field(h.right) > Field(r.left) {
      Regroup(RawEntries(r.left), [(r.key, r.value)], RawEntries(h.left), [(h.key, h.value)], RawEntries(h.right));
    } else {
      var m := h.left;
      assert RawEntries(h) == RawEntries(m) + [(h.key, h.value)] + RawEntries(h.right);
      RegroupTwice(RawEntries(r.left), [(r.key, r.value)], RawEntries(m.left), [(m.key, m.value)], RawEntries(m.right),
                   [(h.key, h.value)], RawEntries(h.right));
    }
  }

  lemma Regroup<T>(a: seq<T>, x: seq<T>, b: seq<T>, y: seq<T>, c: seq<T>)
    ensures (a + x + b) + y + c == a + x + (b + y + c)
  {
  }

  lemma RegroupTwice<T>(a: seq<T>, x: seq<T>, b: seq<T>, y: seq<T>, c: seq<T>, z: seq<T>, d: seq<T>)
    ensures (a + x + (b + y + c)) + z + d == (a + x + b) + y + (c + z + d)
    ensures a + x + ((b + y + c) + z + d) == (a + x + b) + y + (c + z + d)
  {
  }

  /** The tree after the rotations of one round and the recursive call on what the old root is left with. */
  function RawAfterLift(r: Raw, rightDeeper: bool): (u: Raw)
    requires Shortage(r) <= 1 && if rightDeeper then RawTooDeepRight(r) else RawTooDeepLeft(r)
    ensures Shortage(u) <= 1 && Measure(u) < Measure(r)
  {
    if !rightDeeper then
      RawLiftLeftReduces(r);
      var lifted := RawLiftLeft(r);
      ShortageBelow(lifted);
      ShortageBelow(lifted.right);
      var node := lifted.right.(left := RawMaintain(lifted.right.left, false));
      ReplaceLeft(lifted.right, node.left);
      ReplaceRight(lifted, node);
      lifted.(right := node)
    else
      RawLiftRightReduces(r);
      var lifted := RawLiftRight(r);
      ShortageBelow(lifted);
      ShortageBelow(lifted.left);
      var node := lifted.left.(right := RawMaintain(lifted.left.right, true));
      ReplaceRight(lifted.left, node.right);
      ReplaceLeft(lifted, node);
      lifted.(left := node)
  }

  lemma RawMaintainRound(r: Raw, rightDeeper: bool)
    requires Shortage(r) <= 1 && if rightDeeper then RawTooDeepRight(r) else RawTooDeepLeft(r)
    ensures var next := RawAfterLift(r, rightDeeper);
            && Shortage(next) <= 1 && Shortage(RawMaintain(next, false)) <= 1
            && Measure(RawMaintain(next, false)) <= Measure(next) < Measure(r)
            && RawMaintain(r, rightDeeper) == RawMaintain(RawMaintain(next, false), true)
  {
    if rightDeeper { RawLiftRightReduces(r); } else { RawLiftLeftReduces(r); }
  }

  // ---------------------------------------------------------------- the faulting deletion

  lemma {:induction false} ExactShortage(t: Tree)
    ensures Shortage(Exact(t)) == 0
  {
    if t.Node? {
      ExactShortage(t.left);
      ExactShortage(t.right);
    }
  }

  /** The tree a faulting deletion leaves: no node is unlinked, the matched one has one taken off its size
      field, and every node on the way back up is rebalanced, its own field unchanged. */
  function Faulted(t: Tree, key: nat): (r: Raw)
    requires Delete(t, key).Fault?
    ensures Shortage(r) <= 1 && Size(t) - 1 <= Field(r) <= Size(t)
  {
    ExactShortage(t.left);
    ExactShortage(t.right);
    if key == t.key then
      RawMaintain(RawMaintain(Cell(Exact(t.left), t.key, t.value, Size(t) - 1, Exact(t.right)), true), false)
    else if key < t.key then
      RawMaintain(Cell(Faulted(t.left, key), t.key, t.value, Size(t), Exact(t.right)), true)
    else
      RawMaintain(Cell(Exact(t.left), t.key, t.value, Size(t), Faulted(t.right, key)), false)
  }

  /** The faulting deletion, which answers that it removed nothing, has indeed removed nothing: every
      entry is still there, in order. */
  lemma {:induction false} FaultedEntries(t: Tree, key: nat)
    requires Delete(t, key).Fault?
    ensures RawEntries(Faulted(t, key)) == Entries(t)
  {
    ExactEntries(t.left);
    ExactEntries(t.right);
    if key == t.key {
      ExactShortage(t.left);
      ExactShortage(t.right);
      FaultedHere(t, key, Cell(Exact(t.left), t.key, t.value, Size(t) - 1, Exact(t.right)));
    } else if key < t.key {
      FaultedEntries(t.left, key);
      ExactShortage(t.right);
      FaultedBelow(t, key, Cell(Faulted(t.left, key), t.key, t.value, Size(t), Exact(t.right)), true);
    } else {
      FaultedEntries(t.right, key);
      ExactShortage(t.left);
      FaultedBelow(t, key, Cell(Exact(t.left), t.key, t.value, Size(t), Faulted(t.right, key)), false);
    }
  }

  lemma FaultedHere(t: Tree, key: nat, r: Raw)
    requires Delete(t, key).Fault? && r.Cell? && key == t.key && Shortage(r) <= 1
    requires RawEntries(r.left) == Entries(t.left) && RawEntries(r.right) == Entries(t.right)
             && (r.key, r.value) == (t.key, t.value)
    requires Faulted(t, key) == RawMaintain(RawMaintain(r, true), false)
    ensures RawEntries(Faulted(t, key)) == Entries(t)
  {
    RawMaintainEntries(r, true);
    RawMaintainEntries(RawMaintain(r, true), false);
  }

  lemma FaultedBelow(t: Tree, key: nat, r: Raw, rightDeeper: bool)
    requires Delete(t, key).Fault? && r.Cell? && key != t.key && Shortage(r) <= 1
    requires RawEntries(r.left) == Entries(t.left) && RawEntries(r.right) == Entries(t.right)
             && (r.key, r.value) == (t.key, t.value)
    requires Faulted(t, key) == RawMaintain(r, rightDeeper)
    ensures RawEntries(Faulted(t, key)) == Entries(t)
  {
    RawMaintainEntries(r, rightDeeper);
  }

  // ---------------------------------------------------------------- agreement with exact sizes

  /** On exact sizes this is the rebalancing of the tree without fields. */
  lemma {:induction false} RawMaintainExact(t: Tree, rightDeeper: bool)
    ensures Shortage(Exact(t)) == 0
    ensures RawMaintain(Exact(t), rightDeeper) == Exact(Maintain(t, rightDeeper))
    decreases Weight(t)
  {
    ExactShortage(t);
    if if rightDeeper then TooDeepRight(t) else TooDeepLeft(t) {
      AfterLiftDecreases(t, rightDeeper);
      var next := AfterLift(t, rightDeeper);
      if rightDeeper {
        LiftRightDecreases(t);
        RawMaintainExact(LiftRight(t).left.right, true);
        AfterExactRight(t);
      } else {
        LiftLeftDecreases(t);
        RawMaintainExact(LiftLeft(t).right.left, false);
        AfterExactLeft(t);
      }
      RawMaintainExact(next, false);
      RawMaintainExact(Maintain(next, false), true);
    }
  }

  lemma AfterExactLeft(t: Tree)
    requires TooDeepLeft(t) && LiftLeft(t).Node? && LiftLeft(t).right.Node? && Shortage(Exact(t)) == 0
    requires var sub := LiftLeft(t).right.left;
             Shortage(Exact(sub)) <= 1 && RawMaintain(Exact(sub), false) == Exact(Maintain(sub, false))
    ensures RawTooDeepLeft(Exact(t)) && RawLiftLeft(Exact(t)) == Exact(LiftLeft(t))
    ensures Shortage(Exact(AfterLift(t, false))) <= 1
    ensures RawMaintain(Exact(t), false) == RawMaintain(RawMaintain(Exact(AfterLift(t, false)), false), true)
  {
    LiftExactLeft(t);
    var u := LiftLeft(t);
    LiftLeftDecreases(t);
    ExactShortage(AfterLift(t, false));
    var node := u.right.(left := Maintain(u.right.left, false));
    assert Exact(u.right).(left := Exact(node.left)) == Exact(node);
    assert Exact(u).(right := Exact(node)) == Exact(AfterLift(t, false));
  }

  lemma AfterExactRight(t: Tree)
    requires TooDeepRight(t) && LiftRight(t).Node? && LiftRight(t).left.Node? && Shortage(Exact(t)) == 0
    requires var sub := LiftRight(t).left.right;
             Shortage(Exact(sub)) <= 1 && RawMaintain(Exact(sub), true) == Exact(Maintain(sub, true))
    ensures RawTooDeepRight(Exact(t)) && RawLiftRight(Exact(t)) == Exact(LiftRight(t))
    ensures Shortage(Exact(AfterLift(t, true))) <= 1
    ensures RawMaintain(Exact(t), true) == RawMaintain(RawMaintain(Exact(AfterLift(t, true)), false), true)
  {
    LiftExactRight(t);
    var u := LiftRight(t);
    LiftRightDecreases(t);
    ExactShortage(AfterLift(t, true));
    var node := u.left.(right := Maintain(u.left.right, true));
    assert Exact(u.left).(right := Exact(node.right)) == Exact(node);
    assert Exact(u).(left := Exact(node)) == Exact(AfterLift(t, true));
  }

  lemma LiftExactLeft(t: Tree)
    requires TooDeepLeft(t)
    ensures RawTooDeepLeft(Exact(t)) && RawLiftLeft(Exact(t)) == Exact(LiftLeft(t))
  {
    if Size(t.left.left) > Size(t.right) {
      ExactRotateRight(t);
    } else {
      ExactRotateLeft(t.left);
      ExactWithLeft(t, RotateLeft(t.left));
      ExactRotateRight(t.(left := RotateLeft(t.left)));
    }
  }

  lemma LiftExactRight(t: Tree)
    requires TooDeepRight(t)
    ensures RawTooDeepRight(Exact(t)) && RawLiftRight(Exact(t)) == Exact(LiftRight(t))
  {
    if Size(t.right.right) > Size(t.left) {
      ExactRotateLeft(t);
    } else {
      ExactRotateRight(t.right);
      ExactWithRight(t, RotateRight(t.right));
      ExactRotateLeft(t.(right := RotateRight(t.right)));
    }
  }

  lemma ExactRotateLeft(t: Tree)
    requires t.Node? && t.right.Node?
    ensures Exact(t).Cell? && Exact(t).right.Cell? && RawRotateLeft(Exact(t)) == Exact(RotateLeft(t))
    ensures Size(RotateLeft(t)) == Size(t)
  {
    var h, u := t.right, RotateLeft(t);
    LeftTurnSizes(t, h, u, u.left);
    ExactNode(t); ExactNode(h); ExactNode(u); ExactNode(u.left);
    RotatedLeft(Exact(t), Exact(h), Exact(u), Exact(u.left));
  }

  lemma RotatedLeft(x: Raw, h: Raw, y: Raw, n: Raw)
    requires x.Cell? && x.right == h && h.Cell? && y == Cell(n, h.key, h.value, x.size, h.right)
    requires n == Cell(x.left, x.key, x.value, Field(x.left) + Field(h.left) + 1, h.left)
    ensures RawRotateLeft(x) == y
  {
  }

  lemma ExactRotateRight(t: Tree)
    requires t.Node? && t.left.Node?
    ensures Exact(t).Cell? && Exact(t).left.Cell? && RawRotateRight(Exact(t)) == Exact(RotateRight(t))
    ensures Size(RotateRight(t)) == Size(t)
  {
    var l, u := t.left, RotateRight(t);
    RightTurnSizes(t, l, u, u.right);
    ExactNode(t); ExactNode(l); ExactNode(u); ExactNode(u.right);
    RotatedRight(Exact(t), Exact(l), Exact(u), Exact(u.right));
  }

  lemma RotatedRight(x: Raw, l: Raw, y: Raw, n: Raw)
    requires x.Cell? && x.left == l && l.Cell? && y == Cell(l.left, l.key, l.value, x.size, n)
    requires n == Cell(l.right, x.key, x.value, Field(l.right) + Field(x.right) + 1, x.right)
    ensures RawRotateRight(x) == y
  {
  }

  lemma LeftTurnSizes(t: Tree, h: Tree, u: Tree, n: Tree)
    requires t.Node? && t.right == h && h.Node? && u.Node? && u.left == n && n.Node?
    requires n.left == t.left && n.right == h.left && u.right == h.right
    ensures Size(u) == Size(t) && Size(n) == Size(n.left) + Size(n.right) + 1
  {
  }

  lemma RightTurnSizes(t: Tree, l: Tree, u: Tree, n: Tree)
    requires t.Node? && t.left == l && l.Node? && u.Node? && u.right == n && n.Node?
    requires n.left == l.right && n.right == t.right && u.left == l.left
    ensures Size(u) == Size(t) && Size(n) == Size(n.left) + Size(n.right) + 1
  {
  }

  lemma ExactNode(x: Tree)
    requires x.Node?
    ensures Exact(x) == Cell(Exact(x.left), x.key, x.value, Size(x), Exact(x.right))
    ensures Field(Exact(x.left)) == Size(x.left) && Field(Exact(x.right)) == Size(x.right)
  {
  }

  lemma ExactWithLeft(t: Tree, l: Tree)
    requires t.Node? && Size(l) == Size(t.left)
    ensures Exact(t).Cell? && Exact(t.(left := l)) == Exact(t).(left := Exact(l))
  {
  }

  lemma ExactWithRight(t: Tree, h: Tree)
    requires t.Node? && Size(h) == Size(t.right)
    ensures Exact(t).Cell? && Exact(t.(right := h)) == Exact(t).(right := Exact(h))
  {
  }

  // ---------------------------------------------------------------- searching

  /** `sb_tree_find` on nodes; it never looks at a size. */
  function RawFind(r: Raw, key: nat): Option<int>
  {
    if r.Nil? then None
    else if key < r.key then RawFind(r.left, key)
    else if r.key < key then RawFind(r.right, key)
    else Some(r.value)
  }

  /** Whatever is found is an entry with the key. */
  lemma {:induction false} RawFindIsEntry(r: Raw, key: nat)
    ensures RawFind(r, key).Some? ==> (key, RawFind(r, key).value) in RawEntries(r)
  {
    if r != Nil {
      RawFindIsEntry(r.left, key);
      RawFindIsEntry(r.right, key);
      if r.key == key { assert RawEntries(r)[|RawEntries(r.left)|] == (key, r.value); }
    }
  }

  lemma {:induction false} RawFindExact(t: Tree, key: nat)
    ensures RawFind(Exact(t), key) == Find(t, key)
  {
    if t.Node? {
      RawFindExact(t.left, key);
      RawFindExact(t.right, key);
    }
  }

  /** On ordered keys a search finds a stored key, whatever rotations did to the tree. */
  lemma {:induction false} RawFindMeaning(r: Raw, key: nat) returns (i: int)
    requires Sorted(RawEntries(r))
    ensures -1 <= i < |RawEntries(r)|
    ensures i >= 0 ==> RawEntries(r)[i].0 == key && RawFind(r, key) == Some(RawEntries(r)[i].1)
    ensures i < 0 ==> RawFind(r, key).None? && forall j :: 0 <= j < |RawEntries(r)| ==> RawEntries(r)[j].0 != key
  {
    if r.Nil? {
      i := -1;
    } else {
      var l, e, h := RawEntries(r.left), (r.key, r.value), RawEntries(r.right);
      SortedParts(l, e, h);
      if key < r.key {
        i := RawFindMeaning(r.left, key);
      } else if r.key < key {
        i := RawFindMeaning(r.right, key);
        if i >= 0 { i := i + |l| + 1; }
      } else {
        i := |l|;
      }
    }
  }
}
