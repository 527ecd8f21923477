/** The tick scheduler of engine/lualib/lua_tick.c: a 64-bit key per registered tick, whose high half
    is the second the tick is due in. */
module Tick {
  import opened Arith
  import opened Options
  import opened SbTree
  import opened SbTreeDamage
  import opened SbTreeQueries
  import opened SbTreeNodes
  import opened SbTreeRuns

  const BAND: nat := 0x1_0000_0000

  type Seconds = s: int | -0x8000_0000 <= s < 0x8000_0000

  /** `seconds * 1073741824 * 4` in unsigned 64-bit arithmetic, after conversion from `int`. */
  function FirstKey(seconds: int): nat
  {
    var wide := seconds % 0x1_0000_0000_0000_0000;
    ((wide * 1073741824) % 0x1_0000_0000_0000_0000) * 4 % 0x1_0000_0000_0000_0000
  }

  /** Consecutive seconds own consecutive bands of 2^32 keys; only the second -1 has the wrapped
      band 0 behind it. */
  lemma FirstKeyBands(seconds: Seconds)
    ensures FirstKey(seconds) == (seconds % BAND) * BAND
    ensures 0 <= seconds ==> FirstKey(seconds) == seconds * BAND
    ensures seconds + 1 < 0x8000_0000 && seconds != -1 ==> FirstKey(seconds + 1) == FirstKey(seconds) + BAND
    ensures FirstKey(0) == 0
  {
    FirstKeyValue(seconds);
    if seconds + 1 < 0x8000_0000 { FirstKeyValue(seconds + 1); }
  }

  lemma FirstKeyValue(seconds: Seconds)
    ensures FirstKey(seconds) == (if seconds < 0 then seconds + BAND else seconds) * BAND
  {
    FirstKeyWraps(seconds);
  }

  /** The product of any 64-bit integer keeps only the low half of the integer. */
  lemma FirstKeyWraps(seconds: int)
    ensures FirstKey(seconds) == (seconds % BAND) * BAND
  {
    LowHalf(seconds);
    KeyOfWide(seconds % 0x1_0000_0000_0000_0000);
  }

  lemma LowHalf(seconds: int)
    ensures 0 <= seconds % 0x1_0000_0000_0000_0000
    ensures (seconds % 0x1_0000_0000_0000_0000) % BAND == seconds % BAND
  {
    ModOfProduct(seconds, BAND, BAND);
  }

  lemma KeyOfWide(wide: nat)
    ensures (wide * 1073741824) % 0x1_0000_0000_0000_0000 * 4 % 0x1_0000_0000_0000_0000 == (wide % BAND) * BAND
  {
    var high := wide / BAND;
    assert wide == (high / 4 * 4 + high % 4) * BAND + wide % BAND;
    KeyOfParts(high / 4, high % 4, wide % BAND);
  }

  lemma KeyOfParts(b: nat, c: nat, low: nat)
    requires c < 4 && low < BAND
    ensures (((b * 4 + c) * BAND + low) * 1073741824) % 0x1_0000_0000_0000_0000 * 4 % 0x1_0000_0000_0000_0000
            == low * BAND
  {
    var kept := c * 0x4000_0000_0000_0000 + low * 1073741824;
    DivUnique(((b * 4 + c) * BAND + low) * 1073741824, 0x1_0000_0000_0000_0000, b, kept);
    DivUnique(kept * 4, 0x1_0000_0000_0000_0000, c, low * BAND);
  }

  ghost predicate InBand(key: nat, seconds: Seconds)
  {
    FirstKey(seconds) <= key < FirstKey(seconds) + BAND
  }

  ghost predicate HasKey(s: seq<(nat, int)>, key: nat)
  {
    exists i :: 0 <= i < |s| && s[i].0 == key
  }

  /** The key `lua_tick_reg` chooses: the first of the band, or one more than the largest key below
      the next band when that key already lies in the band. */
  function ChooseKey(t: Tree, seconds: Seconds): nat
    requires seconds + 1 < 0x8000_0000
  {
    var index := Lt(t, FirstKey(seconds + 1));
    if 0 < index <= Size(t) && Select(t, index - 1).0 >= FirstKey(seconds)
    then Select(t, index - 1).0 + 1
    else FirstKey(seconds)
  }

  /** The chosen key is above every registered key of its second; it lies in the band, and is then
      new, exactly when the last key of the band is not in use.  The second -1 is the exception: its
      band ends where the keys wrap, the search finds nothing, and its first key is always chosen. */
  lemma ChooseKeyMeaning(t: Tree, seconds: Seconds)
    requires Sorted(Entries(t)) && seconds + 1 < 0x8000_0000
    ensures seconds == -1 ==> ChooseKey(t, seconds) == FirstKey(-1)
    ensures seconds != -1 ==>
              && (InBand(ChooseKey(t, seconds), seconds) <==> !HasKey(Entries(t), FirstKey(seconds) + BAND - 1))
              && (InBand(ChooseKey(t, seconds), seconds) ==> !HasKey(Entries(t), ChooseKey(t, seconds)))
              && (forall i :: 0 <= i < |Entries(t)| && InBand(Entries(t)[i].0, seconds) ==>
                    Entries(t)[i].0 < ChooseKey(t, seconds))
              && (ChooseKey(t, seconds) == FirstKey(seconds) || HasKey(Entries(t), ChooseKey(t, seconds) - 1))
  {
    if seconds == -1 {
      ChooseBeforeWrap(t);
    } else {
      ChooseInBand(t, seconds, FirstKey(seconds), ChooseKey(t, seconds));
    }
  }

  lemma ChooseBeforeWrap(t: Tree)
    requires Sorted(Entries(t))
    ensures ChooseKey(t, -1) == FirstKey(-1)
  {
    FirstKeyBands(0);
    LtIsCount(t, 0);
    CountsOutside(Entries(t), 0);
    assert Lt(t, 0) == 0;
  }

  lemma ChooseInBand(t: Tree, seconds: Seconds, first: nat, key: nat)
    requires Sorted(Entries(t)) && seconds + 1 < 0x8000_0000 && seconds != -1
    requires first == FirstKey(seconds) && key == ChooseKey(t, seconds)
    ensures first <= key < first + BAND <==> !HasKey(Entries(t), first + BAND - 1)
    ensures key < first + BAND ==> !HasKey(Entries(t), key)
    ensures forall i :: 0 <= i < |Entries(t)| && first <= Entries(t)[i].0 < first + BAND ==> Entries(t)[i].0 < key
    ensures key == first || HasKey(Entries(t), key - 1)
  {
    ChooseOnTree(t, seconds);
    ChooseOnList(Entries(t), Lt(t, FirstKey(seconds + 1)), first, key);
  }

  lemma ChooseOnTree(t: Tree, seconds: Seconds)
    requires Sorted(Entries(t)) && seconds + 1 < 0x8000_0000 && seconds != -1
    ensures var s, index := Entries(t), Lt(t, FirstKey(seconds + 1));
            && index <= |s| && FirstKey(seconds + 1) == FirstKey(seconds) + BAND
            && (forall i :: 0 <= i < |s| ==> (i < index <==> s[i].0 < FirstKey(seconds) + BAND))
            && ChooseKey(t, seconds) == if index > 0 && s[index - 1].0 >= FirstKey(seconds)
                                        then s[index - 1].0 + 1 else FirstKey(seconds)
  {
    FirstKeyBands(seconds);
    EntriesLength(t);
    var next := FirstKey(seconds + 1);
    RankSplits(t, next);
    if Lt(t, next) > 0 { SelectIsEntry(t, Lt(t, next) - 1); }
  }

  /** The choice seen on the ordered keys: `index` of them lie below the end of the band. */
  lemma ChooseOnList(s: seq<(nat, int)>, index: nat, first: nat, key: nat)
    requires Sorted(s) && index <= |s|
    requires forall i :: 0 <= i < |s| ==> (i < index <==> s[i].0 < first + BAND)
    requires key == if index > 0 && s[index - 1].0 >= first then s[index - 1].0 + 1 else first
    ensures first <= key < first + BAND <==> !HasKey(s, first + BAND - 1)
    ensures key < first + BAND ==> !HasKey(s, key)
    ensures forall i :: 0 <= i < |s| && first <= s[i].0 < first + BAND ==> s[i].0 < key
    ensures key == first || HasKey(s, key - 1)
  {
    if HasKey(s, first + BAND - 1) {
      var i :| 0 <= i < |s| && s[i].0 == first + BAND - 1;
      assert s[i].0 <= s[index - 1].0;
    }
    assert forall i :: 0 <= i < index ==> s[i].0 <= s[index - 1].0;
  }

  lemma ChoiceInserted(t: Tree, seconds: Seconds, key: nat)
    requires Sorted(Entries(t)) && seconds + 1 < 0x8000_0000 && key == ChooseKey(t, seconds)
    ensures ListStep(Entries(t), Put(key, 0), Entries(Insert(t, key, 0)))
    ensures Sorted(Entries(Insert(t, key, 0)))
    ensures seconds != -1 && !HasKey(Entries(t), FirstKey(seconds) + BAND - 1) ==>
              InBand(key, seconds) && !HasKey(Entries(t), key)
  {
    ChooseKeyMeaning(t, seconds);
    var u := StepRefines(t, Put(key, 0));
  }

  lemma DeletionFaults(t: Tree, key: nat)
    requires Sorted(Entries(t))
    ensures Delete(t, key).Fault? <==> HasKey(Entries(t), key) && MatchHollow(t, key)
    ensures !Delete(t, key).Fault? ==>
              ListStep(Entries(t), Take(key), Entries(Delete(t, key).tree)) &&
              Sorted(Entries(Delete(t, key).tree))
  {
    DeleteOutcome(t, key);
    MatchIndexMeaning(t, key);
    CountEqualZero(Entries(t), key);
    if !Delete(t, key).Fault? { var u := StepRefines(t, Take(key)); }
  }

  class TickScheduler {
    var root: TreeNode?

    ghost predicate Valid()
      reads this, root, ReprOf(root)
    {
      ValidLink(root) && this !in ReprOf(root) && Sorted(Entries(TreeOf(root)))
    }

    /** What holds after a deletion has faulted: every tick is there, and at most one size field is too small. */
    ghost predicate Kept()
      reads this, root, ReprOf(root)
    {
      && LinkedLink(root) && this !in ReprOf(root)
      && Shortage(RawOf(root)) <= 1 && Under(RawOf(root)) && Sorted(RawEntries(RawOf(root)))
    }

    ghost function Ticks(): seq<(nat, int)>
      reads this, root
    {
      Entries(TreeOf(root))
    }

    constructor ()
      ensures Valid() && Ticks() == []
    {
      root := null;
    }

    /** `lua_tick_reg`: the key is returned even when the allocator does not grant a node for it. */
    method Reg(seconds: Seconds, granted: bool) returns (key: nat)
      requires Valid() && seconds + 1 < 0x8000_0000
      modifies this, ReprOf(root)
      ensures Valid() && fresh(ReprOf(root) - old(ReprOf(root)))
      ensures key == ChooseKey(old(TreeOf(root)), seconds)
      ensures if granted then ListStep(old(Ticks()), Put(key, 0), Ticks()) else TreeOf(root) == old(TreeOf(root))
      ensures seconds != -1 && !HasKey(old(Ticks()), FirstKey(seconds) + BAND - 1) ==>
                InBand(key, seconds) && !HasKey(old(Ticks()), key)
    {
      key := Choose(seconds);
      ChoiceInserted(TreeOf(root), seconds, key);
      Store(key, granted);
    }

    method Choose(seconds: Seconds) returns (key: nat)
      requires Valid() && seconds + 1 < 0x8000_0000
      ensures key == ChooseKey(TreeOf(root), seconds)
    {
      key := FirstKey(seconds);
      var nextKey := FirstKey(seconds + 1);
      var index := LtOf(root, nextKey);
      if index > 0 {
        var node, missing := IndexOf(root, index - 1);
        ExactWalk(root, index - 1);
        if node != null && node.key >= key {
          key := node.key + 1;
        }
      }
    }

    /** `sb_tree_insert` */
    method Store(key: nat, granted: bool)
      requires Valid() && Sorted(Entries(Insert(TreeOf(root), key, 0)))
      modifies this, ReprOf(root)
      ensures Valid() && fresh(ReprOf(root) - old(ReprOf(root)))
      ensures TreeOf(root) == if granted then Insert(old(TreeOf(root)), key, 0) else old(TreeOf(root))
    {
      if !granted { return; }
      var node := new TreeNode(key, 0);
      var newRoot := InsertNode(root, node);
      root := newRoot;
    }

    /** `lua_tick_unreg`.  The source ignores the answer of the deletion; `fault` tells the runs in
        which that deletion damages the tree, which is exactly when the matched node stands for
        three or more entries and has no left child; every tick is then still there. */
    method Unreg(key: nat) returns (ghost fault: bool)
      requires Valid()
      modifies this, ReprOf(root)
      ensures fault <==> HasKey(old(Ticks()), key) && MatchHollow(old(TreeOf(root)), key)
      ensures !fault ==> Valid() && ReprOf(root) <= old(ReprOf(root))
      ensures !fault ==> ListStep(old(Ticks()), Take(key), Ticks())
      ensures fault ==> Kept() && RawEntries(RawOf(root)) == old(Ticks())
    {
      DeletionFaults(TreeOf(root), key);
      if Delete(TreeOf(root), key).Fault? {
        FaultedEntries(TreeOf(root), key);
        FaultedUnder(TreeOf(root), key);
      }
      var newRoot, record, failed := DeleteNode(root, key);
      root := newRoot;
      fault := failed;
    }

    /** Before any fault all size fields are exact. */
    lemma ValidKept()
      requires Valid()
      ensures Kept() && RawEntries(RawOf(root)) == Ticks()
    {
      ExactShortage(TreeOf(root));
      ExactUnder(TreeOf(root));
      ExactEntries(TreeOf(root));
    }

    /** `lua_tick_index`, with its conversion of the argument to 32 bits.  After a fault the answer is the next tick
        exactly if the search passes a subtree with too small a field, and `missing` where the source follows a
        link that is not there. */
    method Index(index: int) returns (key: int, missing: bool)
      requires Kept()
      ensures Valid() ==> !missing && key == if index % BAND < |Ticks()| then Ticks()[index % BAND].0 else -1
      ensures var r, i := RawOf(root), index % BAND;
              var p := i + (if Late(r, i) then 1 else 0);
              && Reach(r, i) <= |RawEntries(r)| && (missing <==> i < Field(r) && Reach(r, i) <= p)
              && (!missing ==> key == if i < Field(r) then RawEntries(r)[p].0 else -1)
    {
      RawWalkAnswers(RawOf(root), index % BAND);
      if ValidLink(root) { ExactIndex(TreeOf(root), index % BAND); }
      var node;
      node, missing := IndexOf(root, index % BAND);
      key := if node == null then -1 else node.key;
    }

    /** `lua_tick_lt`: the ticks due before a second are exactly the first so many in index order.  Of a 64-bit
        argument only the low half counts, so a negative second is taken for a late one.  After a fault it is one
        less exactly if the search passes a subtree with too small a field. */
    method DueBefore(seconds: int) returns (count: nat)
      requires Kept()
      ensures var r, key := RawOf(root), (seconds % BAND) * BAND;
              key >= 0 && count + (if PassesShort(r, key) then 1 else 0) == CountBelow(RawEntries(r), key)
      ensures Valid() ==>
                && count <= |Ticks()|
                && forall i :: 0 <= i < |Ticks()| ==> (i < count <==> Ticks()[i].0 / BAND < seconds % BAND)
    {
      var key := FirstKey(seconds);
      FirstKeyWraps(seconds);
      count := LtOf(root, key);
      RawLtCounts(RawOf(root), key);
      if Valid() { RankSplits(TreeOf(root), key); }
    }
  }

  lemma ExactIndex(t: Tree, index: nat)
    ensures |Entries(t)| == Size(t) == Field(Exact(t))
    ensures index < Size(t) ==> RawWalk(Exact(t), index) == Some(Entries(t)[index])
  {
    EntriesLength(t);
    if index < Size(t) {
      RawWalkExact(t, index);
      SelectIsEntry(t, index);
    }
  }
}
