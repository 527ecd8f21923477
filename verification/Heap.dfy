/** The binary heap of engine/tool/heap.c, in either orientation. */
module Heap {

  /** The first key belongs above the second. */
  predicate Beats(big: bool, a: int, b: int)
  {
    if big then a > b else a < b
  }

  function Parent(i: nat): nat
    requires i > 0
  {
    (i - 1) / 2
  }

  ghost predicate OrderedAt(big: bool, s: seq<int>, j: nat)
    requires 0 < j < |s|
  {
    !Beats(big, s[j], s[Parent(j)])
  }

  /** No key beats the key of its parent. */
  ghost predicate Ordered(big: bool, s: seq<int>)
  {
    forall j :: 0 < j < |s| ==> OrderedAt(big, s, j)
  }

  // ---------------------------------------------------------------- pushing

  /** Moves the hole at `i` up until the key may be put there. */
  ghost function SiftUp(big: bool, s: seq<int>, i: nat, key: int): (r: seq<int>)
    requires i < |s|
    ensures |r| == |s|
    decreases i
  {
    if i == 0 || !Beats(big, key, s[Parent(i)]) then s[i := key]
    else SiftUp(big, s[i := s[Parent(i)]], Parent(i), key)
  }

  ghost function Push(big: bool, s: seq<int>, key: int): (r: seq<int>)
    ensures |r| == |s| + 1
  {
    SiftUp(big, s + [key], |s|, key)
  }

  /** Everything is in order but the hole: its children do not beat what is above it, nor the key. */
  ghost predicate HoleAt(big: bool, s: seq<int>, i: nat)
    requires i < |s|
  {
    && (forall j :: 0 < j < |s| && j != i && Parent(j) != i ==> OrderedAt(big, s, j))
    && (forall j :: 0 < j < |s| && Parent(j) == i && i > 0 ==> !Beats(big, s[j], s[Parent(i)]))
  }

  ghost predicate ChildrenBelow(big: bool, s: seq<int>, i: nat, key: int)
  {
    forall j :: 0 < j < |s| && Parent(j) == i ==> !Beats(big, s[j], key)
  }

  lemma {:induction false} SiftUpOrdered(big: bool, s: seq<int>, i: nat, key: int)
    requires i < |s| && HoleAt(big, s, i) && ChildrenBelow(big, s, i, key)
    ensures Ordered(big, SiftUp(big, s, i, key))
    decreases i
  {
    if i == 0 || !Beats(big, key, s[Parent(i)]) {
      Filled(big, s, i, key);
    } else {
      HoleUp(big, s, i, key);
      SiftUpOrdered(big, s[i := s[Parent(i)]], Parent(i), key);
    }
  }

  /** Filling the hole with a key that fits there. */
  lemma Filled(big: bool, s: seq<int>, i: nat, key: int)
    requires i < |s| && HoleAt(big, s, i) && ChildrenBelow(big, s, i, key)
    requires i > 0 ==> !Beats(big, key, s[Parent(i)])
    ensures Ordered(big, s[i := key])
  {
    var t := s[i := key];
    forall j | 0 < j < |t| ensures OrderedAt(big, t, j) {
      if j != i && Parent(j) != i { assert OrderedAt(big, s, j); }
    }
  }

  lemma HoleUp(big: bool, s: seq<int>, i: nat, key: int)
    requires 0 < i < |s| && HoleAt(big, s, i) && ChildrenBelow(big, s, i, key) && Beats(big, key, s[Parent(i)])
    ensures var t := s[i := s[Parent(i)]]; HoleAt(big, t, Parent(i)) && ChildrenBelow(big, t, Parent(i), key)
  {
    var p := Parent(i);
    var t := s[i := s[p]];
    forall j | 0 < j < |t| && j != p && Parent(j) != p ensures OrderedAt(big, t, j) {
      if Parent(j) != i { assert OrderedAt(big, s, j); }
    }
    forall j | 0 < j < |t| && Parent(j) == p
      ensures !Beats(big, t[j], key) && (p > 0 ==> !Beats(big, t[j], t[Parent(p)]))
    {
      if j != i { assert OrderedAt(big, s, j); }
      if p > 0 { assert OrderedAt(big, s, p); }
    }
  }

  // ---------------------------------------------------------------- popping

  /** The child that belongs above the other. */
  ghost function UpperChild(big: bool, s: seq<int>, i: nat): (c: nat)
    requires 2 * i + 1 < |s|
    ensures c < |s| && c > 0 && Parent(c) == i
    ensures forall j :: 0 < j < |s| && Parent(j) == i ==> !Beats(big, s[j], s[c])
  {
    var c := 2 * i + 1;
    assert forall j :: 0 < j < |s| && Parent(j) == i ==> j == c || j == c + 1;
    if c + 1 < |s| && Beats(big, s[c + 1], s[c]) then c + 1 else c
  }

  /** Moves the hole at `i` down until the key may be put there. */
  ghost function SiftDown(big: bool, s: seq<int>, i: nat, key: int): (r: seq<int>)
    requires i < |s|
    ensures |r| == |s|
    decreases |s| - i
  {
    if 2 * i + 1 >= |s| then s[i := key]
    else
      var c := UpperChild(big, s, i);
      if Beats(big, s[c], key) then SiftDown(big, s[i := s[c]], c, key) else s[i := key]
  }

  /** What `heap_pop` leaves: the last key goes down from the place of the one removed. */
  ghost function Pop(big: bool, s: seq<int>, i: nat): (r: seq<int>)
    requires i < |s|
    ensures |r| == |s| - 1
  {
    var last := |s| - 1;
    if i == last then s[..last] else SiftDown(big, s[..last], i, s[last])
  }

  lemma {:induction false} SiftDownOrdered(big: bool, s: seq<int>, i: nat, key: int)
    requires i < |s| && HoleAt(big, s, i) && (i > 0 ==> !Beats(big, key, s[Parent(i)]))
    ensures Ordered(big, SiftDown(big, s, i, key))
    decreases |s| - i
  {
    if 2 * i + 1 >= |s| {
      Filled(big, s, i, key);
    } else {
      var c := UpperChild(big, s, i);
      if Beats(big, s[c], key) {
        HoleDown(big, s, i, c);
        SiftDownOrdered(big, s[i := s[c]], c, key);
      } else {
        Filled(big, s, i, key);
      }
    }
  }

  lemma HoleDown(big: bool, s: seq<int>, i: nat, c: nat)
    requires 2 * i + 1 < |s| && HoleAt(big, s, i) && c == UpperChild(big, s, i)
    ensures HoleAt(big, s[i := s[c]], c)
  {
    var t := s[i := s[c]];
    forall j | 0 < j < |t| && j != c && Parent(j) != c ensures OrderedAt(big, t, j) {
      if j != i && Parent(j) != i { assert OrderedAt(big, s, j); }
    }
    forall j | 0 < j < |t| && Parent(j) == c ensures !Beats(big, t[j], t[Parent(c)]) {
      assert OrderedAt(big, s, j);
    }
  }

  /** Removing a key from a heap leaves a heap exactly when it was the last or the first, or the last key
      does not beat the parent of the hole: the key is only ever moved down. */
  lemma PopOrdered(big: bool, s: seq<int>, i: nat)
    requires Ordered(big, s) && i < |s|
    ensures Ordered(big, Pop(big, s, i)) <==>
              i == |s| - 1 || i == 0 || !Beats(big, s[|s| - 1], s[Parent(i)])
  {
    var last := |s| - 1;
    var front, key := s[..last], s[last];
    forall j | 0 < j < |front| ensures OrderedAt(big, front, j) { assert OrderedAt(big, s, j); }
    if i < last {
      OrderedIsHole(big, front, i);
      if i == 0 || !Beats(big, key, s[Parent(i)]) {
        SiftDownOrdered(big, front, i, key);
      } else {
        StaysAbove(big, front, i, key);
        assert !OrderedAt(big, front[i := key], i);
      }
    }
  }

  /** In either orientation there is a heap that such a removal breaks. */
  lemma PopBreaksHeap(big: bool) returns (s: seq<int>, i: nat)
    ensures Ordered(big, s) && i < |s| && !Ordered(big, Pop(big, s, i))
  {
    var k := if big then -1 else 1;
    s, i := [0, 10 * k, k, 11 * k, 12 * k, 2 * k], 3;
    PopOrdered(big, s, i);
  }

  lemma OrderedIsHole(big: bool, s: seq<int>, i: nat)
    requires Ordered(big, s) && i < |s|
    ensures HoleAt(big, s, i)
  {
    forall j | 0 < j < |s| && Parent(j) == i && i > 0 ensures !Beats(big, s[j], s[Parent(i)]) {
      assert OrderedAt(big, s, j) && OrderedAt(big, s, i);
    }
  }

  /** A key that beats the parent of the hole beats the children as well, and is not moved. */
  lemma StaysAbove(big: bool, s: seq<int>, i: nat, key: int)
    requires 0 < i < |s| && HoleAt(big, s, i) && Beats(big, key, s[Parent(i)])
    ensures SiftDown(big, s, i, key) == s[i := key]
  {
    if 2 * i + 1 < |s| {
      var c := UpperChild(big, s, i);
      assert !Beats(big, s[c], s[Parent(i)]);
    }
  }

  lemma PushOrdered(big: bool, s: seq<int>, key: int)
    requires Ordered(big, s)
    ensures Ordered(big, Push(big, s, key))
  {
    var t := s + [key];
    forall j | 0 < j < |t| && j != |s| && Parent(j) != |s| ensures OrderedAt(big, t, j) {
      assert OrderedAt(big, s, j);
    }
    assert forall j :: 0 < j < |t| ==> Parent(j) != |s|;
    SiftUpOrdered(big, t, |s|, key);
  }

  /** The first key of a heap is beaten by none. */
  lemma {:induction false} HeadUnbeaten(big: bool, s: seq<int>, j: nat)
    requires Ordered(big, s) && j < |s|
    ensures !Beats(big, s[j], s[0])
  {
    if j > 0 {
      assert OrderedAt(big, s, j);
      HeadUnbeaten(big, s, Parent(j));
    }
  }

  // ---------------------------------------------------------------- no key is lost or made

  lemma MoveHole(s: seq<int>, i: nat, j: nat, key: int)
    requires i < |s| && j < |s| && i != j
    ensures multiset(s[i := s[j]][j := key]) == multiset(s[i := key])
  {
    var a, b := s[i := s[j]], s[i := key];
    assert a[j := key] == b[i := b[j]][j := b[i]];
  }

  lemma {:induction false} SiftUpKeeps(big: bool, s: seq<int>, i: nat, key: int)
    requires i < |s|
    ensures multiset(SiftUp(big, s, i, key)) == multiset(s[i := key])
    decreases i
  {
    if i > 0 && Beats(big, key, s[Parent(i)]) {
      SiftUpKeeps(big, s[i := s[Parent(i)]], Parent(i), key);
      MoveHole(s, i, Parent(i), key);
    }
  }

  lemma PushAdds(big: bool, s: seq<int>, key: int)
    ensures multiset(Push(big, s, key)) == multiset(s) + multiset{key}
  {
    SiftUpKeeps(big, s + [key], |s|, key);
    assert (s + [key])[|s| := key] == s + [key];
  }

  lemma {:induction false} SiftDownKeeps(big: bool, s: seq<int>, i: nat, key: int)
    requires i < |s|
    ensures multiset(SiftDown(big, s, i, key)) == multiset(s[i := key])
    decreases |s| - i
  {
    if 2 * i + 1 < |s| {
      var c := UpperChild(big, s, i);
      if Beats(big, s[c], key) {
        SiftDownKeeps(big, s[i := s[c]], c, key);
        MoveHole(s, i, c, key);
      }
    }
  }

  /** Removing takes exactly the key at the index, at every index. */
  lemma PopRemoves(big: bool, s: seq<int>, i: nat)
    requires i < |s|
    ensures multiset(Pop(big, s, i)) == multiset(s) - multiset{s[i]}
  {
    var last := |s| - 1;
    var front := s[..last];
    assert s == front + [s[last]];
    assert multiset(s) == multiset(front) + multiset{s[last]};
    if i < last { SiftDownKeeps(big, front, i, s[last]); }
  }

  // ---------------------------------------------------------------- sorting

  /** The keys in the order in which removing the first again and again gives them. */
  ghost function Drain(big: bool, s: seq<int>): (r: seq<int>)
    ensures |r| == |s|
    decreases |s|
  {
    if s == [] then [] else [s[0]] + Drain(big, Pop(big, s, 0))
  }

  ghost predicate Sorted(big: bool, d: seq<int>)
  {
    forall i, j :: 0 <= i < j < |d| ==> !Beats(big, d[j], d[i])
  }

  /** That order is sorted, and has every key of the heap. */
  lemma {:induction false} DrainSorts(big: bool, s: seq<int>)
    requires Ordered(big, s)
    ensures multiset(Drain(big, s)) == multiset(s) && Sorted(big, Drain(big, s))
    decreases |s|
  {
    if s != [] {
      var rest := Pop(big, s, 0);
      PopOrdered(big, s, 0);
      PopRemoves(big, s, 0);
      DrainSorts(big, rest);
      FirstInFront(big, s, rest, Drain(big, rest));
    }
  }

  lemma FirstInFront(big: bool, s: seq<int>, rest: seq<int>, d: seq<int>)
    requires Ordered(big, s) && s != [] && multiset(rest) == multiset(s) - multiset{s[0]}
    requires multiset(d) == multiset(rest) && Sorted(big, d)
    ensures multiset([s[0]] + d) == multiset(s) && Sorted(big, [s[0]] + d)
  {
    assert s[0] in multiset(s);
    assert multiset(s) == multiset{s[0]} + multiset(rest);
    FirstUnbeaten(big, s, d);
  }

  lemma FirstUnbeaten(big: bool, s: seq<int>, d: seq<int>)
    requires Ordered(big, s) && s != [] && multiset(d) <= multiset(s)
    ensures forall j :: 0 <= j < |d| ==> !Beats(big, d[j], s[0])
  {
    forall j | 0 <= j < |d| ensures !Beats(big, d[j], s[0]) {
      assert d[j] in multiset(d);
      assert d[j] in multiset(s);
      var k :| 0 <= k < |s| && s[k] == d[j];
      HeadUnbeaten(big, s, k);
    }
  }

  // ---------------------------------------------------------------- the heap in memory

  /** What the check after an operation makes of `length` nodes with `size` in use: the eighth sparse one in a row
      gives half of them back, and the keys are lost exactly if the allocator does not grant that. */
  ghost predicate Checked(size: int, length: nat, tick: nat, granted: bool, ok: bool, length': nat, tick': nat)
  {
    var sparse := 2 * size < length;
    && tick' == (if sparse && tick < 7 then tick + 1 else 0)
    && (ok <==> !sparse || tick != 7 || granted)
    && length' == if !ok then 0 else if sparse && tick == 7 then (length + 1) / 2 else length
  }

  /** The nodes that `heap_push` makes room in. */
  ghost function Enlarged(size: nat, length: nat): nat
  {
    if size < length then length else if length < 8 then 8 else 2 * length
  }

  /** `struct heap` */
  class KeyHeap {
    const bigHead: bool
    var nodes: array<int>
    var size: nat
    var gcTick: nat

    ghost predicate Valid()
      reads this
    {
      size <= nodes.Length && gcTick < 8
    }

    ghost function Keys(): seq<int>
      requires size <= nodes.Length
      reads this, nodes
    {
      nodes[..size]
    }

    constructor (bigHead: bool)
      ensures Valid() && Keys() == [] && this.bigHead == bigHead && fresh(nodes)
    {
      this.bigHead := bigHead;
      nodes := new int[0];
      size := 0;
      gcTick := 0;
      new;
      assert nodes[..size] == [];
    }

    /** `realloc` of the nodes, which gives everything up when the allocator does not grant it. */
    method Resize(newSize: nat, granted: bool)
      requires Valid() && size <= newSize
      modifies this`nodes, this`size
      ensures Valid() && fresh(nodes) && nodes.Length == (if granted then newSize else 0)
      ensures Keys() == if granted then old(Keys()) else []
    {
      if !granted {
        nodes := new int[0];
        size := 0;
        return;
      }
      var moved := new int[newSize];
      forall k | 0 <= k < size { moved[k] := nodes[k]; }
      assert moved[..size] == nodes[..size];
      nodes := moved;
    }

    /** `check_gc`: after eight calls in a row with less than half of the nodes in use, half of them are
        given back, and no key with them unless the allocator does not grant it. */
    method CheckGc(granted: bool) returns (ok: bool)
      requires Valid()
      modifies this
      ensures Valid() && (nodes == old(nodes) || fresh(nodes))
      ensures Keys() == if ok then old(Keys()) else []
      ensures Checked(old(size), old(nodes.Length), old(gcTick), granted, ok, nodes.Length, gcTick)
    {
      ok := true;
      if size * 2 >= nodes.Length {
        gcTick := 0;
        return;
      }
      gcTick := gcTick + 1;
      if gcTick >= 8 {
        gcTick := 0;
        Resize((nodes.Length + 1) / 2, granted);
        ok := granted;
      }
    }

    /** `heap_push`, with the answers of the allocator to growing and to giving back.  A key joins the others unless
        growing is due and not granted, or giving back is due and not granted, after which nothing is left. */
    method PushKey(key: int, grows: bool, shrinks: bool) returns (ok: bool)
      requires Valid()
      modifies this, nodes
      ensures Valid() && (nodes == old(nodes) || fresh(nodes))
      ensures Keys() == if ok then Push(bigHead, old(Keys()), key) else []
      ensures if old(size) == old(nodes.Length) && !grows then !ok && nodes.Length == 0 && gcTick == old(gcTick)
              else Checked(old(size) + 1, Enlarged(old(size), old(nodes.Length)), old(gcTick), shrinks, ok,
                           nodes.Length, gcTick)
    {
      if nodes.Length == size {
        Resize(if nodes.Length < 8 then 8 else nodes.Length * 2, grows);
        if !grows { return false; }
      }
      Place(key);
      ok := CheckGc(shrinks);
    }

    /** Its loop: parents that the key beats move down. */
    method Place(key: int)
      requires Valid() && size < nodes.Length
      modifies this`size, nodes
      ensures Valid() && size == old(size) + 1 && Keys() == Push(bigHead, old(Keys()), key)
    {
      var index: nat := size;
      ghost var result := Push(bigHead, nodes[..size], key);
      ghost var start := nodes[..size] + [key];
      SiftUpForgets(bigHead, start, nodes[..size + 1], size, key);
      while index > 0
        invariant index <= size < nodes.Length
        invariant result == SiftUp(bigHead, nodes[..size + 1], index, key)
      {
        var parent := (index - 1) / 2;
        if bigHead && key <= nodes[parent] { break; }
        if !bigHead && key >= nodes[parent] { break; }
        ghost var was := nodes[..size + 1];
        nodes[index] := nodes[parent];
        assert nodes[..size + 1] == was[index := was[parent]];
        index := parent;
      }
      ghost var was := nodes[..size + 1];
      nodes[index] := key;
      assert nodes[..size + 1] == was[index := key];
      size := size + 1;
    }

    /** `heap_pop`, with the answer of the allocator to giving back. */
    method PopKey(index: int, shrinks: bool) returns (found: bool, key: int, ok: bool)
      requires Valid()
      modifies this, nodes
      ensures Valid() && (nodes == old(nodes) || fresh(nodes))
      ensures found <==> 0 <= index < old(size)
      ensures !found ==> ok && nodes == old(nodes) && Keys() == old(Keys()) && gcTick == old(gcTick)
      ensures found ==>
                && key == old(Keys())[index]
                && Keys() == (if ok then Pop(bigHead, old(Keys()), index) else [])
                && Checked(old(size) - 1, old(nodes.Length), old(gcTick), shrinks, ok, nodes.Length, gcTick)
    {
      if index < 0 || size <= index { return false, 0, true; }
      key := nodes[index];
      Remove(index);
      ok := CheckGc(shrinks);
      found := true;
    }

    /** Its loop: children that beat the last key move up. */
    method Remove(index: nat)
      requires Valid() && index < size
      modifies this`size, nodes
      ensures Valid() && size == old(size) - 1 && Keys() == Pop(bigHead, old(Keys()), index)
    {
      size := size - 1;
      assert nodes[..size] == old(nodes[..size])[..size];
      if index != size { SinkLast(index); }
    }

    method SinkLast(index: nat)
      requires index < size < nodes.Length
      modifies nodes
      ensures nodes[..size] == SiftDown(bigHead, old(nodes[..size]), index, old(nodes[size]))
    {
      var key := nodes[size];
      var hole: nat := index;
      ghost var result := SiftDown(bigHead, nodes[..size], index, key);
      while 2 * hole + 1 < size
        invariant hole < size && nodes[size] == key
        invariant result == SiftDown(bigHead, nodes[..size], hole, key)
        decreases size - hole
      {
        var child := ChooseChild(hole);
        ghost var was := nodes[..size];
        if !((bigHead && key < nodes[child]) || (!bigHead && nodes[child] < key)) { break; }
        nodes[hole] := nodes[child];
        assert nodes[..size] == was[hole := was[child]];
        hole := child;
      }
      ghost var was := nodes[..size];
      nodes[hole] := nodes[size];
      assert nodes[..size] == was[hole := key];
    }

    method ChooseChild(hole: nat) returns (child: nat)
      requires 2 * hole + 1 < size <= nodes.Length
      ensures child < size && child == UpperChild(bigHead, nodes[..size], hole)
    {
      child := hole * 2 + 1;
      if child + 1 <= size - 1 {
        if (bigHead && nodes[child] < nodes[child + 1]) || (!bigHead && nodes[child + 1] < nodes[child]) {
          child := child + 1;
        }
      }
    }
  }

  /** What was in the hole does not matter. */
  lemma SiftUpForgets(big: bool, s: seq<int>, t: seq<int>, i: nat, key: int)
    requires i < |s| == |t| && s[..i] == t[..i] && s[i + 1..] == t[i + 1..]
    ensures SiftUp(big, s, i, key) == SiftUp(big, t, i, key)
  {
    assert s[i := key] == t[i := key];
    if i > 0 {
      assert s[Parent(i)] == s[..i][Parent(i)] == t[..i][Parent(i)] == t[Parent(i)];
      assert s[i := s[Parent(i)]] == t[i := t[Parent(i)]];
    }
  }
}
