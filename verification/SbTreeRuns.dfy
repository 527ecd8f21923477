/** Whole runs of insertions and deletions on the size-balanced tree. */
module SbTreeRuns {
  import opened SbTree
  import opened SbTreeDamage
  import opened SbTreeQueries

  datatype Step = Put(key: nat, value: int) | Take(key: nat)

  datatype Played = Broken | Reached(tree: Tree)

  /** The tree after a run, or `Broken` once a deletion has faulted. */
  function Play(t: Tree, run: seq<Step>): Played
    decreases |run|
  {
    if run == [] then Reached(t)
    else
      match run[0] {
        case Put(key, value) => Play(Insert(t, key, value), run[1..])
        case Take(key) =>
          match Delete(t, key) {
            case Fault => Broken
            case Absent(u) => Play(u, run[1..])
            case Removed(u) => Play(u, run[1..])
          }
      }
  }

  lemma {:induction false} PlayConcat(t: Tree, a: seq<Step>, b: seq<Step>)
    requires Play(t, a).Reached?
    ensures Play(t, a + b) == Play(Play(t, a).tree, b)
    decreases |a|
  {
    if a == [] {
      assert a + b == b;
    } else {
      assert (a + b)[1..] == a[1..] + b;
      match a[0] {
        case Put(key, value) => PlayConcat(Insert(t, key, value), a[1..], b);
        case Take(key) => PlayConcat(Delete(t, key).tree, a[1..], b);
      }
    }
  }

  /** What one step should do to an ordered list of entries, stated without any tree: a new entry
      goes behind all keys not above it, and taking a key drops one entry that has it, if any. */
  ghost predicate ListStep(s: seq<(nat, int)>, step: Step, s': seq<(nat, int)>)
  {
    match step
    case Put(key, value) =>
      CountUpTo(s, key) <= |s| && s' == InsertAt(s, CountUpTo(s, key), (key, value))
    case Take(key) =>
      if CountEqual(s, key) == 0 then s' == s
      else exists p :: 0 <= p < |s| && s[p].0 == key && s' == RemoveAt(s, p)
  }

  ghost predicate ListRun(lists: seq<seq<(nat, int)>>, run: seq<Step>)
  {
    |lists| == |run| + 1 && forall i :: 0 <= i < |run| ==> ListStep(lists[i], run[i], lists[i + 1])
  }

  /** Every run that does not fault does to the stored sequence exactly what the same run does to a
      plain ordered list. */
  lemma {:induction false} RunRefinesList(t: Tree, run: seq<Step>) returns (lists: seq<seq<(nat, int)>>)
    requires Sorted(Entries(t)) && Play(t, run).Reached?
    ensures ListRun(lists, run)
    ensures lists[0] == Entries(t) && lists[|run|] == Entries(Play(t, run).tree)
    ensures Sorted(Entries(Play(t, run).tree))
    decreases |run|
  {
    if run == [] {
      lists := [Entries(t)];
    } else {
      var u := StepRefines(t, run[0]);
      var rest := RunRefinesList(u, run[1..]);
      lists := [Entries(t)] + rest;
      ListRunBefore(Entries(t), rest, run);
    }
  }

  lemma ListRunBefore(first: seq<(nat, int)>, rest: seq<seq<(nat, int)>>, run: seq<Step>)
    requires run != [] && ListRun(rest, run[1..]) && ListStep(first, run[0], rest[0])
    ensures ListRun([first] + rest, run)
  {
    var lists := [first] + rest;
    forall i | 0 <= i < |run| ensures ListStep(lists[i], run[i], lists[i + 1]) {
      if i > 0 { assert run[i] == run[1..][i - 1]; }
    }
  }

  lemma StepRefines(t: Tree, step: Step) returns (u: Tree)
    requires Sorted(Entries(t)) && (step.Take? ==> !Delete(t, step.key).Fault?)
    ensures ListStep(Entries(t), step, Entries(u))
    ensures u == if step.Put? then Insert(t, step.key, step.value) else Delete(t, step.key).tree
    ensures Sorted(Entries(u))
  {
    match step {
      case Put(key, value) =>
        u := Insert(t, key, value);
        InsertEntries(t, key, value);
        InsertSorted(t, key, value);
      case Take(key) =>
        u := Delete(t, key).tree;
        DeleteOutcome(t, key);
        MatchIndexMeaning(t, key);
    }
  }

  /** A run of insertions alone never loses the shape, so the first deletion after it is safe. */
  lemma {:induction false} PutsKeepShape(t: Tree, run: seq<Step>)
    requires Shape(t) && forall i :: 0 <= i < |run| ==> run[i].Put?
    ensures Play(t, run).Reached? && Shape(Play(t, run).tree)
    decreases |run|
  {
    if run != [] {
      InsertShape(t, run[0].key, run[0].value);
      PutsKeepShape(Insert(t, run[0].key, run[0].value), run[1..]);
    }
  }

  // ---------------------------------------------------------------- which trees insertion builds

  /** The textbook condition: no grandchild is larger than its uncle. */
  ghost predicate Balanced(t: Tree)
  {
    t.Node? ==> !TooDeepLeft(t) && !TooDeepRight(t) && Balanced(t.left) && Balanced(t.right)
  }

  /** Takes a leaf out, always from the larger side. */
  ghost function Peel(t: Tree): (r: (Tree, nat, int))
    requires t.Node?
    ensures Size(r.0) == Size(t) - 1
  {
    SizePositive(t.left); SizePositive(t.right);
    if Size(t) == 1 then (Leaf, t.key, t.value)
    else if Size(t.left) >= Size(t.right) then
      var (left, k, v) := Peel(t.left);
      (t.(left := left), k, v)
    else
      var (right, k, v) := Peel(t.right);
      (t.(right := right), k, v)
  }

  ghost predicate StrictKeys(t: Tree, lo: int, hi: int)
  {
    t.Node? ==> lo < t.key < hi && StrictKeys(t.left, lo, t.key) && StrictKeys(t.right, t.key, hi)
  }

  lemma {:induction false} PeelShrinksChildren(t: Tree)
    requires t.Node?
    ensures var u := Peel(t).0;
            u.Node? ==> Size(u.left) <= Size(t.left) && Size(u.right) <= Size(t.right)
  {
    SizePositive(t.left); SizePositive(t.right);
  }

  /** Peeling a balanced tree leaves a balanced tree, and inserting the peeled entry gives the tree
      back without any rotation. */
  lemma {:induction false} PeelBack(t: Tree, lo: int, hi: int)
    requires t.Node? && Balanced(t) && StrictKeys(t, lo, hi)
    ensures var (u, k, v) := Peel(t);
            Balanced(u) && StrictKeys(u, lo, hi) && lo < k < hi && Insert(u, k, v) == t
  {
    SizePositive(t.left); SizePositive(t.right);
    if Size(t) == 1 {
    } else if Size(t.left) >= Size(t.right) {
      PeelBack(t.left, lo, t.key);
      PeelShrinksChildren(t.left);
    } else {
      PeelBack(t.right, t.key, hi);
      PeelShrinksChildren(t.right);
    }
  }

  /** Every balanced tree with distinct ordered keys is the result of some run of insertions. */
  lemma {:induction false} InsertionsBuild(t: Tree, lo: int, hi: int) returns (run: seq<Step>)
    requires Balanced(t) && StrictKeys(t, lo, hi)
    ensures Play(Leaf, run) == Reached(t) && PutsOf(run, t)
    decreases Size(t)
  {
    if t.Leaf? {
      run := [];
    } else {
      PeelBack(t, lo, hi);
      PeelTakesKey(t, lo, hi);
      var (u, k, v) := Peel(t);
      var before := InsertionsBuild(u, lo, hi);
      run := before + [Put(k, v)];
      PlayConcat(Leaf, before, [Put(k, v)]);
      var last: seq<Step> := [Put(k, v)];
      assert last[1..] == [];
    }
  }

  ghost predicate Stores(t: Tree, key: nat, value: int)
  {
    t.Node? && ((t.key, t.value) == (key, value) || Stores(t.left, key, value) || Stores(t.right, key, value))
  }

  /** The run puts entries of the tree, each key once. */
  ghost predicate PutsOf(run: seq<Step>, t: Tree)
  {
    && (forall i :: 0 <= i < |run| ==> run[i].Put? && Stores(t, run[i].key, run[i].value))
    && (forall i, j :: 0 <= i < j < |run| ==> run[i].key != run[j].key)
  }

  lemma {:induction false} StoredInside(t: Tree, lo: int, hi: int)
    requires StrictKeys(t, lo, hi)
    ensures forall k: nat, v: int :: Stores(t, k, v) ==> lo < k < hi
  {
    if t.Node? {
      StoredInside(t.left, lo, t.key);
      StoredInside(t.right, t.key, hi);
    }
  }

  /** The peeled key is not stored any more, everything else is. */
  lemma {:induction false} PeelTakesKey(t: Tree, lo: int, hi: int)
    requires t.Node? && StrictKeys(t, lo, hi)
    ensures var (u, k, v) := Peel(t);
            Stores(t, k, v) && forall x: nat, y: int :: Stores(u, x, y) ==> Stores(t, x, y) && x != k
  {
    SizePositive(t.left); SizePositive(t.right);
    StoredInside(t.left, lo, t.key);
    StoredInside(t.right, t.key, hi);
    if Size(t) > 1 {
      if Size(t.left) >= Size(t.right) { PeelTakesKey(t.left, lo, t.key); } else { PeelTakesKey(t.right, t.key, hi); }
    }
  }

  /** No deletion of the run misses or faults. */
  ghost predicate AllTaken(t: Tree, run: seq<Step>)
    decreases |run|
  {
    run != [] ==>
      match run[0]
      case Put(key, value) => AllTaken(Insert(t, key, value), run[1..])
      case Take(key) => Delete(t, key).Removed? && AllTaken(Delete(t, key).tree, run[1..])
  }

  lemma {:induction false} AllTakenAfterPuts(t: Tree, puts: seq<Step>, rest: seq<Step>)
    requires (forall i :: 0 <= i < |puts| ==> puts[i].Put?) && Play(t, puts).Reached?
             && AllTaken(Play(t, puts).tree, rest)
    ensures AllTaken(t, puts + rest)
    decreases |puts|
  {
    if puts == [] {
      assert puts + rest == rest;
    } else {
      assert (puts + rest)[1..] == puts[1..] + rest;
      AllTakenAfterPuts(Insert(t, puts[0].key, puts[0].value), puts[1..], rest);
    }
  }

  // ---------------------------------------------------------------- a run that faults

  ghost function L(key: nat): Tree { Node(Leaf, key, key, Leaf) }

  ghost function N(left: Tree, key: nat, right: Tree): Tree { Node(left, key, key, right) }

  lemma Sizes(t: Tree)
    ensures t.Node? ==> Size(t) == Size(t.left) + Size(t.right) + 1
  {
  }

  /** A deletion below a node that stays calm only replaces the subtree. */
  lemma DeleteBelow(t: Tree, key: nat, child: Tree)
    requires t.Node? && key != t.key
    requires Delete(if key < t.key then t.left else t.right, key) == Removed(child)
    requires if key < t.key then !TooDeepRight(t.(left := child)) else !TooDeepLeft(t.(right := child))
    ensures Delete(t, key) == Removed(if key < t.key then t.(left := child) else t.(right := child))
  {
  }

  lemma DeleteLeaf(key: nat)
    ensures Delete(L(key), key) == Removed(Leaf)
  {
    Sizes(L(key));
    assert Size(Leaf) == 0;
  }

  /** The subtrees the run works on, given by the sizes and keys that decide every branch. */
  ghost predicate Parts(a: Tree, c: Tree, e: Tree, f: Tree)
  {
    && a == N(L(60), 70, L(80)) && c == N(N(L(95), 100, Leaf), 110, L(120))
    && e == N(L(152), 155, L(160)) && f == N(L(180), 190, L(200))
  }

  lemma PartSizes(a: Tree, c: Tree, e: Tree, f: Tree)
    requires Parts(a, c, e, f)
    ensures Size(a) == 3 && Size(c) == 4 && Size(e) == 3 && Size(f) == 3
    ensures Size(a.left) == Size(a.right) == 1 && Size(c.left) == 2 && Size(c.right) == 1
    ensures Size(e.left) == Size(e.right) == 1 && Size(f.left) == Size(f.right) == 1
  {
    var b := N(L(95), 100, Leaf);
    Sizes(b);
  }

  lemma TakeOne(a: Tree, c: Tree, e: Tree, f: Tree, d: Tree, g: Tree)
    requires Parts(a, c, e, f) && d == N(c, 130, L(140)) && g == N(e, 170, f)
    ensures Delete(N(N(N(N(L(10), 20, Leaf), 30, L(40)), 50, a), 90, N(d, 150, g)), 10) ==
            Removed(N(N(N(L(20), 30, L(40)), 50, a), 90, N(d, 150, g)))
  {
    PartSizes(a, c, e, f);
    Sizes(d); Sizes(g);
    var h, r := N(L(10), 20, Leaf), N(d, 150, g);
    var i := N(h, 30, L(40));
    DeleteLeaf(10);
    DeleteBelow(h, 10, Leaf);
    DeleteBelow(i, 10, L(20));
    DeleteBelow(N(i, 50, a), 10, N(L(20), 30, L(40)));
    DeleteBelow(N(N(i, 50, a), 90, r), 10, N(N(L(20), 30, L(40)), 50, a));
  }

  lemma SingleTurn(l: Tree, d: Tree, g: Tree)
    requires Size(l) == Size(d) == 6 && Size(g) == 7
    requires Size(l.left) <= 6 && Size(l.right) <= 6 && Size(d.left) <= 4 && Size(d.right) == 1
             && d.right.left == d.right.right
    requires d.right.right == Leaf && Size(g.left) == Size(g.right) == 3
    ensures Maintain(N(l, 90, N(d, 150, g)), true) == N(N(l, 90, d), 150, g)
  {
    var t, u := N(l, 90, N(d, 150, g)), N(N(l, 90, d), 150, g);
    assert LiftRight(t) == u;
    assert Maintain(d, true) == d;
    Sizes(u.left);
    assert Maintain(u, false) == u && Maintain(u, true) == u;
  }

  /** The first rotation: the left side has become too light. */
  lemma TakeTwo(a: Tree, c: Tree, e: Tree, f: Tree, d: Tree, g: Tree)
    requires Parts(a, c, e, f) && d == N(c, 130, L(140)) && g == N(e, 170, f)
    ensures Delete(N(N(N(L(20), 30, L(40)), 50, a), 90, N(d, 150, g)), 20) ==
            Removed(N(N(N(N(Leaf, 30, L(40)), 50, a), 90, d), 150, g))
  {
    PartSizes(a, c, e, f);
    Sizes(d); Sizes(g);
    var h, r := N(L(20), 30, L(40)), N(d, 150, g);
    var h' := N(Leaf, 30, L(40));
    var l, l' := N(h, 50, a), N(h', 50, a);
    DeleteLeaf(20);
    DeleteBelow(h, 20, Leaf);
    Sizes(h'); Sizes(l');
    DeleteBelow(l, 20, h');
    SingleTurn(l', d, g);
  }

  lemma TakeThree(a: Tree, c: Tree, e: Tree, f: Tree, d: Tree, g: Tree)
    requires Parts(a, c, e, f) && d == N(c, 130, L(140)) && g == N(e, 170, f)
    ensures Delete(N(N(N(N(Leaf, 30, L(40)), 50, a), 90, d), 150, g), 30) ==
            Removed(N(N(N(L(40), 50, a), 90, d), 150, g))
  {
    PartSizes(a, c, e, f);
    Sizes(d); Sizes(g);
    var h := N(Leaf, 30, L(40));
    assert Delete(h, 30) == Removed(L(40)) by { Sizes(h); }
    DeleteBelow(N(h, 50, a), 30, L(40));
    Sizes(N(L(40), 50, a));
    DeleteBelow(N(N(h, 50, a), 90, d), 30, N(L(40), 50, a));
    Sizes(N(N(L(40), 50, a), 90, d));
    DeleteBelow(N(N(N(h, 50, a), 90, d), 150, g), 30, N(N(L(40), 50, a), 90, d));
  }

  lemma TakeFour(a: Tree, c: Tree, e: Tree, f: Tree, d: Tree)
    requires Parts(a, c, e, f) && d == N(c, 130, L(140))
    ensures Delete(N(N(N(L(40), 50, a), 90, d), 150, N(e, 170, f)), 152) ==
            Removed(N(N(N(L(40), 50, a), 90, d), 150, N(N(Leaf, 155, L(160)), 170, f)))
  {
    PartSizes(a, c, e, f);
    Sizes(d);
    var e' := N(Leaf, 155, L(160));
    DeleteLeaf(152);
    DeleteBelow(e, 152, Leaf);
    DeleteBelow(N(e, 170, f), 152, e');
    Sizes(N(L(40), 50, a)); Sizes(N(e', 170, f));
    DeleteBelow(N(N(N(L(40), 50, a), 90, d), 150, N(e, 170, f)), 152, N(e', 170, f));
  }

  lemma DoubleTurnBack(y: Tree, c: Tree, g: Tree)
    requires Size(y) == Size(g) == 5 && Size(c) == 4
    requires Size(y.left) <= 3 && Size(y.right) <= 3 && Size(c.left) <= 2 && Size(c.right) <= 2
    requires Size(g.left) <= 2 && Size(g.right) <= 2
    ensures Maintain(N(N(y, 90, N(c, 130, L(140))), 150, g), false) ==
            N(N(y, 90, c), 130, N(L(140), 150, g))
  {
    var d := N(c, 130, L(140));
    var x := N(y, 90, d);
    Sizes(d); Sizes(x);
    var t, u := N(x, 150, g), N(N(y, 90, c), 130, N(L(140), 150, g));
    assert LiftLeft(t) == u;
    assert Maintain(L(140), false) == L(140);
    Sizes(u.left); Sizes(u.right);
    assert Maintain(u, false) == u && Maintain(u, true) == u;
  }

  /** The second rotation, a double one; it is what leaves 140 alone beside five entries. */
  lemma TakeFive(a: Tree, c: Tree, e: Tree, f: Tree, y: Tree, e': Tree)
    requires Parts(a, c, e, f) && y == N(L(40), 50, a) && e' == N(Leaf, 155, L(160))
    ensures Delete(N(N(y, 90, N(c, 130, L(140))), 150, N(e', 170, f)), 180) ==
            Removed(N(N(y, 90, c), 130, N(L(140), 150, N(e', 170, N(Leaf, 190, L(200))))))
  {
    PartSizes(a, c, e, f);
    var f' := N(Leaf, 190, L(200));
    var g, g' := N(e', 170, f), N(e', 170, f');
    Sizes(y); Sizes(g'); Sizes(f'); Sizes(e');
    DeleteLeaf(180);
    DeleteBelow(f, 180, Leaf);
    DeleteBelow(g, 180, f');
    DoubleTurnBack(y, c, g');
  }

  /** The third rotation puts three entries under 150 with nothing on its left. */
  lemma TakeSix(a: Tree, c: Tree, e: Tree, f: Tree, y: Tree, e': Tree, f': Tree)
    requires Parts(a, c, e, f) && y == N(L(40), 50, a)
    requires e' == N(Leaf, 155, L(160)) && f' == N(Leaf, 190, L(200))
    ensures Delete(N(N(y, 90, c), 130, N(L(140), 150, N(e', 170, f'))), 140) ==
            Removed(N(N(y, 90, c), 130, N(N(Leaf, 150, e'), 170, f')))
  {
    PartSizes(a, c, e, f);
    var g := N(e', 170, f');
    Sizes(y); Sizes(g); Sizes(e'); Sizes(f');
    DeleteLeaf(140);
    var t := N(Leaf, 150, g);
    var u := N(N(Leaf, 150, e'), 170, f');
    assert Delete(N(L(140), 150, g), 140) == Removed(u) by {
      assert LiftRight(t) == u;
      assert Maintain(e', true) == e';
      Sizes(u.left);
      assert Maintain(u, false) == u && Maintain(u, true) == u;
    }
    Sizes(u);
    DeleteBelow(N(N(y, 90, c), 130, N(L(140), 150, g)), 140, u);
  }

  lemma TakeSevenFaults(a: Tree, c: Tree, e: Tree, f: Tree, y: Tree, e': Tree, f': Tree)
    requires Parts(a, c, e, f) && e' == N(Leaf, 155, L(160))
    ensures Delete(N(N(y, 90, c), 130, N(N(Leaf, 150, e'), 170, f')), 150).Fault?
    ensures Delete(N(N(Leaf, 150, e'), 170, f'), 150).Fault? && Delete(N(Leaf, 150, e'), 150).Fault?
  {
    var h := N(Leaf, 150, e');
    Sizes(h); Sizes(e');
    assert Delete(h, 150).Fault?;
    assert Delete(N(h, 170, f'), 150).Fault?;
  }

  lemma InsertBelow(t: Tree, key: nat, child: Tree)
    requires t.Node? && Insert(if key < t.key then t.left else t.right, key, key) == child
    requires if key < t.key then !TooDeepLeft(t.(left := child)) else !TooDeepRight(t.(right := child))
    ensures Insert(t, key, key) == if key < t.key then t.(left := child) else t.(right := child)
  {
  }

  lemma InsertTurns(e: Tree)
    requires e == N(L(152), 155, L(160))
    ensures Insert(N(L(155), 160, Leaf), 152, 152) == e
  {
    InsertBelow(L(155), 152, L(152));
    var t := N(N(L(152), 155, Leaf), 160, Leaf);
    Sizes(t.left);
    assert LiftLeft(t) == e;
    assert Maintain(Leaf, false) == Leaf;
    assert Maintain(e, false) == e && Maintain(e, true) == e;
  }

  lemma DoubleTurn(c: Tree, e: Tree, f: Tree, q: Tree)
    requires Size(c) == 4 && Size(e) == Size(f) == 3 && c.key < 130
    requires Size(c.left) <= 2 && Size(c.right) <= 2 && Size(e.left) == Size(e.right) == 1
    requires Size(f.left) == Size(f.right) == 1 && q == N(L(140), 150, e)
    ensures Maintain(N(c, 130, N(q, 170, f)), true) == N(N(c, 130, L(140)), 150, N(e, 170, f))
  {
    var t, u := N(c, 130, N(q, 170, f)), N(N(c, 130, L(140)), 150, N(e, 170, f));
    Sizes(q);
    assert LiftRight(t) == u;
    assert Maintain(L(140), true) == L(140);
    Sizes(u.left); Sizes(u.right);
    assert Maintain(u, false) == u && Maintain(u, true) == u;
  }

  /** The last insertion, with a double rotation at 130. */
  lemma PutLast(a: Tree, c: Tree, e: Tree, f: Tree, l: Tree, k: Tree)
    requires Parts(a, c, e, f) && Size(l) == 8 && k == N(L(155), 160, Leaf)
    ensures Insert(N(l, 90, N(c, 130, N(N(L(140), 150, k), 170, f))), 152, 152) ==
            N(l, 90, N(N(c, 130, L(140)), 150, N(e, 170, f)))
  {
    PartSizes(a, c, e, f);
    InsertTurns(e);
    var m, m' := N(L(140), 150, k), N(L(140), 150, e);
    InsertBelow(m, 152, e);
    Sizes(m');
    InsertBelow(N(m, 170, f), 152, m');
    DoubleTurn(c, e, f, m');
    var r, u := N(c, 130, N(m, 170, f)), N(N(c, 130, L(140)), 150, N(e, 170, f));
    assert Insert(r, 152, 152) == u;
    Sizes(u.left); Sizes(u.right);
    InsertBelow(N(l, 90, r), 152, u);
  }

  lemma StartBalanced(a: Tree, c: Tree, e: Tree, f: Tree, l: Tree, k: Tree)
    requires Parts(a, c, e, f) && k == N(L(155), 160, Leaf)
    requires Size(l) == 8 && Balanced(l) && StrictKeys(l, 0, 90)
    requires Size(l.left) == 4 && Size(l.right) == 3
    ensures var t := N(l, 90, N(c, 130, N(N(L(140), 150, k), 170, f)));
            Balanced(t) && StrictKeys(t, 0, 201) && Size(t) == 22
  {
    PartSizes(a, c, e, f);
    Join(L(95), 100, Leaf, 90, 110);
    Join(N(L(95), 100, Leaf), 110, L(120), 90, 130);
    Join(L(180), 190, L(200), 170, 201);
    Join(L(155), 160, Leaf, 150, 170);
    var m := N(L(140), 150, k);
    Join(L(140), 150, k, 130, 170);
    var n := N(m, 170, f);
    Join(m, 170, f, 130, 201);
    Join(c, 130, n, 90, 201);
    Join(l, 90, N(c, 130, n), 0, 201);
  }

  lemma Join(l: Tree, key: nat, r: Tree, lo: int, hi: int)
    requires Balanced(l) && Balanced(r) && !TooDeepLeft(N(l, key, r)) && !TooDeepRight(N(l, key, r))
    requires StrictKeys(l, lo, key) && StrictKeys(r, key, hi) && lo < key < hi
    ensures Balanced(N(l, key, r)) && StrictKeys(N(l, key, r), lo, hi)
    ensures Size(N(l, key, r)) == Size(l) + Size(r) + 1
  {
  }

  lemma LowSide(a: Tree, l: Tree)
    requires a == N(L(60), 70, L(80)) && l == N(N(N(L(10), 20, Leaf), 30, L(40)), 50, a)
    ensures Size(l) == 8 && Balanced(l) && StrictKeys(l, 0, 90)
    ensures Size(l.left) == 4 && Size(l.right) == 3
  {
    var h := N(L(10), 20, Leaf);
    Sizes(h); Sizes(a);
    assert Balanced(h) && StrictKeys(h, 0, 30);
    var i := N(h, 30, L(40));
    Sizes(i);
    assert Balanced(i) && StrictKeys(i, 0, 50);
    assert Balanced(a) && StrictKeys(a, 50, 90);
  }

  ghost const SIX_TAKES: seq<Step> := [Take(10), Take(20), Take(30), Take(152), Take(180), Take(140)]

  lemma PlaySix(t0: Tree, t1: Tree, t2: Tree, t3: Tree, t4: Tree, t5: Tree, t6: Tree)
    requires Delete(t0, 10) == Removed(t1) && Delete(t1, 20) == Removed(t2) && Delete(t2, 30) == Removed(t3)
    requires Delete(t3, 152) == Removed(t4) && Delete(t4, 180) == Removed(t5) && Delete(t5, 140) == Removed(t6)
    ensures Play(t0, SIX_TAKES) == Reached(t6) && AllTaken(t0, SIX_TAKES)
  {
    var r5 := [Take(140)] + [];
    var r4 := [Take(180)] + r5;
    var r3 := [Take(152)] + r4;
    var r2 := [Take(30)] + r3;
    var r1 := [Take(20)] + r2;
    PlayTake(t5, 140, t6, []);
    PlayTake(t4, 180, t5, r5);
    PlayTake(t3, 152, t4, r4);
    PlayTake(t2, 30, t3, r3);
    PlayTake(t1, 20, t2, r2);
    PlayTake(t0, 10, t1, r1);
    assert SIX_TAKES == [Take(10)] + r1;
  }

  lemma PlayTake(t: Tree, key: nat, u: Tree, rest: seq<Step>)
    requires Delete(t, key) == Removed(u) && AllTaken(u, rest)
    ensures Play(t, [Take(key)] + rest) == Play(u, rest) && AllTaken(t, [Take(key)] + rest)
  {
    assert ([Take(key)] + rest)[1..] == rest;
  }

  lemma SixTakes(a: Tree, c: Tree, e: Tree, f: Tree, y: Tree, e': Tree, f': Tree)
    requires Parts(a, c, e, f) && y == N(L(40), 50, a)
    requires e' == N(Leaf, 155, L(160)) && f' == N(Leaf, 190, L(200))
    ensures Play(N(N(N(N(L(10), 20, Leaf), 30, L(40)), 50, a), 90, N(N(c, 130, L(140)), 150, N(e, 170, f))), SIX_TAKES)
            == Reached(N(N(y, 90, c), 130, N(N(Leaf, 150, e'), 170, f')))
    ensures AllTaken(N(N(N(N(L(10), 20, Leaf), 30, L(40)), 50, a), 90, N(N(c, 130, L(140)), 150, N(e, 170, f))),
            SIX_TAKES)
  {
    var d, g := N(c, 130, L(140)), N(e, 170, f);
    TakeOne(a, c, e, f, d, g);
    TakeTwo(a, c, e, f, d, g);
    TakeThree(a, c, e, f, d, g);
    TakeFour(a, c, e, f, d);
    TakeFive(a, c, e, f, y, e');
    TakeSix(a, c, e, f, y, e', f');
    PlaySix(N(N(N(N(L(10), 20, Leaf), 30, L(40)), 50, a), 90, N(d, 150, g)),
            N(N(N(L(20), 30, L(40)), 50, a), 90, N(d, 150, g)),
            N(N(N(N(Leaf, 30, L(40)), 50, a), 90, d), 150, g),
            N(N(y, 90, d), 150, g),
            N(N(y, 90, d), 150, N(e', 170, f)),
            N(N(y, 90, c), 130, N(L(140), 150, N(e', 170, f'))),
            N(N(y, 90, c), 130, N(N(Leaf, 150, e'), 170, f')));
  }

  lemma StoredOnce(x: Tree, h: Tree, f': Tree, e': Tree)
    requires h == N(Leaf, 150, e') && e' == N(Leaf, 155, L(160))
    ensures FindCnt(N(x, 130, N(h, 170, f')), 150) == 1
  {
    assert FindCnt(e', 150) == 0;
    assert FindCnt(h, 150) == 1;
    assert FindCnt(N(h, 170, f'), 150) == 1;
  }

  lemma PlayOnePut(t: Tree, key: nat, u: Tree)
    requires Insert(t, key, key) == u
    ensures Play(t, [Put(key, key)]) == Reached(u)
  {
    var one: seq<Step> := [Put(key, key)];
    assert one[1..] == [];
  }

  /** Every value is its key. */
  ghost predicate Own(t: Tree)
  {
    t.Node? ==> t.value == t.key && Own(t.left) && Own(t.right)
  }

  lemma {:induction false} OwnStored(t: Tree)
    requires Own(t)
    ensures forall k: nat, v: int :: Stores(t, k, v) ==> v == k
  {
    if t.Node? {
      OwnStored(t.left);
      OwnStored(t.right);
    }
  }

  /** Insertions of keys between 0 and 201, each once and with itself for value. */
  ghost predicate OwnPuts(puts: seq<Step>)
  {
    && (forall i :: 0 <= i < |puts| ==> puts[i].Put? && puts[i].value == puts[i].key && 0 < puts[i].key < 201)
    && (forall i, j :: 0 <= i < j < |puts| ==> puts[i].key != puts[j].key)
  }

  lemma BuildThenPut(start: Tree, key: nat, u: Tree) returns (puts: seq<Step>)
    requires Balanced(start) && StrictKeys(start, 0, 201) && Own(start) && Insert(start, key, key) == u
    requires 0 < key < 201 && !Stores(start, key, key)
    ensures |puts| == Size(start) + 1 && OwnPuts(puts)
    ensures Play(Leaf, puts) == Reached(u)
  {
    var before := InsertionsBuild(start, 0, 201);
    OwnStored(start);
    StoredInside(start, 0, 201);
    PutsCount(Leaf, before);
    PlayConcat(Leaf, before, [Put(key, key)]);
    PlayOnePut(start, key, u);
    puts := before + [Put(key, key)];
  }

  lemma OwnNode(l: Tree, key: nat, r: Tree)
    requires Own(l) && Own(r)
    ensures Own(N(l, key, r)) && Own(L(key))
  {
    assert Own(Leaf);
  }

  lemma StartOwn(a: Tree, c: Tree, f: Tree, l: Tree, k: Tree)
    requires a == N(L(60), 70, L(80)) && c == N(N(L(95), 100, Leaf), 110, L(120)) && f == N(L(180), 190, L(200))
    requires k == N(L(155), 160, Leaf) && l == N(N(N(L(10), 20, Leaf), 30, L(40)), 50, a)
    ensures Own(N(l, 90, N(c, 130, N(N(L(140), 150, k), 170, f))))
  {
    forall x: nat ensures Own(L(x)) { OwnNode(Leaf, x, Leaf); }
    OwnNode(L(60), 70, L(80));
    OwnNode(L(95), 100, Leaf);
    OwnNode(N(L(95), 100, Leaf), 110, L(120));
    OwnNode(L(180), 190, L(200));
    OwnNode(L(155), 160, Leaf);
    OwnNode(L(10), 20, Leaf);
    OwnNode(N(L(10), 20, Leaf), 30, L(40));
    OwnNode(N(N(L(10), 20, Leaf), 30, L(40)), 50, a);
    OwnNode(L(140), 150, k);
    OwnNode(N(L(140), 150, k), 170, f);
    OwnNode(c, 130, N(N(L(140), 150, k), 170, f));
    OwnNode(l, 90, N(c, 130, N(N(L(140), 150, k), 170, f)));
  }

  lemma NotYet152(c: Tree, f: Tree, l: Tree, k: Tree)
    requires StrictKeys(N(l, 90, N(c, 130, N(N(L(140), 150, k), 170, f))), 0, 201) && k == N(L(155), 160, Leaf)
    ensures !Stores(N(l, 90, N(c, 130, N(N(L(140), 150, k), 170, f))), 152, 152)
  {
    var m := N(L(140), 150, k);
    var n := N(m, 170, f);
    var r := N(c, 130, n);
    assert StrictKeys(r, 90, 201);
    assert StrictKeys(n, 130, 201);
    StoredInside(l, 0, 90);
    StoredInside(c, 90, 130);
    StoredInside(f, 170, 201);
    StoredInside(L(140), 130, 150);
    assert !Stores(Leaf, 152, 152);
    StoredOutside(Leaf, 155, Leaf, 152);
    StoredOutside(L(155), 160, Leaf, 152);
    StoredOutside(L(140), 150, k, 152);
    StoredOutside(m, 170, f, 152);
    StoredOutside(c, 130, n, 152);
    StoredOutside(l, 90, r, 152);
  }

  lemma StoredOutside(left: Tree, key: nat, right: Tree, k: nat)
    requires !Stores(left, k, k) && !Stores(right, k, k) && key != k
    ensures !Stores(N(left, key, right), k, k)
  {
  }

  lemma BuildGrown(a: Tree, c: Tree, e: Tree, f: Tree, l: Tree) returns (puts: seq<Step>)
    requires Parts(a, c, e, f) && l == N(N(N(L(10), 20, Leaf), 30, L(40)), 50, a)
    ensures |puts| == 23 && OwnPuts(puts)
    ensures Play(Leaf, puts) == Reached(N(l, 90, N(N(c, 130, L(140)), 150, N(e, 170, f))))
  {
    var k := N(L(155), 160, Leaf);
    LowSide(a, l);
    puts := BuildFrom(a, c, e, f, l, k, N(l, 90, N(c, 130, N(N(L(140), 150, k), 170, f))),
                      N(l, 90, N(N(c, 130, L(140)), 150, N(e, 170, f))));
  }

  lemma BuildFrom(a: Tree, c: Tree, e: Tree, f: Tree, l: Tree, k: Tree, start: Tree, grown: Tree)
    returns (puts: seq<Step>)
    requires Parts(a, c, e, f) && k == N(L(155), 160, Leaf)
    requires Size(l) == 8 && Balanced(l) && StrictKeys(l, 0, 90) && Size(l.left) == 4 && Size(l.right) == 3
    requires l == N(N(N(L(10), 20, Leaf), 30, L(40)), 50, a)
    requires start == N(l, 90, N(c, 130, N(N(L(140), 150, k), 170, f)))
    requires grown == N(l, 90, N(N(c, 130, L(140)), 150, N(e, 170, f)))
    ensures |puts| == 23 && OwnPuts(puts)
    ensures Play(Leaf, puts) == Reached(grown)
  {
    StartBalanced(a, c, e, f, l, k);
    StartOwn(a, c, f, l, k);
    NotYet152(c, f, l, k);
    PutLast(a, c, e, f, l, k);
    puts := BuildThenPut(start, 152, grown);
  }

  // ---------------------------------------------------------------- the damage

  /** The faulting deletion of 150: the rotation at the matched node leaves 155 with a size field of 2 over two
      children, and nothing above repairs it. */
  lemma FaultLeavesShortage(x: Tree, h: Tree, e': Tree, f': Tree)
    requires e' == N(Leaf, 155, L(160)) && f' == N(Leaf, 190, L(200)) && h == N(Leaf, 150, e')
    requires x.Node? && Size(x.left) <= 6 && Size(x.right) <= 6
    requires Delete(N(x, 130, N(h, 170, f')), 150).Fault? && Delete(N(h, 170, f'), 150).Fault? && Delete(h, 150).Fault?
    ensures Shortage(Faulted(N(x, 130, N(h, 170, f')), 150)) == 1 && LastMissing(N(x, 130, N(h, 170, f')))
  {
    Sizes(h); Sizes(e'); Sizes(f'); Sizes(L(160)); Sizes(L(200));
    var u := Cell(Cell(Nil, 150, 150, 1, Nil), 155, 155, 2, Cell(Nil, 160, 160, 1, Nil));
    FaultAt150(h, e', u);
    var g := N(h, 170, f');
    Sizes(g);
    ExactShortage(f');
    var r := Cell(u, 170, 170, Size(g), Exact(f'));
    assert Shortage(u) == 1;
    assert !RawTooDeepRight(r);
    assert Faulted(g, 150) == RawMaintain(r, true) == r;
    WalkPasses(r, u, f');
    FaultPassesUp(x, g, r);
  }

  /** After the fault the last index is still below the size field of the root, and `sb_tree_index` of it comes to a
      child that is not there. */
  ghost predicate LastMissing(t: Tree)
  {
    && Delete(t, 150).Fault? && Size(t) > 0 && Field(Faulted(t, 150)) == Size(t)
    && RawWalk(Faulted(t, 150), Size(t) - 1).None?
  }

  lemma WalkPasses(r: Raw, u: Raw, f': Tree)
    requires r == Cell(u, 170, 170, 6, Exact(f')) && Field(u) == 2 && f' == N(Leaf, 190, L(200))
    ensures RawWalk(r, 5).None?
  {
    Sizes(f'); Sizes(L(200));
    assert Exact(L(200)) == Cell(Nil, 200, 200, 1, Nil);
    assert Exact(f') == Cell(Nil, 190, 190, 2, Cell(Nil, 200, 200, 1, Nil));
    assert RawWalk(Cell(Nil, 200, 200, 1, Nil), 1).None?;
    assert RawWalk(Exact(f'), 2).None?;
  }

  lemma FaultAt150(h: Tree, e': Tree, u: Raw)
    requires e' == N(Leaf, 155, L(160)) && h == N(Leaf, 150, e') && Delete(h, 150).Fault? && Size(h) == 3
    requires u == Cell(Cell(Nil, 150, 150, 1, Nil), 155, 155, 2, Cell(Nil, 160, 160, 1, Nil))
    ensures Faulted(h, 150) == u
  {
    Sizes(e'); Sizes(L(160));
    assert Exact(L(160)) == Cell(Nil, 160, 160, 1, Nil);
    assert Exact(e') == Cell(Nil, 155, 155, 2, Cell(Nil, 160, 160, 1, Nil));
    var r := Cell(Nil, 150, 150, 2, Exact(e'));
    ExactShortage(e');
    assert RawLiftRight(r) == u;
    assert Shortage(Nil) == 0 && RawMaintain(Nil, true) == Nil;
    assert Shortage(u) == 1;
    assert RawMaintain(u, false) == u && RawMaintain(u, true) == u;
    assert RawMaintain(r, true) == u;
    assert Exact(Leaf) == Nil;
  }

  lemma FaultPassesUp(x: Tree, g: Tree, r: Raw)
    requires x.Node? && g.Node? && g.key == 170 && Delete(g, 150).Fault? && Faulted(g, 150) == r && r.Cell?
             && Shortage(r) == 1
    requires Size(x.left) <= 6 && Size(x.right) <= 6 && Field(r) == 6 && Delete(N(x, 130, g), 150).Fault?
    requires Size(g) == 6 && RawWalk(r, 5).None?
    ensures Shortage(Faulted(N(x, 130, g), 150)) == 1 && LastMissing(N(x, 130, g))
  {
    var t := N(x, 130, g);
    ExactShortage(x);
    var top := Cell(Exact(x), 130, 130, Size(t), r);
    assert Exact(x) == Cell(Exact(x.left), x.key, x.value, Size(x), Exact(x.right));
    assert !RawTooDeepLeft(top);
    assert Faulted(g, 150) == r && Field(r) <= Size(g);
    assert Faulted(t, 150) == RawMaintain(top, false) == top;
    assert Size(t) == Size(x) + Size(g) + 1;
    WalkAbove(top, r, Size(x), Size(t) - 1);
  }

  lemma WalkAbove(top: Raw, r: Raw, left: nat, last: nat)
    requires top.Cell? && top.right == r && Field(top.left) == left && last == left + 6 && RawWalk(r, 5).None?
    ensures RawWalk(top, last).None?
  {
  }

  /** The shape invariant does not survive deletion: twenty-three insertions and six successful
      deletions reach a tree in which deleting the stored key 150 removes nothing and leaves a size field
      one too small; looking up the last index in that tree comes to a child that is not there. */
  lemma FaultReachable() returns (puts: seq<Step>, t: Tree)
    ensures |puts| == 23 && OwnPuts(puts) && AllTaken(Leaf, puts + SIX_TAKES)
    ensures Play(Leaf, puts + SIX_TAKES) == Reached(t)
    ensures FindCnt(t, 150) == 1 && Delete(t, 150).Fault? && !Shape(t)
    ensures RawEntries(Faulted(t, 150)) == Entries(t) && Shortage(Faulted(t, 150)) == 1 && LastMissing(t)
  {
    var a, c := N(L(60), 70, L(80)), N(N(L(95), 100, Leaf), 110, L(120));
    var e, f := N(L(152), 155, L(160)), N(L(180), 190, L(200));
    var e', f', y := N(Leaf, 155, L(160)), N(Leaf, 190, L(200)), N(L(40), 50, a);
    puts := BuildGrown(a, c, e, f, N(N(N(L(10), 20, Leaf), 30, L(40)), 50, a));
    t := FaultTree(a, c, e, f, y, e', f');
    SixTakes(a, c, e, f, y, e', f');
    PlayConcat(Leaf, puts, SIX_TAKES);
    AllTakenAfterPuts(Leaf, puts, SIX_TAKES);
    FaultedEntries(t, 150);
  }

  lemma FaultTree(a: Tree, c: Tree, e: Tree, f: Tree, y: Tree, e': Tree, f': Tree) returns (t: Tree)
    requires Parts(a, c, e, f) && y == N(L(40), 50, a) && e' == N(Leaf, 155, L(160)) && f' == N(Leaf, 190, L(200))
    ensures t == N(N(y, 90, c), 130, N(N(Leaf, 150, e'), 170, f'))
    ensures FindCnt(t, 150) == 1 && Delete(t, 150).Fault? && !Shape(t) && Shortage(Faulted(t, 150)) == 1
    ensures LastMissing(t)
  {
    t := N(N(y, 90, c), 130, N(N(Leaf, 150, e'), 170, f'));
    TakeSevenFaults(a, c, e, f, y, e', f');
    ShapeExcluded(t, 150);
    StoredOnce(N(y, 90, c), N(Leaf, 150, e'), f', e');
    PartSizes(a, c, e, f);
    Sizes(y);
    FaultLeavesShortage(N(y, 90, c), N(Leaf, 150, e'), e', f');
  }

  lemma ShapeExcluded(t: Tree, key: nat)
    requires Delete(t, key).Fault?
    ensures !Shape(t)
  {
    DeleteOutcome(t, key);
    if Shape(t) { ShapeNotHollow(t, key); }
  }

  lemma {:induction false} PutsCount(t: Tree, run: seq<Step>)
    requires forall i :: 0 <= i < |run| ==> run[i].Put?
    ensures Play(t, run).Reached? && Size(Play(t, run).tree) == Size(t) + |run|
    decreases |run|
  {
    if run != [] {
      InsertSize(t, run[0].key, run[0].value);
      PutsCount(Insert(t, run[0].key, run[0].value), run[1..]);
    }
  }
}
