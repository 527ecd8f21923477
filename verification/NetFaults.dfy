/** A run of the session protocol in which a deletion in `close_root` faults and a session is released twice. */
module NetFaults {
  import opened Options
  import Arith
  import opened Ffid
  import opened NetProtocol
  import opened NetRelease
  import opened NetRuns
  import SbTree
  import SbTreeDamage
  import SbTreeRuns

  // ---------------------------------------------------------------- a deletion that faults is reached

  /** The session was closed under its own number for id and nothing has released it. */
  ghost predicate Kept(st: State, k: nat)
  {
    k > 0 && k in st.objs && st.objs[k].id == k && st.objs[k].freed == 0 && !Found(st, k)
  }

  /** The tree of closed sessions is the tree of a run of the tree alone, with keys for values. */
  ghost predicate Mirror(st: State, tree: SbTree.Tree, open: set<nat>)
  {
    && SlotsInv(st) && st.pcs == [Idle, Idle] && st.closeRoot == Sound(tree) && FirstUse(st.pool)
    && (forall k :: k in open ==> Open(st, k)) && KeptEntries(st, SbTree.Entries(tree))
  }

  /** No slot has been handed out twice. */
  ghost predicate FirstUse(p: Pool)
  {
    forall s :: 0 <= s < |p.gens| ==> p.gens[s] <= 1
  }

  ghost predicate KeptEntries(st: State, e: seq<(nat, int)>)
  {
    && SbTree.Sorted(e) && UniqueIds(e) && forall i :: 0 <= i < |e| ==> e[i].1 == e[i].0 && Kept(st, e[i].0)
  }

  ghost predicate Opens(open: set<nat>, run: seq<SbTreeRuns.Step>)
  {
    && (forall i :: 0 <= i < |run| && run[i].Put? ==> run[i].value == run[i].key && run[i].key in open)
    && (forall i, j :: 0 <= i < j < |run| && run[i].Put? && run[j].Put? ==> run[i].key != run[j].key)
  }

  /** Whatever a run of insertions and deletions does to the tree alone, closing and releasing sessions does
      to `close_root`. */
  lemma {:induction false} Simulates(st: State, tree: SbTree.Tree, open: set<nat>, steps: seq<SbTreeRuns.Step>)
    returns (run: seq<Action>, st': State)
    requires Mirror(st, tree, open) && Opens(open, steps) && SbTreeRuns.AllTaken(tree, steps)
    ensures SbTreeRuns.Play(tree, steps).Reached? && Leads(st, run, st')
    ensures Mirror(st', SbTreeRuns.Play(tree, steps).tree, {})
    decreases |steps|
  {
    if steps == [] {
      run, st' := [], st;
    } else {
      var one, mid, next, left;
      match steps[0] {
        case Put(k, v) =>
          next, left := SbTree.Insert(tree, k, v), open - {k};
          one, mid := PutSimulated(st, tree, open, k);
        case Take(k) =>
          next, left := SbTree.Delete(tree, k).tree, open;
          one, mid := TakeSimulated(st, tree, open, k);
      }
      LaterPuts(open, left, steps);
      var rest;
      rest, st' := Simulates(mid, next, left, steps[1..]);
      run := one + rest;
      LeadsOn(st, one, mid, rest, st');
    }
  }

  lemma LaterPuts(open: set<nat>, left: set<nat>, steps: seq<SbTreeRuns.Step>)
    requires Opens(open, steps) && steps != [] && left == if steps[0].Put? then open - {steps[0].key} else open
    ensures Opens(left, steps[1..])
  {
    assert forall i :: 0 <= i < |steps[1..]| ==> steps[1..][i] == steps[i + 1];
  }

  lemma PutSimulated(st: State, tree: SbTree.Tree, open: set<nat>, k: nat) returns (run: seq<Action>, st': State)
    requires Mirror(st, tree, open) && k in open
    ensures Leads(st, run, st') && Mirror(st', SbTree.Insert(tree, k, k), open - {k})
  {
    assert Open(st, k);
    run, st' := LingerOne(st, 0, k);
    PutStays(st, st', open, k);
    var e := SbTree.Entries(tree);
    SbTree.InsertEntries(tree, k, k);
    SbTree.InsertSorted(tree, k, k);
    PutEntries(st, st', e, SbTree.CountUpTo(e, k), k, SbTree.Entries(SbTree.Insert(tree, k, k)));
  }

  lemma PutStays(st: State, st': State, open: set<nat>, k: nat)
    requires k in open && (forall j :: j in open ==> Open(st, j)) && CellCleared(st, st', k)
    ensures Kept(st', k) && (forall j :: j in open - {k} ==> Open(st', j))
            && (forall j :: Kept(st, j) ==> Kept(st', j) && j != k)
  {
    assert Open(st, k);
    JustKept(st, st', k);
    forall j | j in open - {k} ensures Open(st', j) {
      assert Open(st, j);
      OthersStayOpen(st, st', k, j);
    }
    forall j | Kept(st, j) ensures Kept(st', j) && j != k {
      KeptStays(st, st', k, j);
    }
  }

  /** The cell of the id is emptied, and no session changes. */
  ghost predicate CellCleared(st: State, st': State, k: nat)
  {
    && k > 0 && SlotOf(st.pool.n, k) < |st.sessions| && st'.pool.n == st.pool.n && st'.objs == st.objs
    && st'.sessions == st.sessions[SlotOf(st.pool.n, k) := None]
  }

  lemma JustKept(st: State, st': State, k: nat)
    requires Open(st, k) && CellCleared(st, st', k)
    ensures Kept(st', k)
  {
  }

  lemma OthersStayOpen(st: State, st': State, k: nat, j: nat)
    requires Open(st, k) && Open(st, j) && j != k && CellCleared(st, st', k)
    ensures Open(st', j)
  {
  }

  lemma KeptStays(st: State, st': State, k: nat, j: nat)
    requires Open(st, k) && Kept(st, j) && CellCleared(st, st', k)
    ensures Kept(st', j) && j != k
  {
  }

  lemma PutEntries(st: State, st': State, e: seq<(nat, int)>, p: nat, k: nat, e': seq<(nat, int)>)
    requires KeptEntries(st, e) && p <= |e| && e' == SbTree.InsertAt(e, p, (k, k as int)) && SbTree.Sorted(e')
    requires Kept(st', k) && forall j :: Kept(st, j) ==> Kept(st', j) && j != k
    ensures KeptEntries(st', e')
  {
    JoinedAt(e, p, (k, k as int), e');
    forall i | 0 <= i < |e'| ensures e'[i].1 == e'[i].0 && Kept(st', e'[i].0) && (i != p ==> e'[i].0 != k) {
      if i < p { assert Kept(st, e[i].0); } else if i > p { assert Kept(st, e[i - 1].0); }
    }
  }

  lemma TakeSimulated(st: State, tree: SbTree.Tree, open: set<nat>, k: nat) returns (run: seq<Action>, st': State)
    requires Mirror(st, tree, open) && SbTree.Delete(tree, k).Removed?
    ensures Leads(st, run, st') && Mirror(st', SbTree.Delete(tree, k).tree, open)
  {
    var e := SbTree.Entries(tree);
    SbTree.DeleteOutcome(tree, k);
    SbTree.FindIsMatch(tree, k);
    var m := SbTree.MatchIndex(tree, k);
    assert Kept(st, e[m].0);
    run := [Fetch(0, [k])] + Round(0, k, k, SbTreeDamage.Nil);
    st' := FetchedRound(st, 0, k, k, k, SbTreeDamage.Nil);
    TakeStays(st, st', open, k);
    TakeEntries(st, st', e, m, k, SbTree.Entries(SbTree.Delete(tree, k).tree));
  }

  lemma TakeStays(st: State, st': State, open: set<nat>, k: nat)
    requires st'.pool == st.pool && st'.sessions == st.sessions && st'.objs.Keys == st.objs.Keys && Kept(st, k)
    requires forall x :: x in st.objs ==>
              st'.objs[x].id == st.objs[x].id && (x != k ==> st'.objs[x].freed == st.objs[x].freed)
    requires forall j :: j in open ==> Open(st, j)
    ensures (forall j :: j in open ==> Open(st', j)) && (forall j :: Kept(st, j) && j != k ==> Kept(st', j))
  {
    forall j | j in open ensures Open(st', j) {
      assert Open(st, j);
    }
  }

  lemma TakeEntries(st: State, st': State, e: seq<(nat, int)>, m: nat, k: nat, e': seq<(nat, int)>)
    requires KeptEntries(st, e) && m < |e| && e[m].0 == k && e' == SbTree.RemoveAt(e, m)
    requires forall j :: Kept(st, j) && j != k ==> Kept(st', j)
    ensures KeptEntries(st', e')
  {
    assert forall i :: 0 <= i < m ==> e'[i] == e[i];
    assert forall i :: m <= i < |e'| ==> e'[i] == e[i + 1];
    forall i | 0 <= i < |e'| ensures e'[i].1 == e'[i].0 && Kept(st', e'[i].0) {
      assert Kept(st, e[if i < m then i else i + 1].0);
    }
  }

  /** With 200 slots and two threads there is a run, without a slot ever being handed out twice, in which a session
      is released twice: 23 sessions are closed with unsent data, six of them are released, and then both threads
      fetch an event for the one with id 150.  The first one's release meets the deletion that removes nothing;
      the second one, which has waited for the lock, finds the session again. */
  lemma FaultReleasesTwice(n: Slots) returns (run: seq<Action>)
    requires n >= 200
    ensures Exec(Start(n, 2), run).Some?
    ensures var end := Exec(Start(n, 2), run).value;
            FirstUse(end.pool) && 150 in end.objs && end.objs[150].freed == 2
  {
    var first, st, tree := FaultingTree(n);
    var twice, end := SameSessionTwice(st, tree, 150);
    LeadsOn(Start(n, 2), first, st, twice, end);
    run := first + twice;
  }

  lemma FaultingTree(n: Slots) returns (run: seq<Action>, st: State, tree: SbTree.Tree)
    requires n >= 200
    ensures Leads(Start(n, 2), run, st) && Mirror(st, tree, {}) && SbTree.Delete(tree, 150).Fault?
  {
    var puts;
    puts, tree := SbTreeRuns.FaultReachable();
    run, st := Simulated(n, puts + SbTreeRuns.SIX_TAKES, puts);
  }

  lemma Simulated(n: Slots, steps: seq<SbTreeRuns.Step>, puts: seq<SbTreeRuns.Step>)
    returns (run: seq<Action>, st: State)
    requires n >= 200 && steps == puts + SbTreeRuns.SIX_TAKES && SbTreeRuns.OwnPuts(puts)
             && SbTreeRuns.AllTaken(SbTree.Leaf, steps)
    ensures SbTreeRuns.Play(SbTree.Leaf, steps).Reached?
    ensures Leads(Start(n, 2), run, st) && Mirror(st, SbTreeRuns.Play(SbTree.Leaf, steps).tree, {})
  {
    var opening, begun := OpenMany(n, 2, 200);
    var middle;
    middle, st := SimulatedFrom(n, begun, steps, puts);
    LeadsOn(Start(n, 2), opening, begun, middle, st);
    run := opening + middle;
  }

  lemma SimulatedFrom(n: Slots, begun: State, steps: seq<SbTreeRuns.Step>, puts: seq<SbTreeRuns.Step>)
    returns (run: seq<Action>, st: State)
    requires OpenTo(begun, n, 2, 200)
    requires steps == puts + SbTreeRuns.SIX_TAKES && SbTreeRuns.OwnPuts(puts) && SbTreeRuns.AllTaken(SbTree.Leaf, steps)
    ensures SbTreeRuns.Play(SbTree.Leaf, steps).Reached?
    ensures Leads(begun, run, st) && Mirror(st, SbTreeRuns.Play(SbTree.Leaf, steps).tree, {})
  {
    var open := UpTo(200);
    OpensAll(open, puts);
    MirrorAtStart(begun, n, open);
    run, st := Simulates(begun, SbTree.Leaf, open, steps);
  }

  lemma UpTo(m: nat) returns (numbers: set<nat>)
    ensures forall k: nat :: k in numbers <==> 1 <= k <= m
  {
    RangeCount(m + 1);
    numbers := Range(m + 1) - {0};
  }

  lemma MirrorAtStart(st: State, n: Slots, open: set<nat>)
    requires OpenTo(st, n, 2, 200) && forall k: nat :: k in open <==> 1 <= k <= 200
    ensures Mirror(st, SbTree.Leaf, open)
  {
    assert SbTree.Entries(SbTree.Leaf) == [];
    assert st.pcs == [Idle, Idle];
  }

  lemma OpensAll(open: set<nat>, puts: seq<SbTreeRuns.Step>)
    requires SbTreeRuns.OwnPuts(puts) && forall k: nat :: k in open <==> 1 <= k <= 200
    ensures Opens(open, puts + SbTreeRuns.SIX_TAKES)
  {
    var run := puts + SbTreeRuns.SIX_TAKES;
    assert forall i :: |puts| <= i < |run| ==> run[i] == SbTreeRuns.SIX_TAKES[i - |puts|] && run[i].Take?;
  }

  lemma SameSessionTwice(st: State, tree: SbTree.Tree, k: nat) returns (run: seq<Action>, end: State)
    requires Mirror(st, tree, {}) && SbTree.Delete(tree, k).Fault?
    ensures Leads(st, run, end) && FirstUse(end.pool) && k in end.objs && end.objs[k].freed == 2
  {
    var s2 := BothFetch(st, tree, k);
    var mid := FaultingRound(s2, tree, k);
    end := RoundReleases(mid, 1, k, k, SbTreeDamage.Nil);
    var fetches := [Fetch(0, [k])] + [Fetch(1, [k])];
    LeadsOn(st, fetches, s2, Round(0, k, k, SbTreeDamage.Nil), mid);
    run := fetches + Round(0, k, k, SbTreeDamage.Nil) + Round(1, k, k, SbTreeDamage.Nil);
    LeadsOn(st, fetches + Round(0, k, k, SbTreeDamage.Nil), mid, Round(1, k, k, SbTreeDamage.Nil), end);
  }

  /** Each thread has an event for the session, which lingers. */
  ghost predicate BothAsked(st: State, tree: SbTree.Tree, k: nat)
  {
    && SlotsInv(st) && st.pcs == [Fetched([k]), Fetched([k])] && st.closeRoot == Sound(tree) && FirstUse(st.pool)
    && Kept(st, k) && SbTree.Delete(tree, k).Fault? && SbTree.Find(tree, k) == Some(k)
    && SbTreeDamage.RawFind(SbTreeDamage.Faulted(tree, k), k) == Some(k)
  }

  lemma BothFetch(st: State, tree: SbTree.Tree, k: nat) returns (s2: State)
    requires Mirror(st, tree, {}) && SbTree.Delete(tree, k).Fault?
    ensures Leads(st, [Fetch(0, [k])] + [Fetch(1, [k])], s2) && BothAsked(s2, tree, k)
  {
    FaultingEntry(st, tree, k);
    s2 := TwoFetch(st, k);
  }

  lemma TwoFetch(st: State, k: nat) returns (s2: State)
    requires SlotsInv(st) && st.pcs == [Idle, Idle] && HasFile(st.objs, k) && st.objs[k].id == k
    ensures Leads(st, [Fetch(0, [k])] + [Fetch(1, [k])], s2) && s2 == st.(pcs := [Fetched([k]), Fetched([k])])
  {
    var s1 := FetchOne(st, 0, k, k);
    s2 := FetchOne(s1, 1, k, k);
    LeadsOn(st, [Fetch(0, [k])], s1, [Fetch(1, [k])], s2);
  }

  lemma FaultingRound(st: State, tree: SbTree.Tree, k: nat) returns (mid: State)
    requires BothAsked(st, tree, k)
    ensures Leads(st, Round(0, k, k, SbTreeDamage.Nil), mid) && Enabled(mid, WaitFind(1, k)) && !Found(mid, k)
    ensures RootFind(mid.closeRoot, k) == Some(k) && k in mid.objs && mid.objs[k].freed == 1
    ensures FirstUse(mid.pool) && NothingNew(mid.closeRoot, [], SbTreeDamage.Nil)
  {
    FoundAgain(tree, k);
    FirstLooks(st, k);
    mid := RoundReleases(st, 0, k, k, SbTreeDamage.Nil);
    SecondLooks(st, mid, tree, k);
  }

  lemma FirstLooks(st: State, k: nat)
    requires st.pcs == [Fetched([k]), Fetched([k])] && Kept(st, k)
    ensures Enabled(st, WaitFind(0, k)) && st.pcs[0].ids[1..] == []
  {
  }

  lemma SecondLooks(st: State, mid: State, tree: SbTree.Tree, k: nat)
    requires BothAsked(st, tree, k) && mid.pcs == st.pcs[0 := AfterEvent([])] && mid.sessions == st.sessions
    requires mid.pool == st.pool && mid.objs.Keys == st.objs.Keys
    requires forall x :: x in st.objs ==> mid.objs[x].id == st.objs[x].id
    requires mid.closeRoot == RootDelete(Sound(tree), k, SbTreeDamage.Nil)
    ensures Enabled(mid, WaitFind(1, k)) && !Found(mid, k) && NothingNew(mid.closeRoot, [], SbTreeDamage.Nil)
  {
    assert mid.pcs == [Idle, Fetched([k])];
  }

  /** The deletion that faults leaves the session to be found. */
  lemma FoundAgain(tree: SbTree.Tree, k: nat)
    requires SbTree.Delete(tree, k).Fault? && SbTreeDamage.RawFind(SbTreeDamage.Faulted(tree, k), k) == Some(k)
    ensures RootFind(RootDelete(Sound(tree), k, SbTreeDamage.Nil), k) == Some(k)
  {
  }

  lemma FaultingEntry(st: State, tree: SbTree.Tree, k: nat)
    requires KeptEntries(st, SbTree.Entries(tree)) && SbTree.Delete(tree, k).Fault?
    ensures Kept(st, k) && SbTree.Find(tree, k) == Some(k)
    ensures SbTreeDamage.RawFind(SbTreeDamage.Faulted(tree, k), k) == Some(k)
  {
    var e := SbTree.Entries(tree);
    SbTree.DeleteOutcome(tree, k);
    SbTree.FindIsMatch(tree, k);
    var m := SbTree.MatchIndex(tree, k);
    assert Kept(st, e[m].0);
    FaultFinds(tree, k, k, m);
  }
}
