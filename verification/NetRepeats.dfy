/** Runs of the session protocol in which an id comes round again, or a node moves, at the wrong moment: what the
    conditions of `NetRelease` and `NetEvents` shut out can be reached. */
module NetRepeats {
  import opened Options
  import Arith
  import opened Ffid
  import opened NetProtocol
  import opened NetRelease
  import opened NetEvents
  import opened NetRuns
  import SbTree
  import SbTreeDamage

  // ---------------------------------------------------------------- two sessions with one id

  /** The tree with one session, and with two under one id. */
  ghost function OneTree(nd: nat, o: nat): SbTree.Tree { SbTree.Node(SbTree.Leaf, nd, o, SbTree.Leaf) }

  lemma TwoUnderOneId(o: nat, q: nat, y: nat)
    ensures SbTree.Insert(SbTree.Leaf, 1, o) == OneTree(1, o)
    ensures SbTree.Insert(OneTree(1, o), 1, q) == SbTree.Node(SbTree.Leaf, 1, o, OneTree(1, q))
    ensures SbTree.Insert(OneTree(1, o), 2, y) == SbTree.Node(SbTree.Leaf, 1, o, OneTree(2, y))
  {
    assert SbTree.Insert(SbTree.Leaf, 1, q) == OneTree(1, q) && SbTree.Insert(SbTree.Leaf, 2, y) == OneTree(2, y);
    assert SbTree.Size(OneTree(1, q)) == 1 && SbTree.Size(OneTree(2, y)) == 1;
  }

  /** Inserting a third session turns the tree: the second one under the id comes above the first. */
  lemma TurnedTree(o: nat, q: nat, y: nat)
    ensures SbTree.Insert(SbTree.Node(SbTree.Leaf, 1, o, OneTree(1, q)), 2, y)
            == SbTree.Node(OneTree(1, o), 1, q, OneTree(2, y))
  {
    var r := SbTree.Node(SbTree.Leaf, 1, q, OneTree(2, y));
    assert SbTree.Insert(SbTree.Leaf, 2, y) == OneTree(2, y);
    assert SbTree.Size(OneTree(2, y)) == 1 && SbTree.Size(OneTree(1, o)) == 1;
    assert SbTree.Insert(OneTree(1, q), 2, y) == r;
    var t, u := SbTree.Node(SbTree.Leaf, 1, o, r), SbTree.Node(OneTree(1, o), 1, q, OneTree(2, y));
    assert SbTree.LiftRight(t) == u;
    assert SbTree.Maintain(SbTree.Leaf, true) == SbTree.Leaf;
    assert SbTree.Maintain(u, false) == u && SbTree.Maintain(u, true) == u;
  }

  /** Two threads, and every slot but the first in use: session 1 was closed under id 1 and lingers, session 2 is
      open under id 2. */
  ghost predicate Twin(n: Slots, st: State, tree: SbTree.Tree)
  {
    && n >= 2 && SlotsInv(st) && ReleaseInv(st) && st.pool.n == n && st.pool.free == [0]
    && |st.pcs| == 2 && AllIdle(st.pcs) && |st.sessions| == n && st.sessions[0] == None && st.sessions[1] == Some(2)
    && st.closeRoot == Sound(tree) && 1 in st.objs && 2 in st.objs && st.objs[1].id == 1 && st.objs[2].id == 2
  }

  lemma FirstSlots(n: Slots)
    ensures SlotOf(n, 1) == 0 && (n >= 2 ==> SlotOf(n, 2) == 1)
  {
    Arith.DivUnique(0, n, 0, 0);
    if n >= 2 { Arith.DivUnique(1, n, 0, 1); }
  }

  lemma TwinReached(n: Slots) returns (run: seq<Action>, st: State)
    requires n >= 2
    ensures Leads(Start(n, 2), run, st) && Twin(n, st, OneTree(1, 1)) && Below(st.objs, n + 1)
    ensures |st.pool.gens| == n && st.pool.gens[0] == 1
  {
    var a, mid := OpenMany(n, 2, n);
    FirstSlots(n);
    assert Open(mid, 1) && Open(mid, 2);
    TwoUnderOneId(1, 1, 1);
    var b;
    b, st := LingerOne(mid, 0, 1);
    run := a + b;
    LeadsOn(Start(n, 2), a, mid, b, st);
  }

  /** A whole cycle of the first slot later. */
  lemma TwinAfterCycle(n: Slots) returns (run: seq<Action>, st: State, q: nat)
    requires n >= 2
    ensures Leads(Start(n, 2), run, st) && Twin(n, st, OneTree(1, 1)) && q > 2 && Below(st.objs, q)
    ensures |st.pool.gens| == n && st.pool.gens[0] == Cycle(n, 0)
  {
    var a, mid := TwinReached(n);
    var c := Cycle(n, 0);
    var b;
    b, st := SpinMany(mid, 0, 0, n + 1, c - 1);
    q := n + c;
    run := a + b;
    LeadsOn(Start(n, 2), a, mid, b, st);
  }

  /** After a whole cycle of the first slot a second session is closed under id 1. */
  lemma SharedIdReached(n: Slots) returns (run: seq<Action>, st: State, q: nat)
    requires n >= 2
    ensures Leads(Start(n, 2), run, st) && q > 2
    ensures Twin(n, st, SbTree.Node(SbTree.Leaf, 1, 1, OneTree(1, q)))
  {
    var a, mid;
    a, mid, q := TwinAfterCycle(n);
    var b;
    b, st := CloseAgain(n, mid, q);
    run := a + b;
    LeadsOn(Start(n, 2), a, mid, b, st);
  }

  lemma CloseAgain(n: Slots, mid: State, q: nat) returns (run: seq<Action>, st: State)
    requires Twin(n, mid, OneTree(1, 1)) && q > 2 && Below(mid.objs, q) && |mid.pool.gens| == n
             && mid.pool.gens[0] == Cycle(n, 0)
    ensures Leads(mid, run, st) && Twin(n, st, SbTree.Node(SbTree.Leaf, 1, 1, OneTree(1, q)))
  {
    SameIdAgain(n, 0);
    var d, s3 := OpenAs(mid, 0, q, 0, 1);
    var e;
    e, st := LingerTwin(n, mid, s3, q);
    run := d + e;
    LeadsOn(mid, d, s3, e, st);
  }

  lemma LingerTwin(n: Slots, mid: State, s3: State, q: nat) returns (run: seq<Action>, st: State)
    requires Twin(n, mid, OneTree(1, 1)) && q > 2 && SlotsInv(s3) && ReleaseInv(s3)
    requires s3.pool.n == n && s3.pool.free == [] && s3.sessions == mid.sessions[0 := Some(q)] && s3.pcs == mid.pcs
    requires s3.closeRoot == mid.closeRoot && q in s3.objs && s3.objs[q].id == 1
    requires forall o :: o in mid.objs ==> o in s3.objs && s3.objs[o] == mid.objs[o]
    ensures Leads(s3, run, st) && Twin(n, st, SbTree.Node(SbTree.Leaf, 1, 1, OneTree(1, q)))
  {
    FirstSlots(n);
    TwoUnderOneId(1, q, 1);
    run, st := LingerOne(s3, 0, 1);
  }

  /** With two threads and any number of slots from two on there is a run in which a session is released twice
      although no deletion faults: two sessions linger under the id 1, one thread finds the first, the other
      closes a session, whose insertion turns the tree, and the first thread's deletion takes out the entry
      of the wrong one.  The next event for that one leads to the first again. */
  lemma SharedIdReleasesTwice(n: Slots) returns (run: seq<Action>)
    requires n >= 2
    ensures Exec(Start(n, 2), run).Some? && 1 in Exec(Start(n, 2), run).value.objs
    ensures Exec(Start(n, 2), run).value.objs[1].freed == 2
  {
    var a, s1, q := SharedIdReached(n);
    var b, s2 := TurnedUnderReader(n, s1, q);
    LeadsOn(Start(n, 2), a, s1, b, s2);
    var last := WrongEntryOut(n, s2, q);
    ExecConcat(Start(n, 2), a + b, last);
    run := a + b + last;
  }

  /** Thread 0 is about to release session 1, whose entry is now below another one with the same id. */
  ghost predicate AboutToMiss(n: Slots, st: State, q: nat)
  {
    && n >= 2 && SlotsInv(st) && ReleaseInv(st) && st.pool.n == n && |st.pcs| == 2 && st.pcs[0] == Dropping(1, 0, [])
    && |st.sessions| == n && st.sessions[0] == None && 1 in st.objs && st.objs[1].id == 1 && q > 2
    && st.closeRoot == Sound(SbTree.Node(OneTree(1, 1), 1, q, OneTree(2, 2)))
  }

  lemma TurnedUnderReader(n: Slots, st: State, q: nat) returns (run: seq<Action>, st': State)
    requires Twin(n, st, SbTree.Node(SbTree.Leaf, 1, 1, OneTree(1, q))) && q > 2
    ensures Leads(st, run, st') && AboutToMiss(n, st', q)
  {
    var s1 := FirstFound(n, st, q);
    var b, s2 := CloseMeanwhile(n, s1, q);
    st' := ReadOne(s2, 0);
    var find := [Fetch(0, [1])] + [WaitFind(0, 1)];
    LeadsOn(st, find, s1, b, s2);
    LeadsOn(st, find + b, s2, [WaitRead(0, 1)], st');
    run := find + b + [WaitRead(0, 1)];
  }

  lemma FirstFound(n: Slots, st: State, q: nat) returns (s1: State)
    requires Twin(n, st, SbTree.Node(SbTree.Leaf, 1, 1, OneTree(1, q))) && q > 2
    ensures Leads(st, [Fetch(0, [1])] + [WaitFind(0, 1)], s1) && ReleaseInv(s1)
    ensures s1 == st.(pcs := [Peeking(1, st.objs[1].moves, 0, []), Idle])
  {
    FirstSlots(n);
    TwinEntries(st.closeRoot, q);
    RootLingers(st, 1, 0);
    assert st.pcs == [Idle, Idle];
    s1 := FetchAndFind(st, 1);
  }

  lemma TwinEntries(root: Root, q: nat)
    requires root == Sound(SbTree.Node(SbTree.Leaf, 1, 1, OneTree(1, q)))
    ensures |Stored(root)| == 2 && Stored(root)[0] == (1, 1) && RootFind(root, 1) == Some(1)
  {
    assert SbTree.Entries(SbTree.Leaf) == [];
    assert SbTree.Entries(OneTree(1, q)) == [(1, q as int)];
  }

  /** The first of two idle threads fetches an event for the session and finds it in `close_root`. */
  lemma FetchAndFind(st: State, o: nat) returns (s1: State)
    requires SlotsInv(st) && ReleaseInv(st) && st.pcs == [Idle, Idle] && HasFile(st.objs, o)
    requires !Found(st, st.objs[o].id) && RootFind(st.closeRoot, st.objs[o].id) == Some(o)
    ensures Leads(st, [Fetch(0, [o])] + [WaitFind(0, st.objs[o].id)], s1) && ReleaseInv(s1)
    ensures s1 == st.(pcs := [Peeking(o, st.objs[o].moves, SlotOf(st.pool.n, st.objs[o].id), []), Idle])
  {
    var s0 := FetchOne(st, 0, o, st.objs[o].id);
    s1 := FindOne(s0, 0, st.objs[o].id, o);
    LeadsOn(st, [Fetch(0, [o])], s0, [WaitFind(0, st.objs[o].id)], s1);
  }

  /** What stands in `close_root` still has its file. */
  lemma RootLingers(st: State, o: nat, i: nat)
    requires ReleaseInv(st) && i < |Stored(st.closeRoot)| && Stored(st.closeRoot)[i].1 == o
    ensures HasFile(st.objs, o) && st.objs[o].id == Stored(st.closeRoot)[i].0
  {
    assert Lingers(st.objs, Stored(st.closeRoot)[i]);
  }

  lemma CloseMeanwhile(n: Slots, s1: State, q: nat) returns (run: seq<Action>, s2: State)
    requires n >= 2 && SlotsInv(s1) && ReleaseInv(s1) && s1.pool.n == n && |s1.pcs| == 2 && s1.pcs[0].Peeking?
             && s1.pcs[0].slot == 0
    requires s1.pcs[1].Idle? && |s1.sessions| == n && s1.sessions[0] == None && s1.sessions[1] == Some(2)
    requires 2 in s1.objs && s1.objs[2].id == 2
    requires s1.closeRoot == Sound(SbTree.Node(SbTree.Leaf, 1, 1, OneTree(1, q)))
    ensures Leads(s1, run, s2) && ReleaseInv(s2) && s2.pool.n == n && s2.pcs == s1.pcs && s2.objs == s1.objs
    ensures |s2.sessions| == n && s2.sessions[0] == None
    ensures s2.closeRoot == Sound(SbTree.Node(OneTree(1, 1), 1, q, OneTree(2, 2)))
  {
    FirstSlots(n);
    TurnedTree(1, q, 2);
    run, s2 := LingerOne(s1, 1, 2);
  }

  lemma WrongEntryOut(n: Slots, st: State, q: nat) returns (run: seq<Action>)
    requires AboutToMiss(n, st, q)
    ensures Exec(st, run).Some? && 1 in Exec(st, run).value.objs && Exec(st, run).value.objs[1].freed == 2
  {
    FirstSlots(n);
    TurnedEntries(q);
    RootLingers(st, q, 1);
    SecondSessionReleasesAgain(st, 0, 0, q, SbTreeDamage.Nil);
    run := [Drop(0, SbTreeDamage.Nil)] + ([Fetch(0, [q])] + Round(0, 1, 1, SbTreeDamage.Nil));
  }

  lemma TurnedEntries(q: nat)
    ensures var t := SbTree.Node(OneTree(1, 1), 1, q, OneTree(2, 2));
            && SbTree.Entries(t) == [(1, 1), (1, q as int), (2, 2)] && SbTree.Find(t, 1) == Some(q)
               && !SbTree.MatchHollow(t, 1)
  {
    assert SbTree.Entries(SbTree.Leaf) == [];
    assert SbTree.Entries(OneTree(1, 1)) == [(1, 1)] && SbTree.Entries(OneTree(2, 2)) == [(2, 2)];
  }

  // ---------------------------------------------------------------- a node freed between finding and reading

  /** With two threads there is a run in which one of them is about to read a node that the other one's release of
      another session has freed. */
  lemma NodeFreedBeforeRead(n: Slots) returns (run: seq<Action>)
    requires n >= 2
    ensures Exec(Start(n, 2), run).Some?
    ensures var st := Exec(Start(n, 2), run).value; |st.pcs| == 2 && st.pcs[0].Peeking? && !Fresh(st, st.pcs[0])
  {
    var a, s1 := TwoLinger(n);
    var b, s2 := ChildFreed(n, s1);
    LeadsOn(Start(n, 2), a, s1, b, s2);
    run := a + b;
  }

  ghost predicate BothLinger(n: Slots, st: State)
  {
    && n >= 2 && SlotsInv(st) && st.pool.n == n && |st.pcs| == 2 && AllIdle(st.pcs)
    && |st.sessions| == n && st.sessions[0] == None && st.sessions[1] == None
    && st.closeRoot == Sound(SbTree.Node(SbTree.Leaf, 1, 1, OneTree(2, 2)))
    && HasFile(st.objs, 1) && HasFile(st.objs, 2) && st.objs[1].id == 1 && st.objs[2].id == 2
  }

  lemma TwoLinger(n: Slots) returns (run: seq<Action>, st: State)
    requires n >= 2
    ensures Leads(Start(n, 2), run, st) && BothLinger(n, st)
  {
    var a, s1 := TwinReached(n);
    var b;
    b, st := SecondLingers(n, s1);
    LeadsOn(Start(n, 2), a, s1, b, st);
    run := a + b;
  }

  lemma SecondLingers(n: Slots, s1: State) returns (run: seq<Action>, st: State)
    requires Twin(n, s1, OneTree(1, 1))
    ensures Leads(s1, run, st) && BothLinger(n, st)
  {
    FirstSlots(n);
    TwoUnderOneId(1, 1, 2);
    TwinFiles(n, s1);
    run, st := LingerOne(s1, 0, 2);
  }

  lemma TwinFiles(n: Slots, st: State)
    requires Twin(n, st, OneTree(1, 1))
    ensures HasFile(st.objs, 1) && HasFile(st.objs, 2)
  {
    assert SbTree.Entries(SbTree.Leaf) == [];
    assert Stored(st.closeRoot) == [(1, 1)];
    RootLingers(st, 1, 0);
    assert Whole(st.objs, Stored(st.closeRoot), 2);
  }

  lemma ChildFreed(n: Slots, st: State) returns (run: seq<Action>, st': State)
    requires BothLinger(n, st)
    ensures Leads(st, run, st') && |st'.pcs| == 2 && st'.pcs[0].Peeking? && !Fresh(st', st'.pcs[0])
  {
    var a, s2 := BothFind(n, st);
    var s3 := ReadOne(s2, 1);
    st' := NodeGone(s3);
    LeadsOn(st, a, s2, [WaitRead(1, 1)], s3);
    LeadsOn(st, a + [WaitRead(1, 1)], s3, [Drop(1, SbTreeDamage.Nil)], st');
    run := a + [WaitRead(1, 1)] + [Drop(1, SbTreeDamage.Nil)];
  }

  /** Each thread has found one of the two. */
  lemma BothFind(n: Slots, st: State) returns (run: seq<Action>, s4: State)
    requires BothLinger(n, st)
    ensures Leads(st, run, s4)
    ensures s4 == st.(pcs := [Peeking(2, st.objs[2].moves, 1, []), Peeking(1, st.objs[1].moves, 0, [])])
  {
    FirstSlots(n);
    assert st.pcs == [Idle, Idle];
    var s1 := FetchOne(st, 0, 2, 2);
    var s2 := FindOne(s1, 0, 2, 2);
    var s3 := FetchOne(s2, 1, 1, 1);
    s4 := FindOne(s3, 1, 1, 1);
    LeadsFour(st, [Fetch(0, [2])], s1, [WaitFind(0, 2)], s2, [Fetch(1, [1])], s3, [WaitFind(1, 1)], s4);
    run := [Fetch(0, [2])] + [WaitFind(0, 2)] + [Fetch(1, [1])] + [WaitFind(1, 1)];
  }

  lemma NodeGone(st: State) returns (st': State)
    requires SlotsInv(st) && |st.pcs| == 2 && st.pcs[0].Peeking? && st.pcs[0].obj == 2 && Fresh(st, st.pcs[0])
    requires st.pcs[1].Dropping? && st.pcs[1].obj == 1 && 1 in st.objs && 2 in st.objs && st.objs[1].id == 1
    requires st.closeRoot == Sound(SbTree.Node(SbTree.Leaf, 1, 1, OneTree(2, 2)))
    ensures Leads(st, [Drop(1, SbTreeDamage.Nil)], st')
    ensures |st'.pcs| == 2 && st'.pcs[0].Peeking? && !Fresh(st', st'.pcs[0])
  {
    ChildMoves(1, 2);
    st' := OneStep(st, Drop(1, SbTreeDamage.Nil));
  }

  lemma ChildMoves(o: nat, y: nat)
    ensures NodeFreed(Sound(SbTree.Node(SbTree.Leaf, 1, o, OneTree(2, y))), 1) == y
  {
    assert SbTree.Size(OneTree(2, y)) == 1;
  }

  // ---------------------------------------------------------------- an entry that outlived its session

  /** With one thread there is a run after which an installed session, none of whose queue writes failed, waits in
      the event queue without being flagged: the entry of a session long closed has the same id and cleared
      its flag. */
  lemma StaleEntryClearsFlag(n: Slots) returns (run: seq<Action>)
    ensures Exec(Start(n, 1), run).Some?
    ensures var st := Exec(Start(n, 1), run).value;
            && |st.sessions| == n && st.sessions[0].Some? && st.sessions[0].value in st.objs
            && var x := st.objs[st.sessions[0].value];
               !x.lostEvent && !x.inQueue && Waiting(st, Events, st.sessions[0].value) == 1
  {
    var a, s1 := QueuedAndClosed(n);
    var c := Cycle(n, 0);
    var b, s2 := SpinMany(s1, 0, 0, n + 1, c - 1);
    var d, s3 := OldEntryLooksUp(n, s2, n + c);
    LeadsOn(Start(n, 1), a, s1, b, s2);
    LeadsOn(Start(n, 1), a + b, s2, d, s3);
    run := a + b + d;
  }

  /** The first slot is free again, and the entry of its first session still queued. */
  ghost predicate OldEntryWaits(n: Slots, st: State, m: nat)
  {
    && SlotsInv(st) && st.pool.n == n && st.pool.free == [0] && |st.pool.gens| == n && |st.pcs| == 1 && AllIdle(st.pcs)
    && |st.sessions| == n && st.sessions[0] == None && st.eventQueue == [Entry(1, 1)] && m > 1 && Below(st.objs, m)
  }

  lemma QueuedAndClosed(n: Slots) returns (run: seq<Action>, st: State)
    ensures Leads(Start(n, 1), run, st) && OldEntryWaits(n, st, n + 1) && st.pool.gens[0] == 1
  {
    var a, s1 := OpenMany(n, 1, n);
    var b;
    b, st := PushAndClose(n, s1);
    LeadsOn(Start(n, 1), a, s1, b, st);
    run := a + b;
  }

  lemma PushAndClose(n: Slots, s1: State) returns (run: seq<Action>, st: State)
    requires OpenTo(s1, n, 1, n)
    ensures Leads(s1, run, st) && OldEntryWaits(n, st, n + 1) && st.pool.gens[0] == 1
  {
    FirstSlots(n);
    assert Open(s1, 1) && Calm(s1, 1);
    var s2 := PushOne(s1, 1, {7});
    var b;
    b, st := CloseOne(s2, 0, 1);
    LeadsOn(s1, [Push(Events, 1, {7}, true)], s2, b, st);
    run := [Push(Events, 1, {7}, true)] + b;
  }

  lemma OldEntryLooksUp(n: Slots, st: State, c: nat) returns (run: seq<Action>, st': State)
    requires OldEntryWaits(n, st, c) && st.pool.gens[0] == Cycle(n, 0)
    ensures Leads(st, run, st')
    ensures |st'.sessions| == n && st'.sessions[0] == Some(c) && c in st'.objs
    ensures !st'.objs[c].lostEvent && !st'.objs[c].inQueue && Waiting(st', Events, c) == 1
  {
    var a, s2 := OpenedAgain(n, st, c);
    var b, s3 := FlagCleared(n, s2, c);
    st' := s3;
    LeadsOn(st, a, s2, b, s3);
    run := a + b;
  }

  /** Two entries with one id, the second one of the session that is there now. */
  ghost predicate TwoEntries(n: Slots, st: State, c: nat)
  {
    && SlotsInv(st) && st.pool.n == n && |st.pcs| == 1 && AllIdle(st.pcs) && |st.sessions| == n
       && st.sessions[0] == Some(c)
    && st.eventQueue == [Entry(1, 1), Entry(1, c)] && c > 1 && c in st.objs && st.objs[c].id == 1
       && !st.objs[c].lostEvent
  }

  lemma OpenedAgain(n: Slots, st: State, c: nat) returns (run: seq<Action>, s2: State)
    requires OldEntryWaits(n, st, c) && st.pool.gens[0] == Cycle(n, 0)
    ensures Leads(st, run, s2) && TwoEntries(n, s2, c)
  {
    SameIdAgain(n, 0);
    FirstSlots(n);
    var a, s1 := OpenAs(st, 0, c, 0, 1);
    s2 := PushOne(s1, 1, {7});
    LeadsOn(st, a, s1, [Push(Events, 1, {7}, true)], s2);
    run := a + [Push(Events, 1, {7}, true)];
  }

  lemma FlagCleared(n: Slots, st: State, c: nat) returns (run: seq<Action>, st': State)
    requires TwoEntries(n, st, c)
    ensures Leads(st, run, st')
    ensures |st'.sessions| == n && st'.sessions[0] == Some(c) && c in st'.objs
    ensures !st'.objs[c].lostEvent && !st'.objs[c].inQueue && Waiting(st', Events, c) == 1
  {
    FirstSlots(n);
    var s3 := ReadQueueOne(st, 0);
    assert st.eventQueue[..1] == [Entry(1, 1)] && st.eventQueue[1..] == [Entry(1, c)];
    st' := ProcessOne(s3, 0, 1, 1);
    OneEntry(1, c);
    NoBatches(st'.pcs, Events, c);
    LeadsOn(st, [Read(0, Events, 1)], s3, [Process(0)], st');
    run := [Read(0, Events, 1)] + [Process(0)];
  }
}
