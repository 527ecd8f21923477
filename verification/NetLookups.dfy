/** A released session is released again only through an event for its id. */
module NetLookups {
  import opened Options
  import opened Ffid
  import opened NetProtocol
  import opened NetRelease
  import opened SbTree
  import SbTreeDamage

  // ---------------------------------------------------------------- entries stand under their own ids

  ghost predicate OwnId(objs: Objs, x: (nat, int))
  {
    x.1 >= 0 && x.1 in objs && objs[x.1].id == x.0 > 0
  }

  /** Every entry of `close_root` has the id of its session, whatever deletions did to the tree. */
  ghost predicate RootOwn(st: State)
  {
    && (st.closeRoot.Sound? ==> Sorted(Stored(st.closeRoot)))
    && forall x :: x in Stored(st.closeRoot) ==> OwnId(st.objs, x)
  }

  lemma StartOwn(n: Slots, threads: nat)
    ensures RootOwn(Start(n, threads))
  {
  }

  lemma KeptOwn(st: State, st': State)
    requires RootOwn(st) && forall o :: o in st.objs && st.objs[o].id > 0 ==>
              o in st'.objs && st'.objs[o].id == st.objs[o].id
    requires forall x :: x in Stored(st'.closeRoot) ==> x in Stored(st.closeRoot)
    requires st'.closeRoot.Sound? ==> Sorted(Stored(st'.closeRoot))
    ensures RootOwn(st')
  {
    forall x | x in Stored(st'.closeRoot) ensures OwnId(st'.objs, x) {
      assert OwnId(st.objs, x);
    }
  }

  /** A deletion, faulting or not, makes up no entry. */
  lemma DeletedOld(root: Root, nd: nat, after: SbTreeDamage.Raw)
    requires NothingNew(root, [], after) && (root.Sound? ==> Sorted(Stored(root)))
    ensures var root' := RootDelete(root, nd, after);
            && (forall x :: x in Stored(root') ==> x in Stored(root)) && (root'.Sound? ==> Sorted(Stored(root')))
  {
    if root.Sound? {
      var tree := root.tree;
      DeleteOutcome(tree, nd);
      if Delete(tree, nd).Fault? {
        SbTreeDamage.FaultedEntries(tree, nd);
      } else {
        StillSorted(Entries(tree), MatchIndex(tree, nd), Entries(Delete(tree, nd).tree));
      }
    }
  }

  lemma InsertedOld(root: Root, nd: nat, o: nat, after: SbTreeDamage.Raw)
    requires NothingNew(root, [(nd, o)], after) && (root.Sound? ==> Sorted(Stored(root)))
    ensures var root' := RootInsert(root, nd, o, after);
            && (forall x :: x in Stored(root') ==> x in Stored(root) || x == (nd, o as int))
            && (root'.Sound? ==> Sorted(Stored(root')))
  {
    if root.Sound? {
      InsertEntries(root.tree, nd, o);
      InsertSorted(root.tree, nd, o);
    }
  }

  /** A step that leaves `close_root` and the ids alone. */
  lemma RootUntouched(st: State, st': State)
    requires RootOwn(st) && st'.closeRoot == st.closeRoot
    requires forall o :: o in st.objs && st.objs[o].id > 0 ==> o in st'.objs && st'.objs[o].id == st.objs[o].id
    ensures RootOwn(st')
  {
    KeptOwn(st, st');
  }

  lemma StepKeepsOwn(st: State, a: Action)
    requires SlotsInv(st) && RootOwn(st) && Enabled(st, a)
    ensures RootOwn(Apply(st, a))
  {
    match a {
      case Park(t, stored, after) => ParkOwn(st, t, stored, after);
      case Drop(t, after) => DropOwn(st, t, after);
      case Install(t) => InstallOwn(st, t);
      case Close(t, nd, linger) => CloseOwn(st, t, nd, linger);
      case Push(_, _, _, _) => PushOwn(st, a);
      case Process(t) => ProcessOwn(st, t);
      case Issue(t, obj) => IssueOwn(st, t, obj);
      case _ => assert Apply(st, a).objs == st.objs && Apply(st, a).closeRoot == st.closeRoot;
    }
  }

  lemma IssueOwn(st: State, t: nat, obj: nat)
    requires SlotsInv(st) && RootOwn(st) && Enabled(st, Issue(t, obj))
    ensures RootOwn(DoIssue(st, t, obj))
  {
    RootUntouched(st, DoIssue(st, t, obj));
  }

  lemma InstallOwn(st: State, t: nat)
    requires SlotsInv(st) && RootOwn(st) && Enabled(st, Install(t))
    ensures RootOwn(Apply(st, Install(t)))
  {
    assert PcOk(st.pool, st.sessions, st.objs, st.pcs[t]);
    RootUntouched(st, Apply(st, Install(t)));
  }

  lemma CloseOwn(st: State, t: nat, nd: nat, linger: bool)
    requires RootOwn(st) && Enabled(st, Close(t, nd, linger))
    ensures RootOwn(DoClose(st, t, nd, linger))
  {
    RootUntouched(st, DoClose(st, t, nd, linger));
  }

  lemma PushOwn(st: State, a: Action)
    requires SlotsInv(st) && RootOwn(st) && Enabled(st, a) && a.Push?
    ensures RootOwn(Apply(st, a))
  {
    RootUntouched(st, Apply(st, a));
  }

  lemma ProcessOwn(st: State, t: nat)
    requires RootOwn(st) && Enabled(st, Process(t))
    ensures RootOwn(DoProcess(st, t))
  {
    RootUntouched(st, DoProcess(st, t));
  }

  lemma DropOwn(st: State, t: nat, after: SbTreeDamage.Raw)
    requires RootOwn(st) && Enabled(st, Drop(t, after))
    ensures RootOwn(DoDrop(st, t, after))
  {
    DropEffects(st, t, after);
    DeletedOld(st.closeRoot, st.objs[st.pcs[t].obj].id, after);
    KeptOwn(st, DoDrop(st, t, after));
  }

  lemma ParkOwn(st: State, t: nat, stored: bool, after: SbTreeDamage.Raw)
    requires SlotsInv(st) && RootOwn(st) && Enabled(st, Park(t, stored, after))
    ensures RootOwn(DoPark(st, t, stored, after))
  {
    var pc := st.pcs[t];
    assert PcOk(st.pool, st.sessions, st.objs, pc);
    IdOfPositive(st.pool, pc.slot);
    if stored {
      InsertedOld(st.closeRoot, pc.nd, pc.obj, after);
      var e' := Stored(RootInsert(st.closeRoot, pc.nd, pc.obj, after));
      forall x | x in e' ensures OwnId(st.objs, x) {
        if x != (pc.nd, pc.obj as int) { assert x in Stored(st.closeRoot); }
      }
    }
  }

  lemma {:induction false} RunKeepsOwn(st: State, run: seq<Action>)
    requires SlotsInv(st) && RootOwn(st) && Exec(st, run).Some?
    ensures RootOwn(Exec(st, run).value)
    decreases |run|
  {
    if run != [] {
      StepKeepsOwn(st, run[0]);
      StepKeepsSlots(st, run[0]);
      RunKeepsOwn(Apply(st, run[0]), run[1..]);
    }
  }

  /** A lookup of an id finds a session with that id. */
  lemma FoundOwn(st: State, nd: nat)
    requires RootOwn(st) && RootFind(st.closeRoot, nd).Some?
    ensures OwnId(st.objs, (nd, RootFind(st.closeRoot, nd).value))
  {
    match st.closeRoot {
      case Sound(tree) => FindIsMatch(tree, nd);
      case Damaged(raw) => SbTreeDamage.RawFindIsEntry(raw, nd);
    }
    assert (nd, RootFind(st.closeRoot, nd).value) in Stored(st.closeRoot);
  }

  // ---------------------------------------------------------------- what a second release needs

  /** The session has been released, and no thread has hold of it. */
  ghost predicate Gone(st: State, o: nat)
  {
    && o in st.objs && st.objs[o].freed > 0 && st.objs[o].id > 0
    && (forall s :: 0 <= s < |st.sessions| ==> st.sessions[s] != Some(o))
    && forall t :: 0 <= t < |st.pcs| ==> !HasHold(st.pcs[t], o)
  }

  ghost predicate HasHold(pc: Pc, o: nat)
  {
    (pc.Adding? || pc.Parking? || pc.Peeking? || pc.Dropping?) && pc.obj == o
  }

  /** The thread has an event for the id that it has not looked at. */
  ghost predicate HasEvent(pc: Pc, nd: nat)
  {
    (pc.Fetched? && nd in pc.ids) || ((pc.Peeking? || pc.Dropping?) && nd in pc.rest)
  }

  ghost predicate NoEvent(st: State, nd: nat)
  {
    forall t :: 0 <= t < |st.pcs| ==> !HasEvent(st.pcs[t], nd)
  }

  /** The step fetches no event for the id, and reads no node that has been freed. */
  ghost predicate Aside(st: State, a: Action, nd: nat)
    requires Enabled(st, a)
  {
    && (a.WaitRead? ==> Fresh(st, st.pcs[a.t]))
    && (a.Fetch? ==> forall i :: 0 <= i < |a.ready| ==> st.objs[a.ready[i]].id != nd)
  }

  ghost predicate NoneFetched(st: State, run: seq<Action>, nd: nat)
    requires SlotsInv(st)
    decreases |run|
  {
    run != [] && Enabled(st, run[0]) ==>
      Aside(st, run[0], nd) && (StepKeepsSlots(st, run[0]); NoneFetched(Apply(st, run[0]), run[1..], nd))
  }

  /** Whatever else is in `close_root`: while no thread has an event for the id of a released session, and none is
      fetched, the session is not released again.  As it is released, only another session with the id could be
      what such an event is fetched for. */
  lemma {:induction false} NotReleasedWithoutEvent(st: State, run: seq<Action>, o: nat)
    requires SlotsInv(st) && RootOwn(st) && Gone(st, o) && NoEvent(st, st.objs[o].id)
    requires Exec(st, run).Some? && NoneFetched(st, run, st.objs[o].id)
    ensures o in Exec(st, run).value.objs && Exec(st, run).value.objs[o].freed == st.objs[o].freed
    decreases |run|
  {
    if run != [] {
      StepKeepsSlots(st, run[0]);
      StepKeepsOwn(st, run[0]);
      StaysGone(st, run[0], o);
      NotReleasedWithoutEvent(Apply(st, run[0]), run[1..], o);
    }
  }

  /** Same releases and id, and only thread `t` moves, to a place without the session and without an event for
      its id. */
  lemma GoneMoves(st: State, st': State, t: nat, o: nat, nd: nat)
    requires Gone(st, o) && NoEvent(st, nd) && t < |st.pcs| && st.objs[o].id == nd
    requires o in st'.objs && st'.objs[o].freed == st.objs[o].freed && st'.objs[o].id == nd
    requires |st'.sessions| == |st.sessions|
             && forall s :: 0 <= s < |st.sessions| ==> st'.sessions[s] in {st.sessions[s], None}
    requires |st'.pcs| == |st.pcs| && st'.pcs == st.pcs[t := st'.pcs[t]]
    requires !HasHold(st'.pcs[t], o) && !HasEvent(st'.pcs[t], nd)
    ensures Gone(st', o) && NoEvent(st', nd)
  {
  }

  lemma StaysGone(st: State, a: Action, o: nat)
    requires SlotsInv(st) && RootOwn(st) && Gone(st, o) && NoEvent(st, st.objs[o].id) && Enabled(st, a)
    requires Aside(st, a, st.objs[o].id)
    ensures var st' := Apply(st, a);
            && Gone(st', o) && st'.objs[o].id == st.objs[o].id && NoEvent(st', st.objs[o].id)
            && st'.objs[o].freed == st.objs[o].freed
  {
    match a {
      case Install(t) => InstallGone(st, t, o);
      case Close(t, n, linger) => CloseGone(st, t, n, linger, o);
      case Fetch(t, ready) => FetchGone(st, t, ready, o);
      case WaitFind(t, n) => FindGone(st, t, n, o);
      case WaitKeep(t) => RestGone(st, Apply(st, a), t, o);
      case Drop(t, after) => DropGone(st, t, after, o);
      case Push(_, _, _, _) => PushGone(st, a, o);
      case Process(t) => ProcessGone(st, t, o);
      case _ => OtherGone(st, a, o);
    }
  }

  lemma OtherGone(st: State, a: Action, o: nat)
    requires SlotsInv(st) && Gone(st, o) && NoEvent(st, st.objs[o].id) && Enabled(st, a) && Aside(st, a, st.objs[o].id)
    requires a.Issue? || a.Park? || a.DeleteId? || a.WaitRead? || a.Read?
    ensures var st' := Apply(st, a);
            && Gone(st', o) && st'.objs[o] == st.objs[o] && NoEvent(st', st.objs[o].id)
  {
    assert !HasHold(st.pcs[a.t], o) && !HasEvent(st.pcs[a.t], st.objs[o].id);
    GoneMoves(st, Apply(st, a), a.t, o, st.objs[o].id);
  }

  lemma ProcessGone(st: State, t: nat, o: nat)
    requires Gone(st, o) && NoEvent(st, st.objs[o].id) && Enabled(st, Process(t))
    ensures var st' := DoProcess(st, t);
            && Gone(st', o) && st'.objs[o].id == st.objs[o].id && NoEvent(st', st.objs[o].id)
            && st'.objs[o].freed == st.objs[o].freed
  {
    GoneMoves(st, DoProcess(st, t), t, o, st.objs[o].id);
  }

  lemma DropGone(st: State, t: nat, after: SbTreeDamage.Raw, o: nat)
    requires Gone(st, o) && NoEvent(st, st.objs[o].id) && Enabled(st, Drop(t, after))
    ensures var st' := DoDrop(st, t, after);
            && Gone(st', o) && st'.objs[o].id == st.objs[o].id && NoEvent(st', st.objs[o].id)
            && st'.objs[o].freed == st.objs[o].freed
  {
    DropEffects(st, t, after);
    RestGone(st, DoDrop(st, t, after), t, o);
  }

  lemma InstallGone(st: State, t: nat, o: nat)
    requires SlotsInv(st) && Gone(st, o) && NoEvent(st, st.objs[o].id) && Enabled(st, Install(t))
    ensures var st' := Apply(st, Install(t));
            && Gone(st', o) && st'.objs[o] == st.objs[o] && NoEvent(st', st.objs[o].id)
  {
    assert PcOk(st.pool, st.sessions, st.objs, st.pcs[t]);
    assert !HasHold(st.pcs[t], o);
  }

  lemma CloseGone(st: State, t: nat, n: nat, linger: bool, o: nat)
    requires SlotsInv(st) && Gone(st, o) && NoEvent(st, st.objs[o].id) && Enabled(st, Close(t, n, linger))
    ensures var st' := DoClose(st, t, n, linger);
            && Gone(st', o) && st'.objs[o] == st.objs[o] && NoEvent(st', st.objs[o].id)
  {
    if Found(st, n) { GoneMoves(st, DoClose(st, t, n, linger), t, o, st.objs[o].id); }
  }

  lemma FetchGone(st: State, t: nat, ready: seq<nat>, o: nat)
    requires Gone(st, o) && NoEvent(st, st.objs[o].id) && Enabled(st, Fetch(t, ready))
    requires Aside(st, Fetch(t, ready), st.objs[o].id)
    ensures Gone(DoFetch(st, t, ready), o) && NoEvent(DoFetch(st, t, ready), st.objs[o].id)
  {
    GoneMoves(st, DoFetch(st, t, ready), t, o, st.objs[o].id);
  }

  lemma FindGone(st: State, t: nat, n: nat, o: nat)
    requires RootOwn(st) && Gone(st, o) && NoEvent(st, st.objs[o].id) && Enabled(st, WaitFind(t, n))
    ensures Gone(DoWaitFind(st, t, n), o) && NoEvent(DoWaitFind(st, t, n), st.objs[o].id)
  {
    assert !HasEvent(st.pcs[t], st.objs[o].id);
    if RootFind(st.closeRoot, n).Some? { FoundOwn(st, n); }
    GoneMoves(st, DoWaitFind(st, t, n), t, o, st.objs[o].id);
  }

  /** A thread that is done with a session goes on with the events it has left. */
  lemma RestGone(st: State, st': State, t: nat, o: nat)
    requires Gone(st, o) && NoEvent(st, st.objs[o].id) && t < |st.pcs| && st.pcs[t].Dropping?
             && st'.sessions == st.sessions
    requires o in st'.objs && st'.objs[o].id == st.objs[o].id
    requires st.pcs[t].obj != o ==> st'.objs[o].freed == st.objs[o].freed
    requires st'.pcs == st.pcs[t := AfterEvent(st.pcs[t].rest)]
    ensures Gone(st', o) && NoEvent(st', st.objs[o].id) && st'.objs[o].freed == st.objs[o].freed
  {
    assert !HasHold(st.pcs[t], o) && !HasEvent(st.pcs[t], st.objs[o].id);
    GoneMoves(st, st', t, o, st.objs[o].id);
  }

  lemma PushGone(st: State, a: Action, o: nat)
    requires SlotsInv(st) && Gone(st, o) && NoEvent(st, st.objs[o].id) && Enabled(st, a) && a.Push?
    ensures var st' := Apply(st, a);
            && Gone(st', o) && st'.objs[o] == st.objs[o] && NoEvent(st', st.objs[o].id)
  {
  }

  /** After a release through `close_root`, clean or not, the session is released a second time only if some thread
      still has an event for its id, or fetches one for another session with the id, or reads a freed node. */
  lemma SecondReleaseNeedsEvent(st: State, t: nat, after: SbTreeDamage.Raw, run: seq<Action>)
    requires SlotsInv(st) && ReleaseInv(st) && Enabled(st, Drop(t, after)) && SlotsInv(DoDrop(st, t, after))
    requires var st', nd := DoDrop(st, t, after), st.objs[st.pcs[t].obj].id;
             NoEvent(st', nd) && Exec(st', run).Some? && NoneFetched(st', run, nd)
    ensures var end, o := Exec(DoDrop(st, t, after), run).value, st.pcs[t].obj;
            o in end.objs && end.objs[o].freed == 1
  {
    var o, st' := st.pcs[t].obj, DoDrop(st, t, after);
    LingeringOwn(st);
    DropOwn(st, t, after);
    DropEffects(st, t, after);
    DropLeavesGone(st, t, after);
    NotReleasedWithoutEvent(st', run, o);
  }

  lemma LingeringOwn(st: State)
    requires ReleaseInv(st)
    ensures RootOwn(st)
  {
    var e := Stored(st.closeRoot);
    forall x | x in e ensures OwnId(st.objs, x) {
      var i :| 0 <= i < |e| && e[i] == x;
      assert Lingers(st.objs, e[i]);
    }
  }

  lemma DropLeavesGone(st: State, t: nat, after: SbTreeDamage.Raw)
    requires SlotsInv(st) && ReleaseInv(st) && Enabled(st, Drop(t, after))
    ensures st.objs[st.pcs[t].obj].freed == 0 && Gone(DoDrop(st, t, after), st.pcs[t].obj)
  {
    var o := st.pcs[t].obj;
    var i := OwnEntry(st, t);
    DropEffects(st, t, after);
    assert InRoot(Stored(st.closeRoot), o);
    assert PcHolds(st.objs, Stored(st.closeRoot), st.pcs[t]);
    forall u | 0 <= u < |st.pcs| && u != t ensures !HasHold(st.pcs[u], o) {
      assert PcHolds(st.objs, Stored(st.closeRoot), st.pcs[u]);
      assert Held(st.pcs[u]) != Held(st.pcs[t]);
    }
  }
}
