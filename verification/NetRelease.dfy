/** Every closed session is released at most once, over whole runs of the session protocol. */
module NetRelease {
  import opened Options
  import opened Arith
  import opened Ffid
  import FfidRuns
  import opened NetProtocol
  import opened NetLogs
  import opened SbTree
  import SbTreeDamage

  /** In every reachable state a non-null array cell holds a session whose id is live and maps back to
      the cell. */
  lemma CellsHoldLiveSessions(n: Slots, threads: nat, run: seq<Action>, s: nat)
    requires Exec(Start(n, threads), run).Some?
    requires var st := Exec(Start(n, threads), run).value; s < |st.sessions| && st.sessions[s].Some?
    ensures var st := Exec(Start(n, threads), run).value;
            var o := st.sessions[s].value;
            && o in st.objs && st.objs[o].id > 0 && SlotOf(st.pool.n, st.objs[o].id) == s
            && IsLive(st.pool, st.objs[o].id - 1)
  {
    var st := Exec(Start(n, threads), run).value;
    assert Current(st.pool, st.objs, st.sessions[s].value, s);
  }

  /** No two deletions of an id were for the same hand-out of its slot. */
  lemma IdDeletedOncePerIssue(n: Slots, threads: nat, run: seq<Action>, i: nat, j: nat)
    requires Exec(Start(n, threads), run).Some?
    requires i < j < |DeletionsIn(Start(n, threads), run)|
    ensures var d := DeletionsIn(Start(n, threads), run); d[i] != d[j]
  {
    LogsOfTheRun(n, threads, run, 0);
  }

  // ---------------------------------------------------------------- what release relies on

  ghost predicate InRoot(e: seq<(nat, int)>, o: nat)
  {
    exists i :: 0 <= i < |e| && e[i].1 == o
  }

  /** The entry stands for a closed session under its own id that nothing has released. */
  ghost predicate Lingers(objs: Objs, x: (nat, int))
  {
    x.1 >= 0 && x.1 in objs && objs[x.1].id == x.0 > 0 && objs[x.1].freed == 0
  }

  ghost predicate RootOk(objs: Objs, e: seq<(nat, int)>)
  {
    && Sorted(e) && (forall i :: 0 <= i < |e| ==> Lingers(objs, e[i]))
    && (forall i, j :: 0 <= i < j < |e| ==> e[i].1 != e[j].1)
  }

  /** A session that nothing has released and that is not in `close_root`. */
  ghost predicate Whole(objs: Objs, e: seq<(nat, int)>, o: nat)
  {
    o in objs && objs[o].freed == 0 && !InRoot(e, o)
  }

  ghost predicate PcHolds(objs: Objs, e: seq<(nat, int)>, pc: Pc)
  {
    && (pc.Adding? || pc.Parking? ==> Whole(objs, e, pc.obj))
    && (pc.Peeking? || pc.Dropping? ==> InRoot(e, pc.obj) && pc.obj in objs && objs[pc.obj].slot == pc.slot)
  }

  ghost predicate LocksExclusive(pcs: seq<Pc>)
  {
    forall t, u :: 0 <= t < u < |pcs| && Held(pcs[t]) >= 0 ==> Held(pcs[t]) != Held(pcs[u])
  }

  ghost predicate CellsWhole(cells: Cells, objs: Objs, e: seq<(nat, int)>)
  {
    forall s :: 0 <= s < |cells| && cells[s].Some? ==> Whole(objs, e, cells[s].value)
  }

  ghost predicate PcsHold(objs: Objs, e: seq<(nat, int)>, pcs: seq<Pc>)
  {
    forall t :: 0 <= t < |pcs| ==> PcHolds(objs, e, pcs[t])
  }

  ghost predicate FreedOnce(objs: Objs)
  {
    forall o :: o in objs ==> objs[o].freed <= 1
  }

  ghost predicate ReleaseInv(st: State)
  {
    && st.closeRoot.Sound? && RootOk(st.objs, Stored(st.closeRoot))
    && CellsWhole(st.sessions, st.objs, Stored(st.closeRoot)) && PcsHold(st.objs, Stored(st.closeRoot), st.pcs)
    && LocksExclusive(st.pcs) && FreedOnce(st.objs)
  }

  // ---------------------------------------------------------------- the steps that could break it

  /** The deletion of this release takes out the entry of the session it releases: its match has a left
      child or stands for at most two entries, and is not another session's entry with the same id. */
  ghost predicate DropClean(st: State, t: nat)
    requires t < |st.pcs| && st.pcs[t].Dropping? && st.pcs[t].obj in st.objs
  {
    var o := st.pcs[t].obj;
    var nd := st.objs[o].id;
    st.closeRoot.Sound? && !MatchHollow(st.closeRoot.tree, nd) && Find(st.closeRoot.tree, nd) == Some(o)
  }

  /** No release misses its entry, and no node is freed between being found and being read. */
  ghost predicate SafeStep(st: State, a: Action)
    requires Enabled(st, a)
  {
    match a
    case Drop(t, _) => DropClean(st, t)
    case WaitRead(t, _) => Fresh(st, st.pcs[t])
    case _ => true
  }

  lemma StartRelease(n: Slots, threads: nat)
    ensures ReleaseInv(Start(n, threads))
  {
  }

  /** The invariant of a step that leaves `close_root` and the cells alone and gives one thread a new place. */
  lemma PlaceMoves(objs: Objs, e: seq<(nat, int)>, pcs: seq<Pc>, t: nat, pc: Pc)
    requires PcsHold(objs, e, pcs) && LocksExclusive(pcs) && t < |pcs| && PcHolds(objs, e, pc)
    requires Held(pc) == -1 || Held(pc) == Held(pcs[t]) || LockFree(pcs, Held(pc))
    ensures PcsHold(objs, e, pcs[t := pc]) && LocksExclusive(pcs[t := pc])
  {
    var pcs' := pcs[t := pc];
    forall u | 0 <= u < |pcs'| ensures PcHolds(objs, e, pcs'[u]) {
      if u != t { assert PcHolds(objs, e, pcs[u]); }
    }
  }

  /** Sessions keep their slot, what was released of them, and their id once they have one. */
  ghost predicate SameFate(objs: Objs, objs': Objs)
  {
    forall o :: o in objs ==>
      && o in objs' && objs'[o].slot == objs[o].slot && objs'[o].freed == objs[o].freed
      && (objs[o].id > 0 ==> objs'[o].id == objs[o].id)
  }

  lemma FateFrame(objs: Objs, objs': Objs, cells: Cells, e: seq<(nat, int)>, pcs: seq<Pc>)
    requires RootOk(objs, e) && CellsWhole(cells, objs, e) && PcsHold(objs, e, pcs) && SameFate(objs, objs')
    ensures RootOk(objs', e) && CellsWhole(cells, objs', e) && PcsHold(objs', e, pcs)
  {
    forall i | 0 <= i < |e| ensures Lingers(objs', e[i]) {
      assert Lingers(objs, e[i]);
    }
    forall u | 0 <= u < |pcs| ensures PcHolds(objs', e, pcs[u]) {
      assert PcHolds(objs, e, pcs[u]);
    }
  }

  lemma IssueRelease(st: State, t: nat, obj: nat)
    requires SlotsInv(st) && ReleaseInv(st) && Enabled(st, Issue(t, obj))
    ensures ReleaseInv(DoIssue(st, t, obj))
  {
    var st', e := DoIssue(st, t, obj), Stored(st.closeRoot);
    FateFrame(st.objs, st'.objs, st.sessions, e, st.pcs);
    forall i | 0 <= i < |e| ensures e[i].1 != obj {
      assert Lingers(st.objs, e[i]);
    }
    PlaceMoves(st'.objs, e, st.pcs, t, st'.pcs[t]);
  }

  lemma InstallRelease(st: State, t: nat)
    requires SlotsInv(st) && ReleaseInv(st) && Enabled(st, Install(t))
    ensures ReleaseInv(Apply(st, Install(t)))
  {
    var e, pc := Stored(st.closeRoot), st.pcs[t];
    assert PcOk(st.pool, st.sessions, st.objs, pc);
    assert PcHolds(st.objs, e, pc);
    var st' := Apply(st, Install(t));
    FateFrame(st.objs, st'.objs, st.sessions, e, st.pcs);
    PlaceMoves(st'.objs, e, st.pcs, t, Idle);
  }

  lemma CloseRelease(st: State, t: nat, nd: nat, linger: bool)
    requires SlotsInv(st) && ReleaseInv(st) && Enabled(st, Close(t, nd, linger))
    ensures ReleaseInv(DoClose(st, t, nd, linger))
  {
    if Found(st, nd) {
      var o, s, e := FoundObj(st, nd), SlotOf(st.pool.n, nd), Stored(st.closeRoot);
      assert Current(st.pool, st.objs, o, s) && Whole(st.objs, e, o);
      var st' := DoClose(st, t, nd, linger);
      if linger {
        PlaceMoves(st.objs, e, st.pcs, t, Parking(o, nd, s));
      } else {
        CloseFrees(st, t, nd, o, s, e, st');
      }
    }
  }

  lemma CloseFrees(st: State, t: nat, nd: nat, o: nat, s: nat, e: seq<(nat, int)>, st': State)
    requires SlotsInv(st) && ReleaseInv(st) && e == Stored(st.closeRoot) && t < |st.pcs| && st.pcs[t].Idle?
    requires s < |st.sessions| && st.sessions[s] == Some(o) && Whole(st.objs, e, o) && Current(st.pool, st.objs, o, s)
    requires st' == st.(sessions := st.sessions[s := None], pcs := st.pcs[t := Closing(nd, s)],
                        objs := st.objs[o := st.objs[o].(freed := st.objs[o].freed + 1)])
    ensures ReleaseInv(st')
  {
    forall u | 0 <= u < |st.pcs| ensures PcHolds(st'.objs, e, st.pcs[u]) {
      assert PcHolds(st.objs, e, st.pcs[u]) && PcOk(st.pool, st.sessions, st.objs, st.pcs[u]);
    }
    forall r | 0 <= r < |st'.sessions| && st'.sessions[r].Some? ensures Whole(st'.objs, e, st'.sessions[r].value) {
      assert Current(st.pool, st.objs, st.sessions[r].value, r);
    }
    forall i | 0 <= i < |e| ensures Lingers(st'.objs, e[i]) {
      assert Lingers(st.objs, e[i]) && e[i].1 != o;
    }
    PlaceMoves(st'.objs, e, st.pcs, t, Closing(nd, s));
  }

  // ---------------------------------------------------------------- joining close_root

  lemma IdOfPositive(p: Pool, s: nat)
    requires PoolOk(p) && s in p.live
    ensures IdOf(p, s) > 0 && SlotOf(p.n, IdOf(p, s)) == s
  {
  }

  /** A new entry keeps the order and leaves what is stored. */
  lemma EntryJoins(objs: Objs, e: seq<(nat, int)>, p: nat, nd: nat, o: nat, e': seq<(nat, int)>)
    requires RootOk(objs, e) && p <= |e| && e' == InsertAt(e, p, (nd, o)) && Sorted(e')
    requires Whole(objs, e, o) && objs[o].id == nd > 0
    ensures RootOk(objs, e') && forall x: nat :: InRoot(e', x) <==> InRoot(e, x) || x == o
  {
    JoinedAt(e, p, (nd, o as int), e');
    forall i | 0 <= i < |e'| ensures Lingers(objs, e'[i]) {
      if i < p { assert Lingers(objs, e[i]); } else if i > p { assert Lingers(objs, e[i - 1]); }
    }
    JoinedValues(e, p, (nd, o as int), o, e');
  }

  lemma JoinedAt(e: seq<(nat, int)>, p: nat, x: (nat, int), e': seq<(nat, int)>)
    requires p <= |e| && e' == InsertAt(e, p, x)
    ensures |e'| == |e| + 1 && e'[p] == x
    ensures forall i :: 0 <= i < p ==> e'[i] == e[i]
    ensures forall i :: p < i < |e'| ==> e'[i] == e[i - 1]
  {
  }

  lemma JoinedValues(e: seq<(nat, int)>, p: nat, x: (nat, int), o: nat, e': seq<(nat, int)>)
    requires p <= |e| && |e'| == |e| + 1 && !InRoot(e, o) && x.1 == o && e'[p] == x
    requires forall i :: 0 <= i < p ==> e'[i] == e[i]
    requires forall i :: p < i < |e'| ==> e'[i] == e[i - 1]
    requires forall i, j :: 0 <= i < j < |e| ==> e[i].1 != e[j].1
    ensures forall i, j :: 0 <= i < j < |e'| ==> e'[i].1 != e'[j].1
    ensures forall q: nat :: InRoot(e', q) <==> InRoot(e, q) || q == o
  {
    assert e'[p].1 == o;
    forall q: nat | InRoot(e, q) ensures InRoot(e', q) {
      var i :| 0 <= i < |e| && e[i].1 == q;
      assert e'[if i < p then i else i + 1].1 == q;
    }
  }

  lemma ParkRelease(st: State, t: nat, stored: bool, after: SbTreeDamage.Raw)
    requires SlotsInv(st) && ReleaseInv(st) && Enabled(st, Park(t, stored, after))
    ensures ReleaseInv(DoPark(st, t, stored, after))
  {
    var pc, e := st.pcs[t], Stored(st.closeRoot);
    assert PcOk(st.pool, st.sessions, st.objs, pc) && PcHolds(st.objs, e, pc);
    IdOfPositive(st.pool, pc.slot);
    if stored {
      InsertEntries(st.closeRoot.tree, pc.nd, pc.obj);
      InsertSorted(st.closeRoot.tree, pc.nd, pc.obj);
      var e' := Stored(DoPark(st, t, stored, after).closeRoot);
      EntryJoins(st.objs, e, CountUpTo(e, pc.nd), pc.nd, pc.obj, e');
      ParkPlaces(st, t, e, e', pc);
    } else {
      PlaceMoves(st.objs, e, st.pcs, t, Closing(pc.nd, pc.slot));
    }
  }

  lemma ParkPlaces(st: State, t: nat, e: seq<(nat, int)>, e': seq<(nat, int)>, pc: Pc)
    requires SlotsInv(st) && t < |st.pcs| && st.pcs[t] == pc && pc.Parking?
             && Current(st.pool, st.objs, pc.obj, pc.slot)
    requires CellsWhole(st.sessions, st.objs, e) && PcsHold(st.objs, e, st.pcs) && LocksExclusive(st.pcs)
    requires forall x: nat :: InRoot(e', x) <==> InRoot(e, x) || x == pc.obj
    ensures CellsWhole(st.sessions, st.objs, e')
    ensures PcsHold(st.objs, e', st.pcs[t := Closing(pc.nd, pc.slot)])
            && LocksExclusive(st.pcs[t := Closing(pc.nd, pc.slot)])
  {
    assert PcOk(st.pool, st.sessions, st.objs, pc);
    forall u | 0 <= u < |st.pcs| && u != t ensures PcHolds(st.objs, e', st.pcs[u]) {
      assert PcHolds(st.objs, e, st.pcs[u]) && PcOk(st.pool, st.sessions, st.objs, st.pcs[u]);
      assert Owned(st.pcs[u]) != pc.slot;
    }
    forall r | 0 <= r < |st.sessions| && st.sessions[r].Some? ensures Whole(st.objs, e', st.sessions[r].value) {
      assert Current(st.pool, st.objs, st.sessions[r].value, r);
    }
  }

  // ---------------------------------------------------------------- leaving close_root

  /** A lookup finds a session that lingers under the id, if one does. */
  lemma FoundLingers(st: State, nd: nat)
    requires ReleaseInv(st)
    ensures var f, e := RootFind(st.closeRoot, nd), Stored(st.closeRoot);
            && (f.Some? ==> f.value >= 0 && InRoot(e, f.value) && f.value in st.objs && st.objs[f.value].id == nd
                            && st.objs[f.value].freed == 0)
            && (f.None? ==> forall i :: 0 <= i < |e| ==> e[i].0 != nd)
  {
    var tree := st.closeRoot.tree;
    FindIsMatch(tree, nd);
    MatchIndexMeaning(tree, nd);
    CountEqualZero(Entries(tree), nd);
    if MatchIndex(tree, nd) >= 0 { assert Lingers(st.objs, Entries(tree)[MatchIndex(tree, nd)]); }
  }

  lemma WaitFindRelease(st: State, t: nat, nd: nat)
    requires SlotsInv(st) && ReleaseInv(st) && Enabled(st, WaitFind(t, nd))
    ensures ReleaseInv(DoWaitFind(st, t, nd))
  {
    FoundLingers(st, nd);
    var f := RootFind(st.closeRoot, nd);
    if f.Some? { assert ObjOk(st.pool, st.objs[f.value]); }
    PlaceMoves(st.objs, Stored(st.closeRoot), st.pcs, t, DoWaitFind(st, t, nd).pcs[t]);
  }

  lemma WaitReadRelease(st: State, t: nat, obj: nat)
    requires ReleaseInv(st) && Enabled(st, WaitRead(t, obj)) && Fresh(st, st.pcs[t])
    ensures ReleaseInv(DoWaitRead(st, t, obj))
  {
    assert PcHolds(st.objs, Stored(st.closeRoot), st.pcs[t]);
    PlaceMoves(st.objs, Stored(st.closeRoot), st.pcs, t, DoWaitRead(st, t, obj).pcs[t]);
  }

  /** Taking one entry out. */
  lemma EntryLeaves(objs: Objs, e: seq<(nat, int)>, p: nat, o: nat, objs': Objs, e': seq<(nat, int)>)
    requires RootOk(objs, e) && p < |e| && e[p].1 == o && e' == RemoveAt(e, p)
    requires objs'.Keys == objs.Keys
    requires forall x :: x in objs && x != o ==> objs'[x].freed == objs[x].freed && objs'[x].id == objs[x].id
    ensures RootOk(objs', e') && forall x: nat :: InRoot(e', x) <==> InRoot(e, x) && x != o
  {
    assert forall i :: 0 <= i < p ==> e'[i] == e[i];
    assert forall i :: p <= i < |e'| ==> e'[i] == e[i + 1];
    forall i | 0 <= i < |e'| ensures Lingers(objs', e'[i]) && e'[i].1 != o {
      assert Lingers(objs, e[if i < p then i else i + 1]);
    }
    EntryMembers(e, p, o, e');
  }

  lemma EntryMembers(e: seq<(nat, int)>, p: nat, o: nat, e': seq<(nat, int)>)
    requires p < |e| && e[p].1 == o && e' == RemoveAt(e, p)
    requires forall i :: 0 <= i < |e'| ==> e'[i].1 != o
    ensures forall x: nat :: InRoot(e', x) <==> InRoot(e, x) && x != o
  {
    forall x: nat | InRoot(e, x) && x != o ensures InRoot(e', x) {
      var i :| 0 <= i < |e| && e[i].1 == x;
      assert e'[if i < p then i else i - 1].1 == x;
    }
    forall x: nat | InRoot(e', x) ensures InRoot(e, x) {
      var i :| 0 <= i < |e'| && e'[i].1 == x;
      assert e[if i < p then i else i + 1].1 == x;
    }
  }

  lemma DropRelease(st: State, t: nat, after: SbTreeDamage.Raw)
    requires SlotsInv(st) && ReleaseInv(st) && Enabled(st, Drop(t, after)) && DropClean(st, t)
    ensures ReleaseInv(DoDrop(st, t, after))
  {
    var o, tree := st.pcs[t].obj, st.closeRoot.tree;
    var st' := DoDrop(st, t, after);
    var i := CleanDeletion(tree, st.objs[o].id, o);
    DropEffects(st, t, after);
    EntryLeaves(st.objs, Entries(tree), i, o, st'.objs, Stored(st'.closeRoot));
    DropPlaces(st, t, o, Entries(tree), st'.objs, Stored(st'.closeRoot));
  }

  /** What a clean release deletes. */
  lemma CleanDeletion(tree: Tree, nd: nat, o: int) returns (i: nat)
    requires !MatchHollow(tree, nd) && Find(tree, nd) == Some(o)
    ensures Delete(tree, nd).Removed? && i < |Entries(tree)| && Entries(tree)[i] == (nd, o)
    ensures Entries(Delete(tree, nd).tree) == RemoveAt(Entries(tree), i)
  {
    FindIsMatch(tree, nd);
    DeleteOutcome(tree, nd);
    i := MatchIndex(tree, nd);
  }

  /** A release changes no session but by one more release of its own, and by nodes that move. */
  lemma DropEffects(st: State, t: nat, after: SbTreeDamage.Raw)
    requires Enabled(st, Drop(t, after))
    ensures var st', o := DoDrop(st, t, after), st.pcs[t].obj;
            && st'.objs.Keys == st.objs.Keys && st'.pcs == st.pcs[t := AfterEvent(st.pcs[t].rest)]
            && st'.sessions == st.sessions && st'.pool == st.pool
            && st'.closeRoot == RootDelete(st.closeRoot, st.objs[o].id, after)
            && st'.objs[o].freed == st.objs[o].freed + 1
            && forall x :: x in st.objs ==>
                 && st'.objs[x].slot == st.objs[x].slot && st'.objs[x].id == st.objs[x].id
                    && st'.objs[x].gen == st.objs[x].gen
                 && (x != o ==> st'.objs[x].freed == st.objs[x].freed)
  {
  }

  lemma DropPlaces(st: State, t: nat, o: nat, e: seq<(nat, int)>, objs': Objs, e': seq<(nat, int)>)
    requires t < |st.pcs| && st.pcs[t].Dropping? && st.pcs[t].obj == o && InRoot(e, o)
    requires CellsWhole(st.sessions, st.objs, e) && PcsHold(st.objs, e, st.pcs) && LocksExclusive(st.pcs)
    requires forall x: nat :: InRoot(e', x) <==> InRoot(e, x) && x != o
    requires objs'.Keys == st.objs.Keys
    requires forall x :: x in st.objs ==>
              objs'[x].slot == st.objs[x].slot && (x != o ==> objs'[x].freed == st.objs[x].freed)
    ensures CellsWhole(st.sessions, objs', e')
    ensures var pcs' := st.pcs[t := AfterEvent(st.pcs[t].rest)]; PcsHold(objs', e', pcs') && LocksExclusive(pcs')
  {
    assert PcHolds(st.objs, e, st.pcs[t]);
    forall u | 0 <= u < |st.pcs| && u != t ensures PcHolds(objs', e', st.pcs[u]) {
      assert PcHolds(st.objs, e, st.pcs[u]);
      assert Held(st.pcs[u]) != Held(st.pcs[t]);
    }
  }

  // ---------------------------------------------------------------- every safe step

  /** A step that changes a session without releasing it. */
  lemma EditRelease(st: State, o: nat, x: Session)
    requires ReleaseInv(st) && o in st.objs && x.freed == st.objs[o].freed
    requires x.slot == st.objs[o].slot && x.id == st.objs[o].id
    ensures ReleaseInv(st.(objs := st.objs[o := x]))
  {
    FateFrame(st.objs, st.objs[o := x], st.sessions, Stored(st.closeRoot), st.pcs);
  }

  lemma MoveRelease(st: State, t: nat, pc: Pc)
    requires ReleaseInv(st) && t < |st.pcs| && (pc.Idle? || pc.Reading? || pc.Fetched?)
    ensures ReleaseInv(st.(pcs := st.pcs[t := pc]))
  {
    PlaceMoves(st.objs, Stored(st.closeRoot), st.pcs, t, pc);
  }

  /** Every safe step keeps the release invariant. */
  lemma StepKeepsRelease(st: State, a: Action)
    requires SlotsInv(st) && ReleaseInv(st) && Enabled(st, a) && SafeStep(st, a)
    ensures ReleaseInv(Apply(st, a))
  {
    match a {
      case Issue(t, obj) => IssueRelease(st, t, obj);
      case Install(t) => InstallRelease(st, t);
      case Close(t, nd, linger) => CloseRelease(st, t, nd, linger);
      case Park(t, stored, after) => ParkRelease(st, t, stored, after);
      case DeleteId(t) => MoveRelease(st, t, Idle);
      case Fetch(t, ready) => MoveRelease(st, t, DoFetch(st, t, ready).pcs[t]);
      case WaitFind(t, nd) => WaitFindRelease(st, t, nd);
      case WaitRead(t, obj) => WaitReadRelease(st, t, obj);
      case WaitKeep(t) => MoveRelease(st, t, AfterEvent(st.pcs[t].rest));
      case Drop(t, after) => DropRelease(st, t, after);
      case Push(kind, nd, bits, written) => PushRelease(st, kind, nd, bits, written);
      case Read(t, kind, count) => MoveRelease(st, t, Reading(kind, Queue(st, kind)[..count]));
      case Process(t) => ProcessRelease(st, t);
    }
  }

  lemma PushRelease(st: State, kind: Kind, nd: nat, bits: set<nat>, written: bool)
    requires SlotsInv(st) && ReleaseInv(st) && Enabled(st, Push(kind, nd, bits, written))
    ensures ReleaseInv(Apply(st, Push(kind, nd, bits, written)))
  {
    if Found(st, nd) {
      EditRelease(st, FoundObj(st, nd), Pushed(st.objs[FoundObj(st, nd)], kind, bits, written));
    }
  }

  lemma ProcessRelease(st: State, t: nat)
    requires SlotsInv(st) && ReleaseInv(st) && Enabled(st, Process(t))
    ensures ReleaseInv(Apply(st, Process(t)))
  {
    MoveRelease(st, t, AfterBatch(st.pcs[t]));
    var id := st.pcs[t].batch[0].id;
    if Found(st, id) {
      EditRelease(st.(pcs := st.pcs[t := AfterBatch(st.pcs[t])]), FoundObj(st, id),
                  Reported(st.objs[FoundObj(st, id)], st.pcs[t].kind));
    }
  }

  // ---------------------------------------------------------------- whole runs

  ghost predicate SafeRun(st: State, run: seq<Action>)
    requires SlotsInv(st)
    decreases |run|
  {
    run != [] && Enabled(st, run[0]) ==>
      SafeStep(st, run[0]) && (StepKeepsSlots(st, run[0]); SafeRun(Apply(st, run[0]), run[1..]))
  }

  lemma {:induction false} RunKeepsRelease(st: State, run: seq<Action>)
    requires SlotsInv(st) && ReleaseInv(st) && SafeRun(st, run) && Exec(st, run).Some?
    ensures ReleaseInv(Exec(st, run).value)
    decreases |run|
  {
    if run != [] {
      StepKeepsRelease(st, run[0]);
      StepKeepsSlots(st, run[0]);
      RunKeepsRelease(Apply(st, run[0]), run[1..]);
    }
  }

  /** Main result: in every interleaving of safe steps, every session is released at most once. */
  lemma ReleasedAtMostOnce(n: Slots, threads: nat, run: seq<Action>, o: nat)
    requires Exec(Start(n, threads), run).Some? && SafeRun(Start(n, threads), run)
    ensures RunLog(Start(n, threads), run, o).freed <= 1
  {
    StartRelease(n, threads);
    RunKeepsRelease(Start(n, threads), run);
    LogsOfTheRun(n, threads, run, o);
  }

  // ---------------------------------------------------------------- exactly which releases go wrong

  /** No entry stands for a session that was released. */
  ghost predicate NoneReleased(st: State)
  {
    forall i :: 0 <= i < |Stored(st.closeRoot)| ==> Unreleased(st.objs, Stored(st.closeRoot)[i].1)
  }

  ghost predicate Unreleased(objs: Objs, o: int)
  {
    o >= 0 && o in objs ==> objs[o].freed == 0
  }

  /** A release leaves no released session to be found exactly when its deletion takes out its own entry:
      not when the match stands for three or more entries without a left child, and not when it is
      another entry with the same id. */
  lemma DropCleanExactly(st: State, t: nat, after: SbTreeDamage.Raw)
    requires SlotsInv(st) && ReleaseInv(st) && Enabled(st, Drop(t, after))
    ensures NoneReleased(DoDrop(st, t, after)) <==> DropClean(st, t)
  {
    if DropClean(st, t) {
      DropRelease(st, t, after);
      var st' := DoDrop(st, t, after);
      forall i | 0 <= i < |Stored(st'.closeRoot)| ensures Unreleased(st'.objs, Stored(st'.closeRoot)[i].1) {
        assert Lingers(st'.objs, Stored(st'.closeRoot)[i]);
      }
    } else {
      var i := EntryStays(st, t, after);
      var st' := DoDrop(st, t, after);
      DropEffects(st, t, after);
      assert !Unreleased(st'.objs, Stored(st'.closeRoot)[i].1);
    }
  }

  /** After an unclean release the session's own entry is still there. */
  lemma EntryStays(st: State, t: nat, after: SbTreeDamage.Raw) returns (i: nat)
    requires SlotsInv(st) && ReleaseInv(st) && Enabled(st, Drop(t, after)) && !DropClean(st, t)
    ensures var e' := Stored(RootDelete(st.closeRoot, st.objs[st.pcs[t].obj].id, after));
            i < |e'| && e'[i] == (st.objs[st.pcs[t].obj].id, st.pcs[t].obj as int)
  {
    var tree, o := st.closeRoot.tree, st.pcs[t].obj;
    var k := OwnEntry(st, t);
    i := EntrySurvives(tree, st.objs[o].id, o, k);
  }

  /** Where the session a thread is about to release stands in the tree. */
  lemma OwnEntry(st: State, t: nat) returns (i: nat)
    requires SlotsInv(st) && ReleaseInv(st) && t < |st.pcs| && st.pcs[t].Dropping?
    ensures var o, e := st.pcs[t].obj, Stored(st.closeRoot);
            && o in st.objs && i < |e| && e[i] == (st.objs[o].id, o as int) && st.objs[o].id > 0
               && st.objs[o].freed == 0
            && st.pcs[t].slot == SlotOf(st.pool.n, st.objs[o].id)
  {
    var o, e := st.pcs[t].obj, Stored(st.closeRoot);
    assert PcHolds(st.objs, e, st.pcs[t]);
    i :| 0 <= i < |e| && e[i].1 == o;
    assert Lingers(st.objs, e[i]);
    assert ObjOk(st.pool, st.objs[o]);
  }

  lemma EntrySurvives(tree: Tree, nd: nat, o: nat, k: nat) returns (i: nat)
    requires k < |Entries(tree)| && Entries(tree)[k] == (nd, o as int)
    requires MatchHollow(tree, nd) || Find(tree, nd) != Some(o)
    ensures match Delete(tree, nd)
            case Fault => i < |SbTreeDamage.RawEntries(SbTreeDamage.Faulted(tree, nd))|
                          && SbTreeDamage.RawEntries(SbTreeDamage.Faulted(tree, nd))[i] == (nd, o as int)
            case Absent(u) => i < |Entries(u)| && Entries(u)[i] == (nd, o as int)
            case Removed(u) => i < |Entries(u)| && Entries(u)[i] == (nd, o as int)
  {
    i := k;
    DeleteOutcome(tree, nd);
    FindIsMatch(tree, nd);
    if Delete(tree, nd).Fault? {
      SbTreeDamage.FaultedEntries(tree, nd);
    } else if MatchIndex(tree, nd) >= 0 {
      var m := MatchIndex(tree, nd);
      assert k != m;
      i := if k < m then k else k - 1;
    }
  }

  ghost predicate UniqueIds(e: seq<(nat, int)>)
  {
    forall i, j :: 0 <= i < j < |e| ==> e[i].0 != e[j].0
  }

  /** While no two entries share an id, a release is clean exactly when the match is not hollow. */
  lemma UniqueIsClean(st: State, t: nat, after: SbTreeDamage.Raw)
    requires SlotsInv(st) && ReleaseInv(st) && Enabled(st, Drop(t, after)) && UniqueIds(Stored(st.closeRoot))
    ensures DropClean(st, t) <==> !MatchHollow(st.closeRoot.tree, st.objs[st.pcs[t].obj].id)
  {
    var tree, o := st.closeRoot.tree, st.pcs[t].obj;
    var nd := st.objs[o].id;
    var i := OwnEntry(st, t);
    FoundLingers(st, nd);
    FindIsMatch(tree, nd);
  }

  /** Every deletion finds its record, no two entries share an id when one is deleted, and every node is
      read while it holds what was found. */
  ghost predicate CarefulRun(st: State, run: seq<Action>)
    requires SlotsInv(st)
    decreases |run|
  {
    run != [] && Enabled(st, run[0]) ==>
      && (run[0].WaitRead? ==> Fresh(st, st.pcs[run[0].t]))
      && (run[0].Drop? ==> && st.closeRoot.Sound? && UniqueIds(Stored(st.closeRoot))
                           && !MatchHollow(st.closeRoot.tree, st.objs[st.pcs[run[0].t].obj].id))
      && (StepKeepsSlots(st, run[0]); CarefulRun(Apply(st, run[0]), run[1..]))
  }

  lemma {:induction false} CarefulIsSafe(st: State, run: seq<Action>)
    requires SlotsInv(st) && ReleaseInv(st) && CarefulRun(st, run)
    ensures SafeRun(st, run)
    decreases |run|
  {
    if run != [] && Enabled(st, run[0]) {
      if run[0].Drop? { UniqueIsClean(st, run[0].t, run[0].after); }
      StepKeepsRelease(st, run[0]);
      StepKeepsSlots(st, run[0]);
      CarefulIsSafe(Apply(st, run[0]), run[1..]);
    }
  }

  /** The same for the conditions one by one: in every run in which no deletion faults, no two entries of
      `close_root` share an id and no node is freed before it is read, every session is released at most
      once. */
  lemma CarefulRunsReleaseOnce(n: Slots, threads: nat, run: seq<Action>, o: nat)
    requires Exec(Start(n, threads), run).Some? && CarefulRun(Start(n, threads), run)
    ensures RunLog(Start(n, threads), run, o).freed <= 1
  {
    StartRelease(n, threads);
    CarefulIsSafe(Start(n, threads), run);
    ReleasedAtMostOnce(n, threads, run, o);
  }

  // ---------------------------------------------------------------- when ids are unique

  /** The slot has not come round to the id of this session again. */
  ghost predicate Recent(p: Pool, x: Session)
  {
    x.slot < p.n && x.slot < |p.gens| && p.gens[x.slot] <= x.gen + Cycle(p.n, x.slot)
  }

  /** A recent session shares its id with no other session. */
  lemma RecentIdsDiffer(p: Pool, objs: Objs, o: nat, q: nat)
    requires ObjsOk(p, objs) && o in objs && q in objs && objs[o].id == objs[q].id > 0
    requires Recent(p, objs[o]) && Recent(p, objs[q])
    ensures o == q
  {
    var x, y := objs[o], objs[q];
    assert ObjOk(p, x) && ObjOk(p, y);
    ValuesDiffer(p.n, x.slot, x.gen, y.slot, y.gen);
    if x.gen < y.gen {
      FfidRuns.SameRemainderApart(x.gen, y.gen, Cycle(p.n, x.slot));
    } else if y.gen < x.gen {
      FfidRuns.SameRemainderApart(y.gen, x.gen, Cycle(p.n, x.slot));
    }
    assert SameHandOut(x, y);
  }

  /** Ids are unique as long as no session lingers in `close_root` until its slot has cycled through all its
      ids. */
  lemma RecentIsUnique(st: State)
    requires SlotsInv(st) && ReleaseInv(st)
    requires forall o :: o in st.objs && InRoot(Stored(st.closeRoot), o) ==> Recent(st.pool, st.objs[o])
    ensures UniqueIds(Stored(st.closeRoot))
  {
    var e := Stored(st.closeRoot);
    forall i, j | 0 <= i < j < |e| ensures e[i].0 != e[j].0 {
      assert Lingers(st.objs, e[i]) && Lingers(st.objs, e[j]);
      assert InRoot(e, e[i].1) && InRoot(e, e[j].1);
      if e[i].0 == e[j].0 { RecentIdsDiffer(st.pool, st.objs, e[i].1, e[j].1); }
    }
  }

  // ---------------------------------------------------------------- what follows an unclean release

  lemma StepAlong(st: State, a: Action, rest: seq<Action>) returns (next: State)
    requires SlotsInv(st) && Enabled(st, a)
    ensures SlotsInv(next) && next == Apply(st, a) && Exec(st, [a] + rest) == Exec(next, rest)
  {
    StepKeepsSlots(st, a);
    next := Apply(st, a);
    assert ([a] + rest)[1..] == rest;
  }

  /** The event for an id, the read and the release by one thread. */
  ghost function Round(t: nat, nd: nat, o: nat, after: SbTreeDamage.Raw): seq<Action>
  {
    [WaitFind(t, nd)] + ([WaitRead(t, o)] + ([Drop(t, after)] + []))
  }

  /** A round releases what the lookup finds. */
  lemma RoundReleases(st: State, t: nat, nd: nat, o: nat, after: SbTreeDamage.Raw) returns (st': State)
    requires SlotsInv(st) && Enabled(st, WaitFind(t, nd)) && !Found(st, nd)
    requires RootFind(st.closeRoot, nd) == Some(o) && o in st.objs && NothingNew(st.closeRoot, [], after)
    ensures Exec(st, Round(t, nd, o, after)) == Some(st') && SlotsInv(st')
    ensures o in st'.objs && st'.objs[o].freed == st.objs[o].freed + 1
    ensures st'.closeRoot == RootDelete(st.closeRoot, st.objs[o].id, after)
    ensures st'.pcs == st.pcs[t := AfterEvent(st.pcs[t].ids[1..])]
    ensures st'.sessions == st.sessions && st'.pool == st.pool && st'.objs.Keys == st.objs.Keys
    ensures forall x :: x in st.objs ==>
              st'.objs[x].id == st.objs[x].id && (x != o ==> st'.objs[x].freed == st.objs[x].freed)
  {
    var s2 := RoundReads(st, t, nd, o, [Drop(t, after)] + []);
    st' := StepAlong(s2, Drop(t, after), []);
    DropEffects(s2, t, after);
    assert st'.pcs == st.pcs[t := AfterEvent(st.pcs[t].ids[1..])];
  }

  /** The lookup and the read of a round. */
  lemma RoundReads(st: State, t: nat, nd: nat, o: nat, rest: seq<Action>) returns (s2: State)
    requires SlotsInv(st) && Enabled(st, WaitFind(t, nd)) && !Found(st, nd)
    requires RootFind(st.closeRoot, nd) == Some(o) && o in st.objs
    ensures SlotsInv(s2) && Exec(st, [WaitFind(t, nd)] + ([WaitRead(t, o)] + rest)) == Exec(s2, rest)
    ensures s2 == st.(pcs := st.pcs[t := Dropping(o, SlotOf(st.pool.n, nd), st.pcs[t].ids[1..])])
  {
    var pc := Dropping(o, SlotOf(st.pool.n, nd), st.pcs[t].ids[1..]);
    var s1 := StepAlong(st, WaitFind(t, nd), [WaitRead(t, o)] + rest);
    s2 := StepAlong(s1, WaitRead(t, o), rest);
    assert s1.pcs[t := pc] == st.pcs[t := pc];
  }

  /** The released session is the one the next lookup of the id finds: its entry is there, and every other entry
      with the id is the one that was taken out instead. */
  ghost predicate NextFound(st: State, t: nat)
    requires t < |st.pcs| && st.pcs[t].Dropping? && st.pcs[t].obj in st.objs
  {
    var o, e := st.pcs[t].obj, Stored(st.closeRoot);
    var nd := st.objs[o].id;
    && st.closeRoot.Sound? && !Found(st, nd)
    && forall i :: 0 <= i < |e| && e[i].0 == nd ==>
         e[i].1 == o || (!MatchHollow(st.closeRoot.tree, nd) && Some(e[i].1) == Find(st.closeRoot.tree, nd))
  }

  /** After an unclean release a thread that has fetched the id finds the released session and releases it a
      second time, if no session is installed under the id and no third entry has it. */
  lemma UncleanReleasesAgain(st: State, t: nat, u: nat, after: SbTreeDamage.Raw)
    requires SlotsInv(st) && ReleaseInv(st) && Enabled(st, Drop(t, after)) && !DropClean(st, t) && NextFound(st, t)
    requires var st', nd := DoDrop(st, t, after), st.objs[st.pcs[t].obj].id;
             u < |st'.pcs| && st'.pcs[u].Fetched? && st'.pcs[u].ids != [] && st'.pcs[u].ids[0] == nd
    ensures var o := st.pcs[t].obj;
            var run := [Drop(t, after)] + Round(u, st.objs[o].id, o, SbTreeDamage.Nil);
            Exec(st, run).Some? && o in Exec(st, run).value.objs && Exec(st, run).value.objs[o].freed == 2
  {
    var o := st.pcs[t].obj;
    var nd := st.objs[o].id;
    WaitAgain(st, t, after);
    EventWaits(DoDrop(st, t, after), u, nd);
    RoundBehind(st, Drop(t, after), DoDrop(st, t, after), u, nd, o);
  }

  /** A step, and a round after it. */
  lemma RoundBehind(st: State, a: Action, s1: State, u: nat, nd: nat, o: nat)
    requires SlotsInv(st) && Enabled(st, a) && s1 == Apply(st, a) && Enabled(s1, WaitFind(u, nd)) && !Found(s1, nd)
    requires RootFind(s1.closeRoot, nd) == Some(o) && o in s1.objs && NothingNew(s1.closeRoot, [], SbTreeDamage.Nil)
    ensures var run := [a] + Round(u, nd, o, SbTreeDamage.Nil);
            && Exec(st, run).Some? && o in Exec(st, run).value.objs
            && Exec(st, run).value.objs[o].freed == s1.objs[o].freed + 1
  {
    var next := StepAlong(st, a, Round(u, nd, o, SbTreeDamage.Nil));
    var s2 := RoundReleases(next, u, nd, o, SbTreeDamage.Nil);
  }

  lemma EventWaits(st: State, u: nat, nd: nat)
    requires u < |st.pcs| && st.pcs[u].Fetched? && st.pcs[u].ids != [] && st.pcs[u].ids[0] == nd > 0
    requires LockFree(st.pcs, SlotOf(st.pool.n, nd))
    ensures Enabled(st, WaitFind(u, nd))
  {
  }

  /** So does a thread without an event, by fetching one for a second session with the id. */
  lemma SecondSessionReleasesAgain(st: State, t: nat, u: nat, q: nat, after: SbTreeDamage.Raw)
    requires SlotsInv(st) && ReleaseInv(st) && Enabled(st, Drop(t, after)) && !DropClean(st, t) && NextFound(st, t)
    requires var st', o := DoDrop(st, t, after), st.pcs[t].obj;
             u < |st'.pcs| && st'.pcs[u].Idle? && q != o && HasFile(st.objs, q) && st.objs[q].id == st.objs[o].id
    ensures var o := st.pcs[t].obj;
            var run := [Drop(t, after)] + ([Fetch(u, [q])] + Round(u, st.objs[o].id, o, SbTreeDamage.Nil));
            Exec(st, run).Some? && o in Exec(st, run).value.objs && Exec(st, run).value.objs[o].freed == 2
  {
    var o := st.pcs[t].obj;
    var nd := st.objs[o].id;
    WaitAgain(st, t, after);
    OthersKeepFile(st, t, q, after);
    var s1 := StepAlong(st, Drop(t, after), [Fetch(u, [q])] + Round(u, nd, o, SbTreeDamage.Nil));
    var s2 := FetchedRound(s1, u, q, nd, o, SbTreeDamage.Nil);
  }

  lemma OthersKeepFile(st: State, t: nat, q: nat, after: SbTreeDamage.Raw)
    requires Enabled(st, Drop(t, after)) && q != st.pcs[t].obj && HasFile(st.objs, q)
    ensures HasFile(DoDrop(st, t, after).objs, q) && DoDrop(st, t, after).objs[q].id == st.objs[q].id
  {
    DropEffects(st, t, after);
  }

  /** Fetching one event and working it off releases what the lookup finds. */
  lemma FetchedRound(st: State, u: nat, q: nat, nd: nat, o: nat, after: SbTreeDamage.Raw) returns (st': State)
    requires SlotsInv(st) && u < |st.pcs| && st.pcs[u].Idle? && HasFile(st.objs, q) && st.objs[q].id == nd > 0
    requires LockFree(st.pcs, SlotOf(st.pool.n, nd)) && !Found(st, nd)
    requires RootFind(st.closeRoot, nd) == Some(o) && o in st.objs && NothingNew(st.closeRoot, [], after)
    ensures Exec(st, [Fetch(u, [q])] + Round(u, nd, o, after)) == Some(st') && SlotsInv(st')
    ensures o in st'.objs && st'.objs[o].freed == st.objs[o].freed + 1
    ensures st'.closeRoot == RootDelete(st.closeRoot, st.objs[o].id, after) && st'.pcs == st.pcs
    ensures st'.sessions == st.sessions && st'.pool == st.pool && st'.objs.Keys == st.objs.Keys
    ensures forall x :: x in st.objs ==>
              st'.objs[x].id == st.objs[x].id && (x != o ==> st'.objs[x].freed == st.objs[x].freed)
  {
    var s2 := FetchedOne(st, u, q, Round(u, nd, o, after));
    st' := RoundReleases(s2, u, nd, o, after);
    assert st'.pcs == st.pcs;
  }

  lemma FetchedOne(st: State, u: nat, q: nat, rest: seq<Action>) returns (next: State)
    requires SlotsInv(st) && u < |st.pcs| && st.pcs[u].Idle? && HasFile(st.objs, q)
    ensures SlotsInv(next) && next == st.(pcs := st.pcs[u := Fetched([st.objs[q].id])])
    ensures Exec(st, [Fetch(u, [q])] + rest) == Exec(next, rest)
    ensures forall s :: LockFree(st.pcs, s) ==> LockFree(next.pcs, s)
  {
    FetchOfOne(st, u, q);
    next := StepAlong(st, Fetch(u, [q]), rest);
    LocksUntouched(st.pcs, u, next.pcs[u]);
  }

  lemma FetchOfOne(st: State, u: nat, q: nat)
    requires u < |st.pcs| && st.pcs[u].Idle? && HasFile(st.objs, q)
    ensures Enabled(st, Fetch(u, [q])) && DoFetch(st, u, [q]) == st.(pcs := st.pcs[u := Fetched([st.objs[q].id])])
  {
    assert DoFetch(st, u, [q]).pcs[u].ids == [st.objs[q].id];
  }

  lemma LocksUntouched(pcs: seq<Pc>, u: nat, pc: Pc)
    requires u < |pcs| && Held(pc) == -1 && Held(pcs[u]) == -1
    ensures forall s :: LockFree(pcs, s) ==> LockFree(pcs[u := pc], s)
  {
    forall s | LockFree(pcs, s) ensures LockFree(pcs[u := pc], s) {
      assert s != -1;
    }
  }

  /** What the next thread with an event for the id meets. */
  lemma WaitAgain(st: State, t: nat, after: SbTreeDamage.Raw)
    requires SlotsInv(st) && ReleaseInv(st) && Enabled(st, Drop(t, after)) && !DropClean(st, t) && NextFound(st, t)
    ensures var st', o := DoDrop(st, t, after), st.pcs[t].obj;
            var nd := st.objs[o].id;
            && nd > 0 && LockFree(st'.pcs, SlotOf(st.pool.n, nd)) && !Found(st', nd)
            && RootFind(st'.closeRoot, nd) == Some(o) && o in st'.objs && st'.objs[o].freed == 1
            && NothingNew(st'.closeRoot, [], SbTreeDamage.Nil)
  {
    var i := OwnEntry(st, t);
    DropEffects(st, t, after);
    StaysFindable(st, t, after);
    LockGivenBack(st.pcs, t, AfterEvent(st.pcs[t].rest));
  }

  lemma LockGivenBack(pcs: seq<Pc>, t: nat, pc: Pc)
    requires LocksExclusive(pcs) && t < |pcs| && Held(pcs[t]) >= 0 && Held(pc) == -1
    ensures LockFree(pcs[t := pc], Held(pcs[t]))
  {
    forall u | 0 <= u < |pcs| && u != t ensures Held(pcs[u]) != Held(pcs[t]) {
    }
  }

  lemma StaysFindable(st: State, t: nat, after: SbTreeDamage.Raw)
    requires SlotsInv(st) && ReleaseInv(st) && Enabled(st, Drop(t, after)) && !DropClean(st, t) && NextFound(st, t)
    ensures RootFind(RootDelete(st.closeRoot, st.objs[st.pcs[t].obj].id, after), st.objs[st.pcs[t].obj].id)
            == Some(st.pcs[t].obj)
  {
    var tree, o := st.closeRoot.tree, st.pcs[t].obj;
    var nd := st.objs[o].id;
    var k := OwnEntry(st, t);
    if MatchHollow(tree, nd) {
      FaultFinds(tree, nd, o, k);
    } else {
      var i := EntrySurvives(tree, nd, o, k);
      DeleteOutcome(tree, nd);
      OtherTaken(st, tree, nd, o, Entries(tree), i);
    }
  }

  lemma FaultFinds(tree: Tree, nd: nat, o: nat, k: nat)
    requires MatchHollow(tree, nd) && Sorted(Entries(tree)) && k < |Entries(tree)| && Entries(tree)[k] == (nd, o as int)
    requires forall i :: 0 <= i < |Entries(tree)| && Entries(tree)[i].0 == nd ==> Entries(tree)[i].1 == o
    ensures Delete(tree, nd).Fault? && SbTreeDamage.RawFind(SbTreeDamage.Faulted(tree, nd), nd) == Some(o)
  {
    DeleteOutcome(tree, nd);
    SbTreeDamage.FaultedEntries(tree, nd);
    var m := SbTreeDamage.RawFindMeaning(SbTreeDamage.Faulted(tree, nd), nd);
    assert Entries(tree)[k].0 == nd;
  }

  lemma OtherTaken(st: State, tree: Tree, nd: nat, o: nat, e: seq<(nat, int)>, i: nat)
    requires e == Entries(tree) && RootOk(st.objs, e) && !MatchHollow(tree, nd) && Find(tree, nd) != Some(o)
    requires forall j :: 0 <= j < |e| && e[j].0 == nd ==> e[j].1 == o || Some(e[j].1) == Find(tree, nd)
    requires var d := Delete(tree, nd); !d.Fault? && i < |Entries(d.tree)| && Entries(d.tree)[i] == (nd, o as int)
    ensures Find(Delete(tree, nd).tree, nd) == Some(o)
  {
    var u := Delete(tree, nd).tree;
    DeleteOutcome(tree, nd);
    FindIsMatch(tree, nd);
    FindIsMatch(u, nd);
    MatchIndexMeaning(tree, nd);
    StillSorted(e, MatchIndex(tree, nd), Entries(u));
    MatchIndexMeaning(u, nd);
    CountEqualZero(Entries(u), nd);
    var m, k := MatchIndex(tree, nd), MatchIndex(u, nd);
    if m >= 0 { assert Entries(u)[k] == e[if k < m then k else k + 1]; }
  }

  lemma StillSorted(e: seq<(nat, int)>, m: int, e': seq<(nat, int)>)
    requires Sorted(e) && m < |e| && e' == if m < 0 then e else RemoveAt(e, m)
    ensures Sorted(e')
  {
    if m >= 0 { assert forall k :: 0 <= k < |e'| ==> e'[k] == e[if k < m then k else k + 1]; }
  }
}
