/** Event delivery through the de-duplicated id queues, over whole runs of the session protocol. */
module NetEvents {
  import opened Options
  import opened Ffid
  import opened NetProtocol
  import opened NetRelease
  import opened NetLogs
  import FfidRuns
  import SbTreeDamage

  // ---------------------------------------------------------------- which sessions wait in a queue

  /** How many entries of a list were queued for a session. */
  ghost function Count(es: seq<Entry>, o: nat): nat
  {
    if es == [] then 0 else (if es[0].obj == o then 1 else 0) + Count(es[1..], o)
  }

  lemma {:induction false} CountConcat(a: seq<Entry>, b: seq<Entry>, o: nat)
    ensures Count(a + b, o) == Count(a, o) + Count(b, o)
  {
    if a == [] {
      assert a + b == b;
    } else {
      CountConcat(a[1..], b, o);
      assert (a + b)[1..] == a[1..] + b;
    }
  }

  ghost function PcCount(pc: Pc, kind: Kind, o: nat): nat
  {
    if pc.Reading? && pc.kind == kind then Count(pc.batch, o) else 0
  }

  /** The entries for a session that all readers together have read but not looked at. */
  ghost function BatchCount(pcs: seq<Pc>, kind: Kind, o: nat): nat
  {
    if pcs == [] then 0 else PcCount(pcs[0], kind, o) + BatchCount(pcs[1..], kind, o)
  }

  lemma {:induction false} BatchUpdate(pcs: seq<Pc>, t: nat, pc: Pc, kind: Kind, o: nat)
    requires t < |pcs|
    ensures BatchCount(pcs[t := pc], kind, o) + PcCount(pcs[t], kind, o)
            == BatchCount(pcs, kind, o) + PcCount(pc, kind, o)
    ensures PcCount(pcs[t], kind, o) <= BatchCount(pcs, kind, o)
  {
    var pcs' := pcs[t := pc];
    if t == 0 {
      assert pcs'[1..] == pcs[1..];
    } else {
      BatchUpdate(pcs[1..], t - 1, pc, kind, o);
      assert pcs'[1..] == pcs[1..][t - 1 := pc];
    }
  }

  /** How often a session waits in a queue: entries queued or read, but not yet looked at. */
  ghost function Waiting(st: State, kind: Kind, o: nat): nat
  {
    Count(Queue(st, kind), o) + BatchCount(st.pcs, kind, o)
  }

  /** An entry carries the id of the session it was queued for. */
  ghost predicate EntryOk(objs: Objs, e: Entry)
  {
    e.obj in objs && e.id > 0 && objs[e.obj].id == e.id
  }

  ghost predicate EntriesOk(objs: Objs, es: seq<Entry>)
  {
    forall i :: 0 <= i < |es| ==> EntryOk(objs, es[i])
  }

  ghost predicate BatchesOk(objs: Objs, pcs: seq<Pc>)
  {
    forall t :: 0 <= t < |pcs| && pcs[t].Reading? ==> EntriesOk(objs, pcs[t].batch)
  }

  ghost predicate AllEntriesOk(st: State)
  {
    EntriesOk(st.objs, st.eventQueue) && EntriesOk(st.objs, st.delayQueue) && BatchesOk(st.objs, st.pcs)
  }

  /** No bit is lost between being raised and being reported. */
  ghost predicate BitsOk(x: Session)
  {
    x.raised == x.delivered + x.events && (x.events != {} ==> x.inQueue) && (x.id == 0 ==> Quiet(x))
  }

  ghost predicate ObjsBitsOk(objs: Objs)
  {
    forall o :: o in objs ==> BitsOk(objs[o])
  }

  /** An installed session waits in a queue exactly once if it is flagged, and not at all otherwise. */
  ghost predicate CellQueued(st: State, kind: Kind, s: nat)
  {
    s < |st.sessions| && st.sessions[s].Some? ==>
      var o := st.sessions[s].value;
      o in st.objs &&
      (!Lost(st.objs[o], kind) ==> Waiting(st, kind, o) == if Flag(st.objs[o], kind) then 1 else 0)
  }

  ghost predicate QueuedOnce(st: State)
  {
    forall kind, s :: CellQueued(st, kind, s)
  }

  ghost predicate EventInv(st: State)
  {
    BitsTracked(st) && QueuedOnce(st)
  }

  /** What holds in every run, however old queue entries get: entries carry the id of their own session, and
      no bit is lost. */
  ghost predicate BitsTracked(st: State)
  {
    AllEntriesOk(st) && ObjsBitsOk(st.objs)
  }

  /** No queued entry is so old that its slot has come round to the same id again. */
  ghost predicate QueuesRecent(st: State)
  {
    forall kind, o :: Waiting(st, kind, o) > 0 && o in st.objs ==> Recent(st.pool, st.objs[o])
  }

  // ---------------------------------------------------------------- an entry reaches its own session

  /** Whatever session an entry reaches has the slot of the session it was queued for, and is that
      session unless the slot has since cycled through all its ids. */
  lemma EntryReachesOwner(st: State, t: nat)
    requires SlotsInv(st) && AllEntriesOk(st) && Enabled(st, Process(t))
    requires Found(st, st.pcs[t].batch[0].id)
    ensures var e, o := st.pcs[t].batch[0], FoundObj(st, st.pcs[t].batch[0].id);
            && e.obj in st.objs && o in st.objs && st.objs[o].slot == st.objs[e.obj].slot
            && (o == e.obj || st.objs[o].gen >= st.objs[e.obj].gen + Cycle(st.pool.n, st.objs[o].slot))
  {
    var e := st.pcs[t].batch[0];
    var o := FoundObj(st, e.id);
    assert EntryOk(st.objs, e);
    assert Current(st.pool, st.objs, o, SlotOf(st.pool.n, e.id));
    SameIdApart(st.pool, st.objs, e.obj, o);
  }

  lemma SameIdApart(p: Pool, objs: Objs, q: nat, o: nat)
    requires ObjsOk(p, objs) && q in objs && o in objs && objs[q].id == objs[o].id > 0
    requires objs[o].slot < |p.gens| && objs[o].gen + 1 == p.gens[objs[o].slot]
    ensures objs[o].slot == objs[q].slot < p.n
    ensures o == q || objs[o].gen >= objs[q].gen + Cycle(p.n, objs[o].slot)
  {
    var x, y := objs[q], objs[o];
    assert ObjOk(p, x) && ObjOk(p, y);
    ValuesDiffer(p.n, x.slot, x.gen, y.slot, y.gen);
    if x.gen == y.gen {
      assert SameHandOut(x, y);
    } else {
      FfidRuns.SameRemainderApart(x.gen, y.gen, Cycle(p.n, x.slot));
    }
  }

  /** With recent entries, a found session is always the one the entry was queued for. */
  lemma RecentEntryIsOwn(st: State, t: nat)
    requires SlotsInv(st) && AllEntriesOk(st) && QueuesRecent(st) && Enabled(st, Process(t))
    requires Found(st, st.pcs[t].batch[0].id)
    ensures FoundObj(st, st.pcs[t].batch[0].id) == st.pcs[t].batch[0].obj
  {
    EntryReachesOwner(st, t);
    var e, o := st.pcs[t].batch[0], FoundObj(st, st.pcs[t].batch[0].id);
    assert Current(st.pool, st.objs, o, SlotOf(st.pool.n, e.id));
    HeadWaits(st, t);
    assert Recent(st.pool, st.objs[e.obj]);
  }

  lemma HeadWaits(st: State, t: nat)
    requires Enabled(st, Process(t))
    ensures Waiting(st, st.pcs[t].kind, st.pcs[t].batch[0].obj) > 0
  {
    BatchUpdate(st.pcs, t, Idle, st.pcs[t].kind, st.pcs[t].batch[0].obj);
  }

  lemma {:induction false} CountedOk(objs: Objs, es: seq<Entry>, o: nat)
    requires EntriesOk(objs, es) && Count(es, o) > 0
    ensures o in objs && objs[o].id > 0
  {
    assert EntryOk(objs, es[0]);
    if es[0].obj != o {
      assert forall i :: 0 <= i < |es[1..]| ==> es[1..][i] == es[i + 1];
      CountedOk(objs, es[1..], o);
    }
  }

  lemma {:induction false} BatchCountedOk(objs: Objs, pcs: seq<Pc>, kind: Kind, o: nat)
    requires BatchesOk(objs, pcs) && BatchCount(pcs, kind, o) > 0
    ensures o in objs && objs[o].id > 0
  {
    if PcCount(pcs[0], kind, o) > 0 {
      CountedOk(objs, pcs[0].batch, o);
    } else {
      assert forall i :: 0 <= i < |pcs[1..]| ==> pcs[1..][i] == pcs[i + 1];
      BatchCountedOk(objs, pcs[1..], kind, o);
    }
  }

  /** Only sessions that were installed are queued. */
  lemma WaitingInstalled(st: State, kind: Kind, o: nat)
    requires AllEntriesOk(st) && Waiting(st, kind, o) > 0
    ensures o in st.objs && st.objs[o].id > 0
  {
    if Count(Queue(st, kind), o) > 0 { CountedOk(st.objs, Queue(st, kind), o); }
    else { BatchCountedOk(st.objs, st.pcs, kind, o); }
  }

  // ---------------------------------------------------------------- the invariant holds in every run

  /** Installed sessions keep their ids. */
  ghost predicate KeepsIds(objs: Objs, objs': Objs)
  {
    forall o :: o in objs && objs[o].id > 0 ==> o in objs' && objs'[o].id == objs[o].id
  }

  lemma EntriesFrame(objs: Objs, objs': Objs, es: seq<Entry>)
    requires EntriesOk(objs, es) && KeepsIds(objs, objs')
    ensures EntriesOk(objs', es)
  {
    forall i | 0 <= i < |es| ensures EntryOk(objs', es[i]) {
      assert EntryOk(objs, es[i]);
    }
  }

  lemma BatchesFrame(objs: Objs, objs': Objs, pcs: seq<Pc>, t: nat, pc: Pc)
    requires BatchesOk(objs, pcs) && KeepsIds(objs, objs') && t < |pcs|
    requires pc.Reading? ==> EntriesOk(objs', pc.batch)
    ensures BatchesOk(objs', pcs[t := pc])
  {
    forall u | 0 <= u < |pcs| && u != t && pcs[u].Reading? ensures EntriesOk(objs', pcs[u].batch) {
      EntriesFrame(objs, objs', pcs[u].batch);
    }
  }

  /** A step of thread `t` that reads nothing and leaves the queues alone. */
  lemma PlainMove(st: State, st': State, t: nat)
    requires AllEntriesOk(st) && t < |st.pcs| && !st.pcs[t].Reading?
    requires KeepsIds(st.objs, st'.objs) && st'.eventQueue == st.eventQueue && st'.delayQueue == st.delayQueue
    requires |st'.pcs| == |st.pcs| && st'.pcs == st.pcs[t := st'.pcs[t]] && !st'.pcs[t].Reading?
    ensures AllEntriesOk(st')
    ensures forall kind, o :: Waiting(st', kind, o) == Waiting(st, kind, o)
  {
    EntriesFrame(st.objs, st'.objs, st.eventQueue);
    EntriesFrame(st.objs, st'.objs, st.delayQueue);
    BatchesFrame(st.objs, st'.objs, st.pcs, t, st'.pcs[t]);
    forall kind, o ensures Waiting(st', kind, o) == Waiting(st, kind, o) {
      BatchUpdate(st.pcs, t, st'.pcs[t], kind, o);
    }
  }

  /** A step that installs nothing and changes neither flags nor counts of installed sessions. */
  lemma CellsFrame(st: State, st': State)
    requires QueuedOnce(st) && forall kind, o :: Waiting(st', kind, o) == Waiting(st, kind, o)
    requires |st'.sessions| == |st.sessions|
    requires forall s :: 0 <= s < |st'.sessions| && st'.sessions[s].Some? ==> st'.sessions[s] == st.sessions[s]
    requires forall o :: o in st.objs ==>
               o in st'.objs && forall kind :: Flag(st'.objs[o], kind) == Flag(st.objs[o], kind)
                                            && Lost(st'.objs[o], kind) == Lost(st.objs[o], kind)
    ensures QueuedOnce(st')
  {
    forall kind, s ensures CellQueued(st', kind, s) {
      assert CellQueued(st, kind, s);
    }
  }

  lemma InstallBits(st: State, t: nat)
    requires SlotsInv(st) && BitsTracked(st) && Enabled(st, Install(t))
    ensures BitsTracked(Apply(st, Install(t)))
    ensures forall kind, o :: Waiting(Apply(st, Install(t)), kind, o) == Waiting(st, kind, o)
  {
    assert PcOk(st.pool, st.sessions, st.objs, st.pcs[t]);
    IdOfPositive(st.pool, st.pcs[t].slot);
    assert BitsOk(st.objs[st.pcs[t].obj]);
    PlainMove(st, Apply(st, Install(t)), t);
  }

  lemma IssueBits(st: State, t: nat, obj: nat)
    requires SlotsInv(st) && BitsTracked(st) && Enabled(st, Issue(t, obj))
    ensures BitsTracked(DoIssue(st, t, obj))
    ensures forall kind, o :: Waiting(DoIssue(st, t, obj), kind, o) == Waiting(st, kind, o)
  {
    PlainMove(st, DoIssue(st, t, obj), t);
  }

  lemma CloseBits(st: State, t: nat, nd: nat, linger: bool)
    requires SlotsInv(st) && BitsTracked(st) && Enabled(st, Close(t, nd, linger))
    ensures BitsTracked(DoClose(st, t, nd, linger))
    ensures forall kind, o :: Waiting(DoClose(st, t, nd, linger), kind, o) == Waiting(st, kind, o)
  {
    if Found(st, nd) {
      assert BitsOk(st.objs[FoundObj(st, nd)]);
      PlainMove(st, DoClose(st, t, nd, linger), t);
    }
  }

  /** A release, and a node that moves, leave ids, flags and bits alone. */
  lemma DropBits(st: State, t: nat, after: SbTreeDamage.Raw)
    requires BitsTracked(st) && Enabled(st, Drop(t, after))
    ensures BitsTracked(DoDrop(st, t, after))
    ensures forall kind, o :: Waiting(DoDrop(st, t, after), kind, o) == Waiting(st, kind, o)
  {
    var st' := DoDrop(st, t, after);
    DropKeeps(st, t, after);
    forall o | o in st'.objs ensures BitsOk(st'.objs[o]) {
      assert BitsOk(st.objs[o]);
    }
    PlainMove(st, st', t);
  }

  /** The two differ at most in their releases and in the moves of their node. */
  ghost predicate SameButReleases(x: Session, y: Session)
  {
    && x.slot == y.slot && x.gen == y.gen && x.id == y.id
    && x.events == y.events && x.raised == y.raised && x.delivered == y.delivered
    && x.inQueue == y.inQueue && x.inDelay == y.inDelay && x.lostEvent == y.lostEvent && x.lostDelay == y.lostDelay
  }

  lemma DropKeeps(st: State, t: nat, after: SbTreeDamage.Raw)
    requires Enabled(st, Drop(t, after))
    ensures var st' := DoDrop(st, t, after);
            && st'.objs.Keys == st.objs.Keys && st'.pcs == st.pcs[t := AfterEvent(st.pcs[t].rest)]
            && forall o :: o in st.objs ==> SameButReleases(st'.objs[o], st.objs[o])
  {
    var o := st.pcs[t].obj;
    ReleaseKeeps(st.objs, o, st.objs[o].freed + 1, NodeFreed(st.closeRoot, st.objs[o].id));
  }

  lemma ReleaseKeeps(objs: Objs, o: nat, freed: nat, moved: int)
    requires o in objs
    ensures var objs' := Moved(objs[o := objs[o].(freed := freed)], moved);
            objs'.Keys == objs.Keys && forall x :: x in objs ==> SameButReleases(objs'[x], objs[x])
  {
  }

  lemma OtherBits(st: State, st': State, t: nat)
    requires BitsTracked(st) && t < |st.pcs| && !st.pcs[t].Reading?
    requires st'.objs == st.objs && st'.eventQueue == st.eventQueue && st'.delayQueue == st.delayQueue
    requires |st'.pcs| == |st.pcs| && st'.pcs == st.pcs[t := st'.pcs[t]] && !st'.pcs[t].Reading?
    ensures BitsTracked(st') && forall kind, o :: Waiting(st', kind, o) == Waiting(st, kind, o)
  {
    PlainMove(st, st', t);
  }

  lemma ReadBits(st: State, t: nat, kind: Kind, count: nat)
    requires BitsTracked(st) && Enabled(st, Read(t, kind, count))
    ensures BitsTracked(DoRead(st, t, kind, count))
    ensures forall k, o :: Waiting(DoRead(st, t, kind, count), k, o) == Waiting(st, k, o)
  {
    var st', q := DoRead(st, t, kind, count), Queue(st, kind);
    BatchesFrame(st.objs, st.objs, st.pcs, t, Reading(kind, q[..count]));
    forall k, o ensures Waiting(st', k, o) == Waiting(st, k, o) {
      BatchUpdate(st.pcs, t, Reading(kind, q[..count]), k, o);
      CountConcat(q[..count], q[count..], o);
      assert q[..count] + q[count..] == q;
    }
  }

  /** Every step of every thread, in every run. */
  lemma StepKeepsBits(st: State, a: Action)
    requires SlotsInv(st) && BitsTracked(st) && Enabled(st, a)
    ensures BitsTracked(Apply(st, a))
  {
    var st' := Apply(st, a);
    match a {
      case Issue(t, obj) => IssueBits(st, t, obj);
      case Install(t) => InstallBits(st, t);
      case Close(t, nd, linger) => CloseBits(st, t, nd, linger);
      case Park(t, _, _) => OtherBits(st, st', t);
      case DeleteId(t) => OtherBits(st, st', t);
      case Fetch(t, ready) => OtherBits(st, st', t);
      case WaitFind(t, nd) => OtherBits(st, st', t);
      case WaitRead(t, obj) => OtherBits(st, st', t);
      case WaitKeep(t) => OtherBits(st, st', t);
      case Drop(t, after) => DropBits(st, t, after);
      case Push(kind, nd, bits, written) =>
        if Found(st, nd) {
          PushEntries(st, kind, nd, bits, written);
          PushBits(st, kind, nd, bits, written);
        }
      case Read(t, kind, count) => ReadBits(st, t, kind, count);
      case Process(t) =>
        ProcessEntries(st, t);
        ProcessBits(st, t);
    }
  }

  lemma {:induction false} RunKeepsBits(st: State, run: seq<Action>)
    requires SlotsInv(st) && BitsTracked(st) && Exec(st, run).Some?
    ensures BitsTracked(Exec(st, run).value)
    decreases |run|
  {
    if run != [] {
      StepKeepsBits(st, run[0]);
      StepKeepsSlots(st, run[0]);
      RunKeepsBits(Apply(st, run[0]), run[1..]);
    }
  }

  /** In every run, the bits that its steps raised on any session are those that its steps reported and those that
      are pending, and a session with pending bits is flagged as queued. */
  lemma NoBitIsLost(n: Slots, threads: nat, run: seq<Action>, o: nat)
    requires Exec(Start(n, threads), run).Some? && o in Exec(Start(n, threads), run).value.objs
    ensures var log, x := RunLog(Start(n, threads), run, o), Exec(Start(n, threads), run).value.objs[o];
            && log.raised == log.reported + x.events && (x.events != {} ==> x.inQueue)
            && x.events == RaisedSince(Start(n, threads), run, o, {})
  {
    RunKeepsBits(Start(n, threads), run);
    LogsOfTheRun(n, threads, run, o);
    PendingExactly(Start(n, threads), run, o);
    assert BitsOk(Exec(Start(n, threads), run).value.objs[o]);
  }

  /** In every run, an entry that is looked at reaches the session it was queued for, or none, unless its slot
      has cycled through all its ids since. */
  lemma EntryReachesOwnerInEveryRun(n: Slots, threads: nat, run: seq<Action>, t: nat)
    requires Exec(Start(n, threads), run).Some? && Enabled(Exec(Start(n, threads), run).value, Process(t))
    requires var st := Exec(Start(n, threads), run).value; Found(st, st.pcs[t].batch[0].id)
    ensures var st := Exec(Start(n, threads), run).value;
            var e, o := st.pcs[t].batch[0], FoundObj(st, st.pcs[t].batch[0].id);
            && e.obj in st.objs && o in st.objs && st.objs[o].slot == st.objs[e.obj].slot < n
            && (o == e.obj || st.objs[o].gen >= st.objs[e.obj].gen + Cycle(n, st.objs[o].slot))
  {
    RunKeepsBits(Start(n, threads), run);
    RunKeepsSlotCount(Start(n, threads), run);
    EntryReachesOwner(Exec(Start(n, threads), run).value, t);
  }

  lemma {:induction false} RunKeepsSlotCount(st: State, run: seq<Action>)
    requires SlotsInv(st) && Exec(st, run).Some?
    ensures Exec(st, run).value.pool.n == st.pool.n
    decreases |run|
  {
    if run != [] {
      StepKeepsSlots(st, run[0]);
      RunKeepsSlotCount(Apply(st, run[0]), run[1..]);
    }
  }

  // ---------------------------------------------------------------- queued exactly once, and when not

  lemma InstallEvents(st: State, t: nat)
    requires SlotsInv(st) && EventInv(st) && Enabled(st, Install(t))
    ensures EventInv(Apply(st, Install(t)))
  {
    var st', o, slot := Apply(st, Install(t)), st.pcs[t].obj, st.pcs[t].slot;
    assert PcOk(st.pool, st.sessions, st.objs, st.pcs[t]);
    InstallBits(st, t);
    InstalledIsQuiet(st, o);
    forall kind, s ensures CellQueued(st', kind, s) {
      if s != slot { OtherCell(st, st', kind, s, o, slot); }
    }
  }

  /** A session that is not installed yet neither waits nor is flagged. */
  lemma InstalledIsQuiet(st: State, o: nat)
    requires BitsTracked(st) && o in st.objs && st.objs[o].id == 0
    ensures forall kind :: Waiting(st, kind, o) == 0 && !Flag(st.objs[o], kind)
  {
    assert BitsOk(st.objs[o]);
    forall kind ensures Waiting(st, kind, o) == 0 && !Flag(st.objs[o], kind) {
      if Waiting(st, kind, o) > 0 { WaitingInstalled(st, kind, o); }
    }
  }

  /** A cell other than the one a step works on, seen before and after. */
  lemma OtherCell(st: State, st': State, kind: Kind, s: nat, o: nat, slot: nat)
    requires SlotsInv(st) && QueuedOnce(st) && s != slot && o in st.objs && st.objs[o].slot == slot
    requires |st'.sessions| == |st.sessions| && (s < |st.sessions| ==> st'.sessions[s] == st.sessions[s])
    requires st'.objs.Keys == st.objs.Keys && forall q :: q in st.objs && q != o ==> st'.objs[q] == st.objs[q]
    requires forall q :: q != o ==> Waiting(st', kind, q) == Waiting(st, kind, q)
    ensures CellQueued(st', kind, s)
  {
    assert CellQueued(st, kind, s);
    if s < |st.sessions| && st.sessions[s].Some? {
      assert Current(st.pool, st.objs, st.sessions[s].value, s);
    }
  }

  /** A push sets the flag and queues the id in the same step. */
  lemma PushEvents(st: State, kind: Kind, nd: nat, bits: set<nat>, written: bool)
    requires SlotsInv(st) && EventInv(st) && Enabled(st, Push(kind, nd, bits, written))
    ensures EventInv(DoPush(st, kind, nd, bits, written))
  {
    if Found(st, nd) {
      PushEntries(st, kind, nd, bits, written);
      PushCounts(st, kind, nd, bits, written);
      PushBits(st, kind, nd, bits, written);
      forall k, s ensures CellQueued(DoPush(st, kind, nd, bits, written), k, s) {
        PushCell(st, kind, nd, bits, written, k, s);
      }
    }
  }

  lemma PushBits(st: State, kind: Kind, nd: nat, bits: set<nat>, written: bool)
    requires SlotsInv(st) && ObjsBitsOk(st.objs) && Enabled(st, Push(kind, nd, bits, written)) && Found(st, nd)
    ensures ObjsBitsOk(DoPush(st, kind, nd, bits, written).objs)
  {
    assert BitsOk(st.objs[FoundObj(st, nd)]);
  }

  lemma PushCell(st: State, kind: Kind, nd: nat, bits: set<nat>, written: bool, k: Kind, s: nat)
    requires SlotsInv(st) && QueuedOnce(st) && Enabled(st, Push(kind, nd, bits, written)) && Found(st, nd)
    requires var o, st' := FoundObj(st, nd), DoPush(st, kind, nd, bits, written);
             forall k, q :: Waiting(st', k, q) == Waiting(st, k, q) +
               if k == kind && q == o && !Flag(st.objs[o], kind) && written then 1 else 0
    ensures CellQueued(DoPush(st, kind, nd, bits, written), k, s)
  {
    var o, s0 := FoundObj(st, nd), SlotOf(st.pool.n, nd);
    var st' := DoPush(st, kind, nd, bits, written);
    assert Current(st.pool, st.objs, o, s0);
    PushFrame(st, kind, nd, bits, written);
    if s != s0 {
      OtherCell(st, st', k, s, o, s0);
    } else {
      assert CellQueued(st, k, s);
    }
  }

  lemma PushFrame(st: State, kind: Kind, nd: nat, bits: set<nat>, written: bool)
    requires Enabled(st, Push(kind, nd, bits, written)) && Found(st, nd)
    ensures var o, st' := FoundObj(st, nd), DoPush(st, kind, nd, bits, written);
            && st'.sessions == st.sessions && st'.objs == st.objs[o := Pushed(st.objs[o], kind, bits, written)]
  {
  }

  lemma PushCounts(st: State, kind: Kind, nd: nat, bits: set<nat>, written: bool)
    requires Enabled(st, Push(kind, nd, bits, written)) && Found(st, nd)
    ensures var o, st' := FoundObj(st, nd), DoPush(st, kind, nd, bits, written);
            forall k, q :: Waiting(st', k, q) == Waiting(st, k, q) +
              if k == kind && q == o && !Flag(st.objs[o], kind) && written then 1 else 0
  {
    var o, st' := FoundObj(st, nd), DoPush(st, kind, nd, bits, written);
    forall k, q
      ensures Waiting(st', k, q) == Waiting(st, k, q) +
                if k == kind && q == o && !Flag(st.objs[o], kind) && written then 1 else 0
    {
      CountConcat(Queue(st, kind), [Entry(nd, o)], q);
      OneEntry(nd, o);
    }
  }

  lemma OneEntry(nd: nat, o: nat)
    ensures forall q :: Count([Entry(nd, o)], q) == if q == o then 1 else 0
  {
    var one := [Entry(nd, o)];
    assert one[1..] == [];
  }

  lemma PushEntries(st: State, kind: Kind, nd: nat, bits: set<nat>, written: bool)
    requires SlotsInv(st) && AllEntriesOk(st) && Enabled(st, Push(kind, nd, bits, written)) && Found(st, nd)
    ensures AllEntriesOk(DoPush(st, kind, nd, bits, written))
  {
    var st' := DoPush(st, kind, nd, bits, written);
    EntriesFrame(st.objs, st'.objs, st.eventQueue);
    EntriesFrame(st.objs, st'.objs, st.delayQueue);
    forall u | 0 <= u < |st.pcs| && st.pcs[u].Reading? ensures EntriesOk(st'.objs, st.pcs[u].batch) {
      EntriesFrame(st.objs, st'.objs, st.pcs[u].batch);
    }
  }

  lemma ProcessEntries(st: State, t: nat)
    requires AllEntriesOk(st) && Enabled(st, Process(t))
    ensures AllEntriesOk(DoProcess(st, t))
  {
    var st' := DoProcess(st, t);
    EntriesFrame(st.objs, st'.objs, st.eventQueue);
    EntriesFrame(st.objs, st'.objs, st.delayQueue);
    EntriesFrame(st.objs, st'.objs, st.pcs[t].batch);
    BatchesFrame(st.objs, st'.objs, st.pcs, t, AfterBatch(st.pcs[t]));
  }

  lemma ProcessCounts(st: State, t: nat)
    requires Enabled(st, Process(t))
    ensures forall k, q :: Waiting(st, k, q) == Waiting(DoProcess(st, t), k, q) +
              if k == st.pcs[t].kind && q == st.pcs[t].batch[0].obj then 1 else 0
  {
    var st', pc := DoProcess(st, t), st.pcs[t];
    forall k, q
      ensures Waiting(st, k, q) == Waiting(st', k, q) + if k == pc.kind && q == pc.batch[0].obj then 1 else 0
    {
      BatchUpdate(st.pcs, t, AfterBatch(pc), k, q);
      assert |pc.batch| == 1 ==> pc.batch[1..] == [];
      assert Count(pc.batch, q) == (if pc.batch[0].obj == q then 1 else 0) + Count(pc.batch[1..], q);
    }
  }

  /** The entry a reader looks at next reaches another session than the one it was queued for, and that session
      is flagged. */
  ghost predicate ClearsOther(st: State, t: nat)
    requires Enabled(st, Process(t))
  {
    var e, kind := st.pcs[t].batch[0], st.pcs[t].kind;
    Found(st, e.id) && FoundObj(st, e.id) != e.obj &&
    Flag(st.objs[FoundObj(st, e.id)], kind) && !Lost(st.objs[FoundObj(st, e.id)], kind)
  }

  /** Looking at an entry keeps the event invariant exactly when it does not clear the flag of another session. */
  lemma ProcessExactly(st: State, t: nat)
    requires SlotsInv(st) && EventInv(st) && Enabled(st, Process(t))
    ensures EventInv(DoProcess(st, t)) <==> !ClearsOther(st, t)
  {
    ProcessEntries(st, t);
    ProcessCounts(st, t);
    ProcessBits(st, t);
    assert EntryOk(st.objs, st.pcs[t].batch[0]);
    if ClearsOther(st, t) {
      FlagGone(st, t);
    } else {
      forall k, s ensures CellQueued(DoProcess(st, t), k, s) {
        assert CellQueued(st, k, s);
        if Found(st, st.pcs[t].batch[0].id) && FoundObj(st, st.pcs[t].batch[0].id) != st.pcs[t].batch[0].obj {
          ProcessOtherCell(st, t, k, s);
        } else {
          ProcessCell(st, t, k, s);
        }
      }
    }
  }

  /** The session that is reached waits on, but is not flagged any more. */
  lemma FlagGone(st: State, t: nat)
    requires SlotsInv(st) && EventInv(st) && Enabled(st, Process(t)) && ClearsOther(st, t)
    requires forall k, q :: Waiting(st, k, q) == Waiting(DoProcess(st, t), k, q) +
               if k == st.pcs[t].kind && q == st.pcs[t].batch[0].obj then 1 else 0
    ensures !QueuedOnce(DoProcess(st, t))
  {
    var e, kind := st.pcs[t].batch[0], st.pcs[t].kind;
    var s := SlotOf(st.pool.n, e.id);
    assert CellQueued(st, kind, s);
    assert !CellQueued(DoProcess(st, t), kind, s);
  }

  /** A session that is reached without being flagged does not change, nor does how often it waits. */
  lemma ProcessOtherCell(st: State, t: nat, k: Kind, s: nat)
    requires SlotsInv(st) && AllEntriesOk(st) && CellQueued(st, k, s) && Enabled(st, Process(t)) && !ClearsOther(st, t)
    requires var e := st.pcs[t].batch[0]; Found(st, e.id) && FoundObj(st, e.id) != e.obj
    requires forall k, q :: Waiting(st, k, q) == Waiting(DoProcess(st, t), k, q) +
               if k == st.pcs[t].kind && q == st.pcs[t].batch[0].obj then 1 else 0
    ensures CellQueued(DoProcess(st, t), k, s)
  {
    EntryReachesOwner(st, t);
    if s < |st.sessions| && st.sessions[s].Some? {
      var o, e := st.sessions[s].value, st.pcs[t].batch[0];
      assert Current(st.pool, st.objs, o, s);
      assert Current(st.pool, st.objs, FoundObj(st, e.id), SlotOf(st.pool.n, e.id));
    }
  }

  lemma ProcessBits(st: State, t: nat)
    requires ObjsBitsOk(st.objs) && Enabled(st, Process(t))
    ensures ObjsBitsOk(DoProcess(st, t).objs)
  {
    if Found(st, st.pcs[t].batch[0].id) { assert BitsOk(st.objs[FoundObj(st, st.pcs[t].batch[0].id)]); }
  }

  lemma ProcessCell(st: State, t: nat, k: Kind, s: nat)
    requires SlotsInv(st) && AllEntriesOk(st) && QueuedOnce(st) && Enabled(st, Process(t))
    requires var e := st.pcs[t].batch[0];
             e.obj in st.objs && (Found(st, e.id) ==> FoundObj(st, e.id) == e.obj)
    requires forall k, q :: Waiting(st, k, q) == Waiting(DoProcess(st, t), k, q) +
               if k == st.pcs[t].kind && q == st.pcs[t].batch[0].obj then 1 else 0
    ensures CellQueued(DoProcess(st, t), k, s)
  {
    var e := st.pcs[t].batch[0];
    assert CellQueued(st, k, s);
    if s != st.objs[e.obj].slot {
      OtherCell(st, DoProcess(st, t), k, s, e.obj, st.objs[e.obj].slot);
    } else if s < |st.sessions| && st.sessions[s].Some? {
      ProcessOwnCell(st, t, k, s);
    }
  }

  lemma ProcessOwnCell(st: State, t: nat, k: Kind, s: nat)
    requires SlotsInv(st) && AllEntriesOk(st) && Enabled(st, Process(t)) && CellQueued(st, k, s)
    requires var e := st.pcs[t].batch[0];
             && e.obj in st.objs && st.objs[e.obj].slot == s < |st.sessions| && st.sessions[s].Some?
             && (Found(st, e.id) ==> FoundObj(st, e.id) == e.obj)
    requires forall k, q :: Waiting(st, k, q) == Waiting(DoProcess(st, t), k, q) +
               if k == st.pcs[t].kind && q == st.pcs[t].batch[0].obj then 1 else 0
    ensures CellQueued(DoProcess(st, t), k, s)
  {
    var e := st.pcs[t].batch[0];
    var o := st.sessions[s].value;
    assert EntryOk(st.objs, e);
    assert ObjOk(st.pool, st.objs[e.obj]);
    assert Current(st.pool, st.objs, o, s);
    assert SlotOf(st.pool.n, e.id) == s;
  }

  /** Every step of every thread keeps the event invariant, except one that looks through an entry at another
      session that is flagged, and that one never does. */
  lemma StepKeepsEvents(st: State, a: Action)
    requires SlotsInv(st) && EventInv(st) && Enabled(st, a)
    ensures EventInv(Apply(st, a)) <==> !(a.Process? && ClearsOther(st, a.t))
  {
    var st' := Apply(st, a);
    match a {
      case Install(t) => InstallEvents(st, t);
      case Push(kind, nd, bits, written) => PushEvents(st, kind, nd, bits, written);
      case Process(t) => ProcessExactly(st, t);
      case Issue(t, obj) => IssueEvents(st, t, obj);
      case Close(t, nd, linger) => CloseEvents(st, t, nd, linger);
      case Drop(t, after) => DropEvents(st, t, after);
      case Read(t, kind, count) => ReadEvents(st, t, kind, count);
      case Park(t, _, _) => OtherEvents(st, st', t);
      case DeleteId(t) => OtherEvents(st, st', t);
      case Fetch(t, ready) => OtherEvents(st, st', t);
      case WaitFind(t, nd) => OtherEvents(st, st', t);
      case WaitRead(t, obj) => OtherEvents(st, st', t);
      case WaitKeep(t) => OtherEvents(st, st', t);
    }
  }

  lemma IssueEvents(st: State, t: nat, obj: nat)
    requires SlotsInv(st) && EventInv(st) && Enabled(st, Issue(t, obj))
    ensures EventInv(DoIssue(st, t, obj))
  {
    IssueBits(st, t, obj);
    CellsFrame(st, DoIssue(st, t, obj));
  }

  lemma CloseEvents(st: State, t: nat, nd: nat, linger: bool)
    requires SlotsInv(st) && EventInv(st) && Enabled(st, Close(t, nd, linger))
    ensures EventInv(DoClose(st, t, nd, linger))
  {
    CloseBits(st, t, nd, linger);
    CellsFrame(st, DoClose(st, t, nd, linger));
  }

  lemma DropEvents(st: State, t: nat, after: SbTreeDamage.Raw)
    requires EventInv(st) && Enabled(st, Drop(t, after))
    ensures EventInv(DoDrop(st, t, after))
  {
    DropBits(st, t, after);
    DropKeeps(st, t, after);
    CellsFrame(st, DoDrop(st, t, after));
  }

  lemma ReadEvents(st: State, t: nat, kind: Kind, count: nat)
    requires EventInv(st) && Enabled(st, Read(t, kind, count))
    ensures EventInv(DoRead(st, t, kind, count))
  {
    ReadBits(st, t, kind, count);
    CellsFrame(st, DoRead(st, t, kind, count));
  }

  lemma OtherEvents(st: State, st': State, t: nat)
    requires EventInv(st) && t < |st.pcs| && !st.pcs[t].Reading?
    requires st'.objs == st.objs && st'.sessions == st.sessions
    requires st'.eventQueue == st.eventQueue && st'.delayQueue == st.delayQueue
    requires |st'.pcs| == |st.pcs| && st'.pcs == st.pcs[t := st'.pcs[t]] && !st'.pcs[t].Reading?
    ensures EventInv(st')
  {
    OtherBits(st, st', t);
    CellsFrame(st, st');
  }

  /** No step of the run looks through an entry at another session that is flagged. */
  ghost predicate OwnEntriesRun(st: State, run: seq<Action>)
    requires SlotsInv(st)
    decreases |run|
  {
    run != [] && Enabled(st, run[0]) ==>
      && !(run[0].Process? && ClearsOther(st, run[0].t))
      && (StepKeepsSlots(st, run[0]); OwnEntriesRun(Apply(st, run[0]), run[1..]))
  }

  /** The event invariant holds before, between and after the steps of the run. */
  ghost predicate AlwaysQueuedOnce(st: State, run: seq<Action>)
    requires SlotsInv(st)
    decreases |run|
  {
    EventInv(st) &&
    (run != [] && Enabled(st, run[0]) ==>
       (StepKeepsSlots(st, run[0]); AlwaysQueuedOnce(Apply(st, run[0]), run[1..])))
  }

  /** Exactly the runs without such a step keep the event invariant throughout. */
  lemma {:induction false} QueuedOnceExactly(st: State, run: seq<Action>)
    requires SlotsInv(st) && EventInv(st)
    ensures AlwaysQueuedOnce(st, run) <==> OwnEntriesRun(st, run)
    decreases |run|
  {
    if run != [] && Enabled(st, run[0]) {
      StepKeepsEvents(st, run[0]);
      StepKeepsSlots(st, run[0]);
      if EventInv(Apply(st, run[0])) { QueuedOnceExactly(Apply(st, run[0]), run[1..]); }
      else { NotAlways(Apply(st, run[0]), run[1..]); }
    }
  }

  lemma NotAlways(st: State, run: seq<Action>)
    requires SlotsInv(st) && !EventInv(st)
    ensures !AlwaysQueuedOnce(st, run)
  {
  }

  lemma {:induction false} AlwaysAtEnd(st: State, run: seq<Action>)
    requires SlotsInv(st) && AlwaysQueuedOnce(st, run) && Exec(st, run).Some?
    ensures EventInv(Exec(st, run).value)
    decreases |run|
  {
    if run != [] {
      StepKeepsSlots(st, run[0]);
      AlwaysAtEnd(Apply(st, run[0]), run[1..]);
    }
  }

  lemma RunKeepsEvents(st: State, run: seq<Action>)
    requires SlotsInv(st) && EventInv(st) && OwnEntriesRun(st, run) && Exec(st, run).Some?
    ensures EventInv(Exec(st, run).value)
  {
    QueuedOnceExactly(st, run);
    AlwaysAtEnd(st, run);
  }

  /** No entry of the run outlives a whole cycle of its slot. */
  ghost predicate RecentEntriesRun(st: State, run: seq<Action>)
    requires SlotsInv(st)
    decreases |run|
  {
    QueuesRecent(st) &&
    (run != [] && Enabled(st, run[0]) ==>
       (StepKeepsSlots(st, run[0]); RecentEntriesRun(Apply(st, run[0]), run[1..])))
  }

  /** Recent entries reach their own sessions only. */
  lemma {:induction false} RecentRunsAreOwn(st: State, run: seq<Action>)
    requires SlotsInv(st) && BitsTracked(st) && RecentEntriesRun(st, run)
    ensures OwnEntriesRun(st, run)
    decreases |run|
  {
    if run != [] && Enabled(st, run[0]) {
      if run[0].Process? && Found(st, st.pcs[run[0].t].batch[0].id) { RecentEntryIsOwn(st, run[0].t); }
      StepKeepsBits(st, run[0]);
      StepKeepsSlots(st, run[0]);
      RecentRunsAreOwn(Apply(st, run[0]), run[1..]);
    }
  }

  lemma StartEvents(n: Slots, threads: nat)
    ensures EventInv(Start(n, threads))
  {
  }

  /** Main result: after every run without such a step, and at every point of it, an installed session whose queue
      writes succeeded waits in the event queue exactly once if it is flagged and not at all otherwise; it is
      flagged whenever it has events pending; and the bits the run raised on it are those it reported and those that
      are pending. */
  lemma EventsAreNotLost(n: Slots, threads: nat, run: seq<Action>, s: nat)
    requires Exec(Start(n, threads), run).Some?
    requires OwnEntriesRun(Start(n, threads), run)
    requires var st := Exec(Start(n, threads), run).value; s < |st.sessions| && st.sessions[s].Some?
    ensures var st := Exec(Start(n, threads), run).value;
            var o := st.sessions[s].value;
            var log := RunLog(Start(n, threads), run, o);
            && o in st.objs
            && (!log.lostEvent ==> Waiting(st, Events, o) == if st.objs[o].inQueue then 1 else 0)
            && (!log.lostDelay ==> Waiting(st, Delays, o) == if st.objs[o].inDelay then 1 else 0)
            && (st.objs[o].events != {} ==> st.objs[o].inQueue)
            && log.raised == log.reported + st.objs[o].events
  {
    StartEvents(n, threads);
    RunKeepsEvents(Start(n, threads), run);
    var st := Exec(Start(n, threads), run).value;
    assert CellQueued(st, Events, s) && CellQueued(st, Delays, s);
    LogsOfTheRun(n, threads, run, st.sessions[s].value);
    NoBitIsLost(n, threads, run, st.sessions[s].value);
  }

  lemma {:induction false} NoBatches(pcs: seq<Pc>, kind: Kind, o: nat)
    requires forall t :: 0 <= t < |pcs| ==> !pcs[t].Reading?
    ensures BatchCount(pcs, kind, o) == 0
  {
    if pcs != [] { NoBatches(pcs[1..], kind, o); }
  }

  /** A failed queue write is what can strand events: the flag stays set with nothing queued, and no
      later push queues the session again. */
  lemma LostWriteStrands(st: State, kind: Kind, nd: nat, bits: set<nat>, more: set<nat>, written: bool)
    requires SlotsInv(st) && EventInv(st) && Found(st, nd) && Enabled(st, Push(kind, nd, bits, false))
    requires kind.Delays? ==> more == {}
    requires !Flag(st.objs[FoundObj(st, nd)], kind) && !Lost(st.objs[FoundObj(st, nd)], kind)
    ensures var st1 := DoPush(st, kind, nd, bits, false);
            && Enabled(st1, Push(kind, nd, more, written))
            && var st2 := DoPush(st1, kind, nd, more, written);
               Waiting(st2, kind, FoundObj(st, nd)) == 0 && Flag(st2.objs[FoundObj(st, nd)], kind)
  {
    var s0 := SlotOf(st.pool.n, nd);
    assert CellQueued(st, kind, s0);
    var st1 := DoPush(st, kind, nd, bits, false);
    PushCounts(st, kind, nd, bits, false);
    PushCounts(st1, kind, nd, more, written);
  }
}
