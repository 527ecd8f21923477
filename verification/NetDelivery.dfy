/** Every event is delivered, over whole runs of the session protocol: whatever old entries do to the flags of other
    sessions, a flagged session waits for a reader, and there is always a way on to it. */
module NetDelivery {
  import opened Options
  import opened Ffid
  import opened NetProtocol
  import opened NetRelease
  import opened NetLogs
  import opened NetEvents
  import opened NetRuns
  import SbTreeDamage

  // ---------------------------------------------------------------- a flagged session waits

  /** An installed session that is flagged and lost no queue write waits at least once. */
  ghost predicate CellWaits(st: State, kind: Kind, s: nat)
  {
    s < |st.sessions| && st.sessions[s].Some? ==>
      var o := st.sessions[s].value;
      o in st.objs && (!Lost(st.objs[o], kind) && Flag(st.objs[o], kind) ==> Waiting(st, kind, o) >= 1)
  }

  ghost predicate FlaggedWaits(st: State)
  {
    forall kind, s :: CellWaits(st, kind, s)
  }

  /** A step that installs nothing and changes neither flags nor counts of installed sessions. */
  lemma WaitsFrame(st: State, st': State)
    requires FlaggedWaits(st) && forall kind, o :: Waiting(st', kind, o) == Waiting(st, kind, o)
    requires |st'.sessions| == |st.sessions|
    requires forall s :: 0 <= s < |st'.sessions| && st'.sessions[s].Some? ==> st'.sessions[s] == st.sessions[s]
    requires forall o :: o in st.objs ==>
               o in st'.objs && forall kind :: Flag(st'.objs[o], kind) == Flag(st.objs[o], kind)
                                            && Lost(st'.objs[o], kind) == Lost(st.objs[o], kind)
    ensures FlaggedWaits(st')
  {
    forall kind, s ensures CellWaits(st', kind, s) {
      assert CellWaits(st, kind, s);
    }
  }

  /** A cell other than the one a step works on. */
  lemma OtherWaits(st: State, st': State, kind: Kind, s: nat, o: nat, slot: nat)
    requires SlotsInv(st) && FlaggedWaits(st) && s != slot && o in st.objs && st.objs[o].slot == slot
    requires |st'.sessions| == |st.sessions| && (s < |st.sessions| ==> st'.sessions[s] == st.sessions[s])
    requires st'.objs.Keys == st.objs.Keys && forall q :: q in st.objs && q != o ==> st'.objs[q] == st.objs[q]
    requires forall q :: q != o ==> Waiting(st', kind, q) == Waiting(st, kind, q)
    ensures CellWaits(st', kind, s)
  {
    assert CellWaits(st, kind, s);
    if s < |st.sessions| && st.sessions[s].Some? {
      assert Current(st.pool, st.objs, st.sessions[s].value, s);
    }
  }

  lemma InstallWaits(st: State, t: nat)
    requires SlotsInv(st) && BitsTracked(st) && FlaggedWaits(st) && Enabled(st, Install(t))
    ensures FlaggedWaits(Apply(st, Install(t)))
  {
    var st', o, slot := Apply(st, Install(t)), st.pcs[t].obj, st.pcs[t].slot;
    assert PcOk(st.pool, st.sessions, st.objs, st.pcs[t]);
    InstallBits(st, t);
    InstalledIsQuiet(st, o);
    forall kind, s ensures CellWaits(st', kind, s) {
      if s != slot { OtherWaits(st, st', kind, s, o, slot); }
    }
  }

  lemma PushWaits(st: State, kind: Kind, nd: nat, bits: set<nat>, written: bool)
    requires SlotsInv(st) && FlaggedWaits(st) && Enabled(st, Push(kind, nd, bits, written))
    ensures FlaggedWaits(DoPush(st, kind, nd, bits, written))
  {
    if Found(st, nd) {
      var st' := DoPush(st, kind, nd, bits, written);
      PushCounts(st, kind, nd, bits, written);
      PushFrame(st, kind, nd, bits, written);
      forall k, s ensures CellWaits(st', k, s) {
        assert CellWaits(st, k, s);
      }
    }
  }

  /** Only a session that the entry reaches can lose a waiting entry or its flag, and it loses its flag. */
  lemma ProcessWaits(st: State, t: nat)
    requires SlotsInv(st) && BitsTracked(st) && FlaggedWaits(st) && Enabled(st, Process(t))
    ensures FlaggedWaits(DoProcess(st, t))
  {
    ProcessCounts(st, t);
    assert EntryOk(st.objs, st.pcs[t].batch[0]);
    var st' := DoProcess(st, t);
    forall k, s ensures CellWaits(st', k, s) {
      assert CellWaits(st, k, s);
      CellProcessed(st, t, st', k, s);
    }
  }

  lemma CellProcessed(st: State, t: nat, st': State, k: Kind, s: nat)
    requires SlotsInv(st) && CellWaits(st, k, s) && Enabled(st, Process(t)) && EntryOk(st.objs, st.pcs[t].batch[0])
    requires st' == DoProcess(st, t)
    requires forall k, q :: Waiting(st, k, q) == Waiting(st', k, q) +
               if k == st.pcs[t].kind && q == st.pcs[t].batch[0].obj then 1 else 0
    ensures CellWaits(st', k, s)
  {
    if s < |st.sessions| && st.sessions[s].Some? { InstalledReached(st, s, st.pcs[t].batch[0]); }
  }

  /** An installed session is what its own entries reach. */
  lemma InstalledReached(st: State, s: nat, e: Entry)
    requires SlotsInv(st) && s < |st.sessions| && st.sessions[s].Some? && EntryOk(st.objs, e)
    ensures e.obj == st.sessions[s].value ==> Found(st, e.id) && FoundObj(st, e.id) == e.obj
  {
    assert Current(st.pool, st.objs, st.sessions[s].value, s);
    IdOfPositive(st.pool, s);
  }

  /** Every step of every thread, without exception. */
  lemma StepKeepsWaiting(st: State, a: Action)
    requires SlotsInv(st) && BitsTracked(st) && FlaggedWaits(st) && Enabled(st, a)
    ensures FlaggedWaits(Apply(st, a))
  {
    match a {
      case Install(t) => InstallWaits(st, t);
      case Push(kind, nd, bits, written) => PushWaits(st, kind, nd, bits, written);
      case Process(t) => ProcessWaits(st, t);
      case Issue(t, obj) => IssueWaits(st, t, obj);
      case Close(t, nd, linger) => CloseWaits(st, t, nd, linger);
      case Drop(t, after) => DropWaits(st, t, after);
      case Read(t, kind, count) => ReadWaits(st, t, kind, count);
      case _ => PlainWaits(st, a);
    }
  }

  lemma IssueWaits(st: State, t: nat, obj: nat)
    requires SlotsInv(st) && BitsTracked(st) && FlaggedWaits(st) && Enabled(st, Issue(t, obj))
    ensures FlaggedWaits(DoIssue(st, t, obj))
  {
    IssueBits(st, t, obj);
    WaitsFrame(st, DoIssue(st, t, obj));
  }

  lemma CloseWaits(st: State, t: nat, nd: nat, linger: bool)
    requires SlotsInv(st) && BitsTracked(st) && FlaggedWaits(st) && Enabled(st, Close(t, nd, linger))
    ensures FlaggedWaits(DoClose(st, t, nd, linger))
  {
    CloseBits(st, t, nd, linger);
    WaitsFrame(st, DoClose(st, t, nd, linger));
  }

  lemma DropWaits(st: State, t: nat, after: SbTreeDamage.Raw)
    requires BitsTracked(st) && FlaggedWaits(st) && Enabled(st, Drop(t, after))
    ensures FlaggedWaits(DoDrop(st, t, after))
  {
    DropBits(st, t, after);
    DropKeeps(st, t, after);
    WaitsFrame(st, DoDrop(st, t, after));
  }

  lemma ReadWaits(st: State, t: nat, kind: Kind, count: nat)
    requires BitsTracked(st) && FlaggedWaits(st) && Enabled(st, Read(t, kind, count))
    ensures FlaggedWaits(DoRead(st, t, kind, count))
  {
    ReadBits(st, t, kind, count);
    WaitsFrame(st, DoRead(st, t, kind, count));
  }

  lemma PlainWaits(st: State, a: Action)
    requires SlotsInv(st) && BitsTracked(st) && FlaggedWaits(st) && Enabled(st, a)
    requires a.Park? || a.DeleteId? || a.Fetch? || a.WaitFind? || a.WaitRead? || a.WaitKeep?
    ensures FlaggedWaits(Apply(st, a))
  {
    OtherBits(st, Apply(st, a), a.t);
    WaitsFrame(st, Apply(st, a));
  }

  /** What every run keeps. */
  ghost predicate Tracked(st: State)
  {
    SlotsInv(st) && BitsTracked(st) && FlaggedWaits(st) && EventsReal(st)
  }

  /** Events carry ids, and a thread goes on only while it has something left to look at. */
  ghost predicate EventsReal(st: State)
  {
    forall t :: 0 <= t < |st.pcs| ==> Real(st.pcs[t])
  }

  ghost predicate Real(pc: Pc)
  {
    && (pc.Fetched? ==> pc.ids != [] && AllIds(pc.ids))
    && (pc.Peeking? || pc.Dropping? ==> AllIds(pc.rest))
    && (pc.Reading? ==> pc.batch != [])
  }

  ghost predicate AllIds(ids: seq<nat>)
  {
    forall i :: 0 <= i < |ids| ==> ids[i] > 0
  }

  lemma StepKeepsReal(st: State, a: Action)
    requires SlotsInv(st) && EventsReal(st) && Enabled(st, a)
    ensures EventsReal(Apply(st, a))
  {
    if !a.Push? {
      assert Real(st.pcs[a.t]);
      OneMoves(st, a);
      if a.Fetch? || a.WaitFind? || a.WaitRead? || a.WaitKeep?
        || a.Drop? { EventMoves(st, a); } else { OtherMoves(st, a); }
    }
  }

  /** A step moves one thread only. */
  lemma OneMoves(st: State, a: Action)
    requires SlotsInv(st) && Enabled(st, a) && !a.Push?
    ensures |Apply(st, a).pcs| == |st.pcs| && a.t < |st.pcs|
    ensures forall u :: 0 <= u < |st.pcs| && u != a.t ==> Apply(st, a).pcs[u] == st.pcs[u]
  {
  }

  lemma EventMoves(st: State, a: Action)
    requires SlotsInv(st) && Enabled(st, a) && (a.Fetch? || a.WaitFind? || a.WaitRead? || a.WaitKeep? || a.Drop?)
    requires Real(st.pcs[a.t])
    ensures Real(Apply(st, a).pcs[a.t])
  {
  }

  lemma OtherMoves(st: State, a: Action)
    requires SlotsInv(st) && Enabled(st, a) && !a.Push?
    requires !(a.Fetch? || a.WaitFind? || a.WaitRead? || a.WaitKeep? || a.Drop?) && Real(st.pcs[a.t])
    ensures Real(Apply(st, a).pcs[a.t])
  {
  }

  lemma StepKeepsTracked(st: State, a: Action)
    requires Tracked(st) && Enabled(st, a)
    ensures Tracked(Apply(st, a))
  {
    StepKeepsSlots(st, a);
    StepKeepsBits(st, a);
    StepKeepsWaiting(st, a);
    StepKeepsReal(st, a);
  }

  lemma {:induction false} RunKeepsTracked(st: State, run: seq<Action>)
    requires Tracked(st) && Exec(st, run).Some?
    ensures Tracked(Exec(st, run).value)
    decreases |run|
  {
    if run != [] {
      StepKeepsTracked(st, run[0]);
      RunKeepsTracked(Apply(st, run[0]), run[1..]);
    }
  }

  lemma StartTracked(n: Slots, threads: nat)
    ensures Tracked(Start(n, threads))
  {
  }

  /** In every run, an installed session that is flagged and whose queue writes succeeded waits in the queue or with a
      reader. */
  lemma FlaggedSessionsWait(n: Slots, threads: nat, run: seq<Action>, kind: Kind, s: nat)
    requires Exec(Start(n, threads), run).Some?
    requires var st := Exec(Start(n, threads), run).value; s < |st.sessions| && st.sessions[s].Some?
    ensures var st := Exec(Start(n, threads), run).value;
            var o := st.sessions[s].value;
            && o in st.objs
            && (Flag(st.objs[o], kind) && !WriteFailed(RunLog(Start(n, threads), run, o), kind) ==>
                  Waiting(st, kind, o) >= 1)
  {
    StartTracked(n, threads);
    RunKeepsTracked(Start(n, threads), run);
    assert CellWaits(Exec(Start(n, threads), run).value, kind, s);
    LogsOfTheRun(n, threads, run, Exec(Start(n, threads), run).value.sessions[s].value);
  }

  /** Some write to the queue failed for the session. */
  ghost predicate WriteFailed(log: Log, kind: Kind)
  {
    if kind.Events? then log.lostEvent else log.lostDelay
  }

  /** In every run, once the event queue and all batches are worked off, every bit raised on an installed session whose
      queue writes succeeded has been reported. */
  lemma DrainedMeansDelivered(n: Slots, threads: nat, run: seq<Action>, s: nat)
    requires Exec(Start(n, threads), run).Some?
    requires var st := Exec(Start(n, threads), run).value;
             && s < |st.sessions| && st.sessions[s].Some?
             && !RunLog(Start(n, threads), run, st.sessions[s].value).lostEvent
             && st.eventQueue == [] && (forall t :: 0 <= t < |st.pcs| ==> !st.pcs[t].Reading?)
    ensures var o := Exec(Start(n, threads), run).value.sessions[s].value;
            var log := RunLog(Start(n, threads), run, o);
            log.raised == log.reported && RaisedSince(Start(n, threads), run, o, {}) == {}
  {
    var st := Exec(Start(n, threads), run).value;
    FlaggedSessionsWait(n, threads, run, Events, s);
    NoBitIsLost(n, threads, run, st.sessions[s].value);
    NoBatches(st.pcs, Events, st.sessions[s].value);
  }

  // ---------------------------------------------------------------- a reader comes to it

  ghost predicate NoLockHeld(pcs: seq<Pc>)
  {
    forall u :: 0 <= u < |pcs| ==> Held(pcs[u]) == -1
  }

  /** Steps that go on with what is begun: nothing is created, closed, raised, fetched or released. */
  ghost predicate Finishing(a: Action)
  {
    || a.Install? || a.Park? || a.DeleteId? || a.WaitFind? || a.WaitRead? || a.WaitKeep?
    || a.Read? || a.Process?
  }

  /** Everything raised on the session has been reported. */
  ghost predicate AllDelivered(st: State, o: nat)
  {
    o in st.objs && st.objs[o].events == {} && st.objs[o].delivered == st.objs[o].raised
  }

  /** The session stands in the array and may be reported. */
  ghost predicate Deliverable(st: State, s: nat, o: nat)
  {
    SlotsInv(st) && BitsTracked(st) && NoLockHeld(st.pcs) && s < |st.sessions| && st.sessions[s] == Some(o)
  }

  /** The run goes on with what is begun, and brings the session's bits to delivery. */
  ghost predicate Delivers(st: State, run: seq<Action>, o: nat)
  {
    && SlotsInv(st) && Exec(st, run).Some? && AllDelivered(Exec(st, run).value, o)
    && forall i :: 0 <= i < |run| ==> Finishing(run[i])
  }

  lemma DeliversAlong(st: State, a: Action, rest: seq<Action>, o: nat)
    requires SlotsInv(st) && Enabled(st, a) && Finishing(a) && Delivers(Apply(st, a), rest, o)
    ensures Delivers(st, [a] + rest, o)
  {
    var next := StepAlong(st, a, rest);
  }

  /** A reader that goes on with its batch comes to the session's entry and reports it. */
  lemma {:induction false} BatchDelivers(st: State, u: nat, s: nat, o: nat) returns (run: seq<Action>)
    requires Deliverable(st, s, o) && u < |st.pcs| && PcCount(st.pcs[u], Events, o) > 0
    ensures Delivers(st, run, o)
    decreases if u < |st.pcs| && st.pcs[u].Reading? then |st.pcs[u].batch| else 0
  {
    var st' := HeadProcessed(st, u, s, o);
    var rest: seq<Action>;
    if Reaches(st, u, o) {
      rest := [];
      DeliversAtOnce(st', o);
    } else {
      rest := BatchDelivers(st', u, s, o);
    }
    DeliversAlong(st, Process(u), rest, o);
    run := [Process(u)] + rest;
  }

  lemma DeliversAtOnce(st: State, o: nat)
    requires SlotsInv(st) && AllDelivered(st, o)
    ensures Delivers(st, [], o)
  {
  }

  /** The entry looked at next leads to the session, be it queued for it or not. */
  ghost predicate Reaches(st: State, u: nat, o: nat)
    requires Enabled(st, Process(u))
  {
    Found(st, st.pcs[u].batch[0].id) && FoundObj(st, st.pcs[u].batch[0].id) == o
  }

  /** One entry: it leads to the session, whose bits are reported, or leaves the session alone. */
  lemma HeadProcessed(st: State, u: nat, s: nat, o: nat) returns (st': State)
    requires Deliverable(st, s, o) && u < |st.pcs| && PcCount(st.pcs[u], Events, o) > 0
    ensures SlotsInv(st) && SlotsInv(st') && Enabled(st, Process(u)) && st' == Apply(st, Process(u))
    ensures Reaches(st, u, o) ==> AllDelivered(st', o)
    ensures !Reaches(st, u, o) ==> Deliverable(st', s, o) && PcCount(st'.pcs[u], Events, o) > 0
    ensures !Reaches(st, u, o) ==> st'.pcs[u].Reading? && |st'.pcs[u].batch| < |st.pcs[u].batch|
  {
    assert EntryOk(st.objs, st.pcs[u].batch[0]);
    assert Enabled(st, Process(u));
    st' := Apply(st, Process(u));
    StepKeepsSlots(st, Process(u));
    if Reaches(st, u, o) {
      assert BitsOk(st.objs[o]);
    } else {
      OwnHead(st, u, s, o);
      OtherHead(st, u, s, o);
    }
  }

  /** An installed session's own entry leads to it. */
  lemma OwnHead(st: State, u: nat, s: nat, o: nat)
    requires Deliverable(st, s, o) && Enabled(st, Process(u)) && EntryOk(st.objs, st.pcs[u].batch[0])
    ensures st.pcs[u].batch[0].obj == o ==> Reaches(st, u, o)
  {
    assert Current(st.pool, st.objs, o, s);
    IdOfPositive(st.pool, s);
  }

  lemma OtherHead(st: State, u: nat, s: nat, o: nat)
    requires Deliverable(st, s, o) && Enabled(st, Process(u)) && PcCount(st.pcs[u], Events, o) > 0
    requires st.pcs[u].batch[0].obj != o
    ensures var st' := Apply(st, Process(u));
            && Deliverable(st', s, o) && PcCount(st'.pcs[u], Events, o) > 0
            && st'.pcs[u].Reading? && |st'.pcs[u].batch| < |st.pcs[u].batch|
  {
    ProcessSlots(st, u);
    ProcessEntries(st, u);
    ProcessBits(st, u);
    OtherPlaces(st, u, s, o);
  }

  lemma OtherPlaces(st: State, u: nat, s: nat, o: nat)
    requires NoLockHeld(st.pcs) && s < |st.sessions| && st.sessions[s] == Some(o)
    requires Enabled(st, Process(u)) && PcCount(st.pcs[u], Events, o) > 0 && st.pcs[u].batch[0].obj != o
    ensures var st' := DoProcess(st, u);
            && NoLockHeld(st'.pcs) && s < |st'.sessions| && st'.sessions[s] == Some(o)
            && PcCount(st'.pcs[u], Events, o) > 0
            && st'.pcs[u].Reading? && |st'.pcs[u].batch| < |st.pcs[u].batch|
  {
    RestOfBatch(st.pcs[u], o);
  }

  lemma RestOfBatch(pc: Pc, o: nat)
    requires PcCount(pc, Events, o) > 0 && pc.batch[0].obj != o
    ensures PcCount(AfterBatch(pc), Events, o) > 0 && AfterBatch(pc).Reading? && |AfterBatch(pc).batch| < |pc.batch|
  {
    assert Count(pc.batch, o) == Count(pc.batch[1..], o);
  }

  lemma QueueDelivers(st: State, t: nat, s: nat, o: nat) returns (run: seq<Action>)
    requires Deliverable(st, s, o) && t < |st.pcs| && st.pcs[t].Idle? && Count(st.eventQueue, o) > 0
    ensures Delivers(st, run, o)
  {
    var a, st' := QueueRead(st, t, s, o);
    var rest := BatchDelivers(st', t, s, o);
    DeliversAlong(st, a, rest, o);
    run := [a] + rest;
  }

  /** Reading the whole queue leaves the session's entry in the reader's batch. */
  lemma QueueRead(st: State, t: nat, s: nat, o: nat) returns (a: Action, st': State)
    requires Deliverable(st, s, o) && t < |st.pcs| && st.pcs[t].Idle? && Count(st.eventQueue, o) > 0
    ensures Enabled(st, a) && Finishing(a) && st' == Apply(st, a)
    ensures Deliverable(st', s, o) && t < |st'.pcs| && PcCount(st'.pcs[t], Events, o) > 0
  {
    var count := |st.eventQueue|;
    assert st.eventQueue[..count] == st.eventQueue;
    a := Read(t, Events, count);
    StepKeepsSlots(st, a);
    ReadBits(st, t, Events, count);
    st' := DoRead(st, t, Events, count);
  }

  lemma {:induction false} SomeBatch(pcs: seq<Pc>, kind: Kind, o: nat) returns (u: nat)
    requires BatchCount(pcs, kind, o) > 0
    ensures u < |pcs| && PcCount(pcs[u], kind, o) > 0
  {
    if PcCount(pcs[0], kind, o) > 0 {
      u := 0;
    } else {
      u := SomeBatch(pcs[1..], kind, o);
      u := u + 1;
    }
  }

  // ---------------------------------------------------------------- from any state

  /** How many steps a thread is away from being idle, at most. */
  ghost function Work(pc: Pc): nat
  {
    match pc
    case Idle => 0
    case Adding(_, _) => 1
    case Parking(_, _, _) => 2
    case Closing(_, _) => 1
    case Fetched(ids) => 3 * |ids|
    case Peeking(_, _, _, rest) => 3 * |rest| + 2
    case Dropping(_, _, rest) => 3 * |rest| + 1
    case Reading(_, batch) => |batch|
  }

  /** The session stands in the array, and none of its queue writes failed. */
  ghost predicate Standing(st: State, s: nat, o: nat)
  {
    && Tracked(st) && s < |st.sessions| && st.sessions[s] == Some(o) && o in st.objs && !st.objs[o].lostEvent
  }

  /** The next step of a thread that is busy, which is possible if it holds a lock itself or no other one does. */
  lemma NextStep(st: State, t: nat, o: nat) returns (a: Action)
    requires Tracked(st) && t < |st.pcs| && !st.pcs[t].Idle? && o in st.objs
    requires Held(st.pcs[t]) >= 0 || NoLockHeld(st.pcs)
    ensures Finishing(a) && a.t == t && Enabled(st, a) && Work(Apply(st, a).pcs[t]) < Work(st.pcs[t])
  {
    var pc := st.pcs[t];
    assert Real(pc) && PcOk(st.pool, st.sessions, st.objs, pc);
    match pc {
      case Adding(_, slot) => a := Install(t);
      case Parking(_, _, _) => a := Park(t, true, SbTreeDamage.Nil);
      case Closing(_, _) => a := DeleteId(t);
      case Fetched(ids) => a := FirstEvent(st, t);
      case Peeking(obj, _, _, _) => a := WaitRead(t, if Fresh(st, pc) then obj else o);
      case Dropping(_, _, _) => a := WaitKeep(t);
      case Reading(_, batch) => a := FirstEntry(st, t);
    }
  }

  lemma FirstEvent(st: State, t: nat) returns (a: Action)
    requires SlotsInv(st) && t < |st.pcs| && st.pcs[t].Fetched? && Real(st.pcs[t]) && NoLockHeld(st.pcs)
    ensures Finishing(a) && a.t == t && Enabled(st, a) && Work(Apply(st, a).pcs[t]) < Work(st.pcs[t])
  {
    a := WaitFind(t, st.pcs[t].ids[0]);
  }

  lemma FirstEntry(st: State, t: nat) returns (a: Action)
    requires Tracked(st) && t < |st.pcs| && st.pcs[t].Reading? && Real(st.pcs[t]) && NoLockHeld(st.pcs)
    ensures Finishing(a) && a.t == t && Enabled(st, a) && Work(Apply(st, a).pcs[t]) < Work(st.pcs[t])
  {
    assert EntryOk(st.objs, st.pcs[t].batch[0]);
    a := Process(t);
  }

  /** Going on with what is begun leaves an installed session where it is. */
  lemma FinishingKeeps(st: State, a: Action, s: nat, o: nat)
    requires Standing(st, s, o) && Finishing(a) && Enabled(st, a)
    ensures Standing(Apply(st, a), s, o)
  {
    StepKeepsTracked(st, a);
    FinishingCell(st, a, s, o);
  }

  lemma FinishingCell(st: State, a: Action, s: nat, o: nat)
    requires SlotsInv(st) && Finishing(a) && Enabled(st, a) && s < |st.sessions| && st.sessions[s] == Some(o)
    requires o in st.objs
    ensures var st' := Apply(st, a);
            && |st'.sessions| == |st.sessions| && st'.sessions[s] == Some(o)
            && o in st'.objs && st'.objs[o].lostEvent == st.objs[o].lostEvent
  {
    if a.Install? { assert PcOk(st.pool, st.sessions, st.objs, st.pcs[a.t]); }
  }

  /** A run that goes on with what is begun, past which the session still stands. */
  ghost predicate GoesOn(st: State, run: seq<Action>, st': State, s: nat, o: nat)
  {
    && Standing(st, s, o) && Standing(st', s, o) && |st'.pcs| == |st.pcs| && Exec(st, run) == Some(st')
    && forall i :: 0 <= i < |run| ==> Finishing(run[i])
  }

  lemma GoesOnTwice(st: State, a: seq<Action>, mid: State, b: seq<Action>, st': State, s: nat, o: nat)
    requires GoesOn(st, a, mid, s, o) && GoesOn(mid, b, st', s, o)
    ensures GoesOn(st, a + b, st', s, o)
  {
    ExecConcat(st, a, b);
  }

  lemma OneOn(st: State, t: nat, s: nat, o: nat) returns (run: seq<Action>, st': State)
    requires Standing(st, s, o) && t < |st.pcs| && !st.pcs[t].Idle? && (Held(st.pcs[t]) >= 0 || NoLockHeld(st.pcs))
    ensures GoesOn(st, run, st', s, o) && Work(st'.pcs[t]) < Work(st.pcs[t])
    ensures forall u :: 0 <= u < |st.pcs| && u != t ==> st'.pcs[u] == st.pcs[u]
  {
    var a := NextStep(st, t, o);
    OneMoves(st, a);
    st' := StepOn(st, a, s, o);
    run := [a] + [];
  }

  lemma StepOn(st: State, a: Action, s: nat, o: nat) returns (st': State)
    requires Standing(st, s, o) && Finishing(a) && Enabled(st, a) && |Apply(st, a).pcs| == |st.pcs|
    ensures st' == Apply(st, a) && GoesOn(st, [a] + [], st', s, o)
  {
    FinishingKeeps(st, a, s, o);
    st' := StepAlong(st, a, []);
  }

  /** A thread that holds a lock gives it back. */
  lemma {:induction false} Unlock(st: State, t: nat, s: nat, o: nat) returns (run: seq<Action>, st': State)
    requires Standing(st, s, o) && t < |st.pcs|
    ensures GoesOn(st, run, st', s, o) && Held(st'.pcs[t]) == -1
    ensures forall u :: 0 <= u < |st.pcs| && u != t ==> st'.pcs[u] == st.pcs[u]
    decreases Work(st.pcs[t])
  {
    if Held(st.pcs[t]) < 0 {
      run, st' := [], st;
    } else {
      var a, mid := OneOn(st, t, s, o);
      var b;
      b, st' := Unlock(mid, t, s, o);
      GoesOnTwice(st, a, mid, b, st', s, o);
      run := a + b;
    }
  }

  lemma {:induction false} UnlockFirst(st: State, k: nat, s: nat, o: nat) returns (run: seq<Action>, st': State)
    requires Standing(st, s, o) && k <= |st.pcs|
    ensures GoesOn(st, run, st', s, o) && forall u :: 0 <= u < k ==> Held(st'.pcs[u]) == -1
    decreases k
  {
    if k == 0 {
      run, st' := [], st;
    } else {
      var a, mid := UnlockFirst(st, k - 1, s, o);
      var b;
      b, st' := Unlock(mid, k - 1, s, o);
      GoesOnTwice(st, a, mid, b, st', s, o);
      run := a + b;
    }
  }

  /** With no lock held elsewhere, a thread comes to the end of what it is doing. */
  lemma {:induction false} Settle(st: State, t: nat, s: nat, o: nat) returns (run: seq<Action>, st': State)
    requires Standing(st, s, o) && t < |st.pcs| && forall u :: 0 <= u < |st.pcs| && u != t ==> Held(st.pcs[u]) == -1
    ensures GoesOn(st, run, st', s, o) && st'.pcs[t].Idle? && NoLockHeld(st'.pcs)
    decreases Work(st.pcs[t])
  {
    if st.pcs[t].Idle? {
      run, st' := [], st;
    } else {
      var a, mid := OneOn(st, t, s, o);
      var b;
      b, st' := Settle(mid, t, s, o);
      GoesOnTwice(st, a, mid, b, st', s, o);
      run := a + b;
    }
  }

  /** No event stays pending for want of a step: from every reachable state with a thread at all, the threads can
      report every pending bit of an installed session by going on with what they have begun, reading and looking at
      what they have read. */
  lemma PendingCanBeDelivered(n: Slots, threads: nat, run: seq<Action>, s: nat) returns (more: seq<Action>)
    requires threads > 0 && Exec(Start(n, threads), run).Some?
    requires var st := Exec(Start(n, threads), run).value;
             && s < |st.sessions| && st.sessions[s].Some?
             && !RunLog(Start(n, threads), run, st.sessions[s].value).lostEvent
    ensures var st := Exec(Start(n, threads), run).value;
            var o := st.sessions[s].value;
            && Exec(st, more).Some? && o in st.objs && o in Exec(st, more).value.objs
            && (forall i :: 0 <= i < |more| ==> Finishing(more[i]))
            && RaisedSince(Start(n, threads), run, o, {}) <= RunLog(st, more, o).reported
            && Exec(st, more).value.objs[o].events == {}
  {
    StartTracked(n, threads);
    RunKeepsTracked(Start(n, threads), run);
    RunKeepsThreads(Start(n, threads), run);
    var st := Exec(Start(n, threads), run).value;
    var o := st.sessions[s].value;
    LogsOfTheRun(n, threads, run, o);
    more := StandingDelivered(st, s, o);
    PendingIsReported(st, more, o);
    PendingExactly(Start(n, threads), run, o);
  }

  lemma StandingDelivered(st: State, s: nat, o: nat) returns (more: seq<Action>)
    requires Standing(st, s, o) && |st.pcs| > 0
    ensures Delivers(st, more, o)
  {
    var a, s1 := UnlockFirst(st, |st.pcs|, s, o);
    var b, s2 := Settle(s1, 0, s, o);
    GoesOnTwice(st, a, s1, b, s2, s, o);
    var c := IdleDelivers(s2, 0, s, o);
    DeliversAfter(st, a + b, s2, c, s, o);
    more := a + b + c;
  }

  lemma DeliversAfter(st: State, a: seq<Action>, mid: State, b: seq<Action>, s: nat, o: nat)
    requires GoesOn(st, a, mid, s, o) && Delivers(mid, b, o)
    ensures Delivers(st, a + b, o)
  {
    ExecConcat(st, a, b);
  }

  lemma {:induction false} RunKeepsThreads(st: State, run: seq<Action>)
    requires SlotsInv(st) && Exec(st, run).Some?
    ensures |Exec(st, run).value.pcs| == |st.pcs|
    decreases |run|
  {
    if run != [] {
      if !run[0].Push? { OneMoves(st, run[0]); }
      StepKeepsSlots(st, run[0]);
      RunKeepsThreads(Apply(st, run[0]), run[1..]);
    }
  }

  /** An idle thread, with no lock held: what is pending waits, and reading brings it out. */
  lemma IdleDelivers(st: State, t: nat, s: nat, o: nat) returns (more: seq<Action>)
    requires Standing(st, s, o) && t < |st.pcs| && st.pcs[t].Idle? && NoLockHeld(st.pcs)
    ensures Delivers(st, more, o)
  {
    assert CellWaits(st, Events, s) && BitsOk(st.objs[o]);
    if st.objs[o].events == {} {
      more := [];
      DeliversAtOnce(st, o);
    } else if Count(st.eventQueue, o) > 0 {
      more := QueueDelivers(st, t, s, o);
    } else {
      var u := SomeBatch(st.pcs, Events, o);
      more := BatchDelivers(st, u, s, o);
    }
  }

  // ---------------------------------------------------------------- no deadlock

  /** A thread is busy only once there is a session. */
  ghost predicate BusyWithSession(st: State)
  {
    st.objs.Keys != {} || AllIdle(st.pcs)
  }

  lemma StepKeepsBusy(st: State, a: Action)
    requires Tracked(st) && BusyWithSession(st) && Enabled(st, a)
    ensures BusyWithSession(Apply(st, a))
  {
    if st.objs.Keys == {} {
      FirstStep(st, a);
    } else {
      var o :| o in st.objs;
      SessionsStay(st, a, o);
    }
  }

  lemma SessionsStay(st: State, a: Action, o: nat)
    requires SlotsInv(st) && Enabled(st, a) && o in st.objs
    ensures o in Apply(st, a).objs
  {
  }

  /** Without a session nothing but creating one gets anywhere. */
  lemma FirstStep(st: State, a: Action)
    requires Tracked(st) && AllIdle(st.pcs) && st.objs.Keys == {} && Enabled(st, a)
    ensures BusyWithSession(Apply(st, a))
  {
    if a.Issue? {
      assert a.obj in Apply(st, a).objs;
    } else {
      BeganWithSession(st, a);
    }
  }

  /** A step that changes anything needs a session or a thread that is busy. */
  lemma BeganWithSession(st: State, a: Action)
    requires Tracked(st) && Enabled(st, a) && !a.Issue?
    ensures st.objs.Keys != {} || !AllIdle(st.pcs) || Apply(st, a) == st
  {
    match a {
      case Fetch(_, ready) => assert HasFile(st.objs, ready[0]);
      case Read(_, kind, _) => assert EntryOk(st.objs, Queue(st, kind)[0]);
      case Issue(_, _) =>
      case Close(_, _, _) =>
      case Push(_, _, _, _) =>
      case _ => assert !st.pcs[a.t].Idle?;
    }
  }

  lemma {:induction false} RunKeepsBusy(st: State, run: seq<Action>)
    requires Tracked(st) && BusyWithSession(st) && Exec(st, run).Some?
    ensures Tracked(Exec(st, run).value) && BusyWithSession(Exec(st, run).value)
    decreases |run|
  {
    if run != [] {
      StepKeepsTracked(st, run[0]);
      StepKeepsBusy(st, run[0]);
      RunKeepsBusy(Apply(st, run[0]), run[1..]);
    }
  }

  /** No deadlock: in every run a thread in the middle of an operation can take its next step, which brings it nearer
      to the end of the operation, or another one holds a lock and can take its own next step. */
  lemma NoDeadlock(n: Slots, threads: nat, run: seq<Action>, t: nat) returns (u: nat, a: Action)
    requires Exec(Start(n, threads), run).Some?
    requires var st := Exec(Start(n, threads), run).value; t < |st.pcs| && !st.pcs[t].Idle?
    ensures var st := Exec(Start(n, threads), run).value;
            && u < |st.pcs| && (u == t || Held(st.pcs[u]) >= 0) && Finishing(a) && a.t == u
            && Enabled(st, a) && SlotsInv(Apply(st, a)) && Work(Apply(st, a).pcs[u]) < Work(st.pcs[u])
  {
    StartTracked(n, threads);
    RunKeepsBusy(Start(n, threads), run);
    var st := Exec(Start(n, threads), run).value;
    assert st.pcs[t] != Idle;
    u := t;
    if exists k :: 0 <= k < |st.pcs| && Held(st.pcs[k]) >= 0 {
      u :| u < |st.pcs| && Held(st.pcs[u]) >= 0;
    }
    var o :| o in st.objs;
    a := NextStep(st, u, o);
    StepKeepsSlots(st, a);
  }
}
