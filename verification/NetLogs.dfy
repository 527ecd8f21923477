/** What the steps of a run of the session protocol raise, report, release, lose and delete, taken from the run
    alone; the fields in which the state collects the same are proved to agree. */
module NetLogs {
  import opened Ffid
  import opened NetProtocol
  import SbTreeDamage

  // ---------------------------------------------------------------- one step

  /** The step finds the session in the array under this id. */
  ghost predicate Meets(st: State, nd: nat, o: nat)
  {
    Found(st, nd) && FoundObj(st, nd) == o
  }

  /** The event bits that a step raises on a session. */
  ghost function RaisedBy(st: State, a: Action, o: nat): set<nat>
  {
    if a.Push? && a.kind.Events? && Meets(st, a.nd, o) then a.bits else {}
  }

  /** A step hands the events of a session to the application. */
  ghost predicate Reports(st: State, a: Action, o: nat)
    requires Enabled(st, a)
  {
    a.Process? && st.pcs[a.t].kind.Events? && Meets(st, st.pcs[a.t].batch[0].id, o)
  }

  ghost function ReportedBy(st: State, a: Action, o: nat): set<nat>
    requires Enabled(st, a)
  {
    if Reports(st, a, o) then st.objs[o].events else {}
  }

  /** How often a step releases a session. */
  ghost function ReleasedBy(st: State, a: Action, o: nat): nat
    requires Enabled(st, a)
  {
    if (a.Close? && !a.linger && Meets(st, a.nd, o)) || (a.Drop? && st.pcs[a.t].obj == o) then 1 else 0
  }

  /** How often a step frees the node that holds a session. */
  ghost function MovedBy(st: State, a: Action, o: nat): nat
    requires Enabled(st, a)
  {
    if a.Drop? && o in st.objs && NodeFreed(st.closeRoot, st.objs[st.pcs[a.t].obj].id) == o then 1 else 0
  }

  /** A step sets the flag of a session and fails to queue its id. */
  ghost predicate LosesWrite(st: State, a: Action, kind: Kind, o: nat)
  {
    a.Push? && a.kind == kind && !a.written && Meets(st, a.nd, o) && !Flag(st.objs[o], kind)
  }

  /** The call of `ffid_del_id` in a step: the slot of the id and which hand-out of it ends. */
  ghost function DeletedBy(st: State, a: Action): seq<(nat, nat)>
    requires SlotsInv(st) && Enabled(st, a)
  {
    if !a.DeleteId? then []
    else
      assert PcOk(st.pool, st.sessions, st.objs, st.pcs[a.t]);
      [(st.pcs[a.t].slot, st.pool.gens[st.pcs[a.t].slot] - 1)]
  }

  /** What happens to a session: bits raised and reported, releases, moves of its node, failed queue writes. */
  datatype Log = Log(raised: set<nat>, reported: set<nat>, freed: nat, moves: nat, lostEvent: bool, lostDelay: bool)

  const NOTHING: Log := Log({}, {}, 0, 0, false, false)

  ghost function Plus(a: Log, b: Log): Log
  {
    Log(a.raised + b.raised, a.reported + b.reported, a.freed + b.freed, a.moves + b.moves,
        a.lostEvent || b.lostEvent, a.lostDelay || b.lostDelay)
  }

  ghost function StepLog(st: State, a: Action, o: nat): Log
    requires Enabled(st, a)
  {
    Log(RaisedBy(st, a, o), ReportedBy(st, a, o), ReleasedBy(st, a, o), MovedBy(st, a, o),
        LosesWrite(st, a, Events, o), LosesWrite(st, a, Delays, o))
  }

  // ---------------------------------------------------------------- a run

  /** What the steps of a run do to a session, one after the other. */
  ghost function RunLog(st: State, run: seq<Action>, o: nat): Log
    requires SlotsInv(st)
    decreases |run|
  {
    if run == [] || !Enabled(st, run[0]) then NOTHING
    else
      StepKeepsSlots(st, run[0]);
      Plus(StepLog(st, run[0], o), RunLog(Apply(st, run[0]), run[1..], o))
  }

  ghost function DeletionsIn(st: State, run: seq<Action>): seq<(nat, nat)>
    requires SlotsInv(st)
    decreases |run|
  {
    if run == [] || !Enabled(st, run[0]) then []
    else
      StepKeepsSlots(st, run[0]);
      DeletedBy(st, run[0]) + DeletionsIn(Apply(st, run[0]), run[1..])
  }

  // ---------------------------------------------------------------- the state collects the same

  ghost function SessionLog(x: Session): Log
  {
    Log(x.raised, x.delivered, x.freed, x.moves, x.lostEvent, x.lostDelay)
  }

  /** What the state has collected for a session; nothing before it is created. */
  ghost function LogOf(objs: Objs, o: nat): Log
  {
    if o in objs then SessionLog(objs[o]) else NOTHING
  }

  lemma PlusNothing(a: Log)
    ensures Plus(a, NOTHING) == a && Plus(NOTHING, a) == a
  {
  }

  lemma PlusTwice(a: Log, b: Log, c: Log)
    ensures Plus(Plus(a, b), c) == Plus(a, Plus(b, c))
  {
  }

  /** No session changes. */
  lemma NoneLogged(objs: Objs, o: nat, log: Log)
    requires log == NOTHING
    ensures LogOf(objs, o) == Plus(LogOf(objs, o), log)
  {
    PlusNothing(LogOf(objs, o));
  }

  /** A session is created. */
  lemma NewLogged(objs: Objs, q: nat, x: Session, o: nat)
    requires q !in objs && SessionLog(x) == NOTHING
    ensures LogOf(objs[q := x], o) == Plus(LogOf(objs, o), NOTHING)
  {
    PlusNothing(LogOf(objs, o));
  }

  /** Only one session changes, and its log by this much. */
  lemma OneLogged(objs: Objs, q: nat, x: Session, more: Log, o: nat)
    requires q in objs && SessionLog(x) == Plus(SessionLog(objs[q]), more)
    ensures LogOf(objs[q := x], o) == Plus(LogOf(objs, o), if o == q then more else NOTHING)
  {
    PlusNothing(LogOf(objs, o));
  }

  lemma PushedLog(x: Session, kind: Kind, bits: set<nat>, written: bool)
    requires kind.Delays? ==> bits == {}
    ensures SessionLog(Pushed(x, kind, bits, written))
            == Plus(SessionLog(x), PushLog(x, kind, bits, written))
  {
  }

  lemma PushLogged(st: State, kind: Kind, nd: nat, bits: set<nat>, written: bool, o: nat, objs': Objs, log: Log)
    requires Enabled(st, Push(kind, nd, bits, written)) && objs' == DoPush(st, kind, nd, bits, written).objs
    requires log == StepLog(st, Push(kind, nd, bits, written), o)
    ensures LogOf(objs', o) == Plus(LogOf(st.objs, o), log)
  {
    if Found(st, nd) {
      var q := FoundObj(st, nd);
      PushStep(st, kind, nd, bits, written, q, o);
      PushObjs(st, kind, nd, bits, written, q);
      PushedAt(st.objs, kind, bits, written, q, o, objs', log);
    } else {
      PushNothing(st, kind, nd, bits, written, o);
      NoneLogged(st.objs, o, log);
    }
  }

  lemma PushNothing(st: State, kind: Kind, nd: nat, bits: set<nat>, written: bool, o: nat)
    requires Enabled(st, Push(kind, nd, bits, written)) && !Found(st, nd)
    ensures DoPush(st, kind, nd, bits, written) == st && StepLog(st, Push(kind, nd, bits, written), o) == NOTHING
  {
  }

  lemma PushedAt(objs: Objs, kind: Kind, bits: set<nat>, written: bool, q: nat, o: nat, objs': Objs, log: Log)
    requires q in objs && (kind.Delays? ==> bits == {}) && objs' == objs[q := Pushed(objs[q], kind, bits, written)]
    requires log == if o == q then PushLog(objs[q], kind, bits, written) else NOTHING
    ensures LogOf(objs', o) == Plus(LogOf(objs, o), log)
  {
    PushedLog(objs[q], kind, bits, written);
    OneLogged(objs, q, Pushed(objs[q], kind, bits, written), PushLog(objs[q], kind, bits, written), o);
  }

  ghost function PushLog(x: Session, kind: Kind, bits: set<nat>, written: bool): Log
  {
    Log(bits, {}, 0, 0, kind.Events? && !written && !x.inQueue, kind.Delays? && !written && !x.inDelay)
  }

  lemma PushObjs(st: State, kind: Kind, nd: nat, bits: set<nat>, written: bool, q: nat)
    requires Enabled(st, Push(kind, nd, bits, written)) && Meets(st, nd, q)
    ensures DoPush(st, kind, nd, bits, written).objs == st.objs[q := Pushed(st.objs[q], kind, bits, written)]
  {
  }

  lemma PushStep(st: State, kind: Kind, nd: nat, bits: set<nat>, written: bool, q: nat, o: nat)
    requires Enabled(st, Push(kind, nd, bits, written)) && Meets(st, nd, q)
    ensures StepLog(st, Push(kind, nd, bits, written), o)
            == if o == q then PushLog(st.objs[q], kind, bits, written) else NOTHING
  {
  }

  lemma CloseLogged(st: State, t: nat, nd: nat, linger: bool, o: nat, objs': Objs, log: Log)
    requires Enabled(st, Close(t, nd, linger)) && objs' == DoClose(st, t, nd, linger).objs
    requires log == StepLog(st, Close(t, nd, linger), o)
    ensures LogOf(objs', o) == Plus(LogOf(st.objs, o), log)
  {
    if Found(st, nd) && !linger {
      var q := FoundObj(st, nd);
      CloseStep(st, t, nd, q, o);
      CloseObjs(st, t, nd, q);
      OneLogged(st.objs, q, Released(st.objs[q]), Log({}, {}, 1, 0, false, false), o);
    } else {
      CloseNothing(st, t, nd, linger, o);
      NoneLogged(st.objs, o, log);
    }
  }

  ghost function Released(x: Session): Session
  {
    x.(freed := x.freed + 1)
  }

  lemma CloseObjs(st: State, t: nat, nd: nat, q: nat)
    requires Enabled(st, Close(t, nd, false)) && Meets(st, nd, q)
    ensures DoClose(st, t, nd, false).objs == st.objs[q := Released(st.objs[q])]
  {
  }

  lemma CloseNothing(st: State, t: nat, nd: nat, linger: bool, o: nat)
    requires Enabled(st, Close(t, nd, linger)) && (linger || !Found(st, nd))
    ensures DoClose(st, t, nd, linger).objs == st.objs && StepLog(st, Close(t, nd, linger), o) == NOTHING
  {
  }

  lemma CloseStep(st: State, t: nat, nd: nat, q: nat, o: nat)
    requires Enabled(st, Close(t, nd, false)) && Meets(st, nd, q)
    ensures StepLog(st, Close(t, nd, false), o) == if o == q then Log({}, {}, 1, 0, false, false) else NOTHING
  {
  }

  lemma DropLogged(st: State, t: nat, after: SbTreeDamage.Raw, o: nat, objs': Objs, log: Log)
    requires Enabled(st, Drop(t, after)) && objs' == DoDrop(st, t, after).objs
    requires log == StepLog(st, Drop(t, after), o)
    ensures LogOf(objs', o) == Plus(LogOf(st.objs, o), log)
  {
    var q := st.pcs[t].obj;
    var m := NodeFreed(st.closeRoot, st.objs[q].id);
    var objs1 := st.objs[q := Released(st.objs[q])];
    OneLogged(st.objs, q, Released(st.objs[q]), Log({}, {}, 1, 0, false, false), o);
    MoveLogged(objs1, m, o);
    DropStep(st, t, after, q, m, o);
    DropTwice(LogOf(st.objs, o), LogOf(objs1, o), LogOf(objs', o), q == o, o in st.objs && m == o, log);
  }

  lemma MoveLogged(objs: Objs, m: int, o: nat)
    ensures LogOf(Moved(objs, m), o) == Plus(LogOf(objs, o), if o in objs && m == o then Log({}, {}, 0, 1, false, false)
                                                             else NOTHING)
  {
    if m >= 0 && m in objs {
      OneLogged(objs, m, objs[m].(moves := objs[m].moves + 1), Log({}, {}, 0, 1, false, false), o);
    } else {
      NoneLogged(objs, o, NOTHING);
    }
  }

  lemma DropStep(st: State, t: nat, after: SbTreeDamage.Raw, q: nat, m: int, o: nat)
    requires Enabled(st, Drop(t, after)) && q == st.pcs[t].obj && m == NodeFreed(st.closeRoot, st.objs[q].id)
    ensures DoDrop(st, t, after).objs == Moved(st.objs[q := Released(st.objs[q])], m)
    ensures StepLog(st, Drop(t, after), o)
            == Log({}, {}, if q == o then 1 else 0, if o in st.objs && m == o then 1 else 0, false, false)
  {
  }

  lemma DropTwice(a: Log, b: Log, c: Log, freed: bool, moved: bool, log: Log)
    requires b == Plus(a, if freed then Log({}, {}, 1, 0, false, false) else NOTHING)
    requires c == Plus(b, if moved then Log({}, {}, 0, 1, false, false) else NOTHING)
    requires log == Log({}, {}, if freed then 1 else 0, if moved then 1 else 0, false, false)
    ensures c == Plus(a, log)
  {
  }

  lemma ProcessLogged(st: State, t: nat, o: nat, objs': Objs, log: Log)
    requires Enabled(st, Process(t)) && objs' == DoProcess(st, t).objs && log == StepLog(st, Process(t), o)
    ensures LogOf(objs', o) == Plus(LogOf(st.objs, o), log)
  {
    var nd, kind := st.pcs[t].batch[0].id, st.pcs[t].kind;
    if Found(st, nd) {
      var q := FoundObj(st, nd);
      ReportedLog(st.objs[q], kind);
      ProcessStep(st, t, q, o);
      OneLogged(st.objs, q, Reported(st.objs[q], kind), ReportLog(st.objs[q], kind), o);
    } else {
      ProcessNothing(st, t, o);
      NoneLogged(st.objs, o, log);
    }
  }

  ghost function ReportLog(x: Session, kind: Kind): Log
  {
    Log({}, if kind.Events? then x.events else {}, 0, 0, false, false)
  }

  lemma ReportedLog(x: Session, kind: Kind)
    ensures SessionLog(Reported(x, kind)) == Plus(SessionLog(x), ReportLog(x, kind))
  {
  }

  lemma ProcessStep(st: State, t: nat, q: nat, o: nat)
    requires Enabled(st, Process(t)) && Meets(st, st.pcs[t].batch[0].id, q)
    ensures DoProcess(st, t).objs == st.objs[q := Reported(st.objs[q], st.pcs[t].kind)]
    ensures StepLog(st, Process(t), o) == if o == q then ReportLog(st.objs[q], st.pcs[t].kind) else NOTHING
  {
  }

  lemma ProcessNothing(st: State, t: nat, o: nat)
    requires Enabled(st, Process(t)) && !Found(st, st.pcs[t].batch[0].id)
    ensures DoProcess(st, t).objs == st.objs && StepLog(st, Process(t), o) == NOTHING
  {
  }

  /** A step leaves what a session has collected, and what it does to the session on top of it. */
  lemma StepLogged(st: State, a: Action, o: nat)
    requires SlotsInv(st) && Enabled(st, a)
    ensures LogOf(Apply(st, a).objs, o) == Plus(LogOf(st.objs, o), StepLog(st, a, o))
  {
    var objs', log := Apply(st, a).objs, StepLog(st, a, o);
    match a {
      case Push(kind, nd, bits, written) => PushLogged(st, kind, nd, bits, written, o, objs', log);
      case Close(t, nd, linger) => CloseLogged(st, t, nd, linger, o, objs', log);
      case Drop(t, after) => DropLogged(st, t, after, o, objs', log);
      case Process(t) => ProcessLogged(st, t, o, objs', log);
      case Install(t) => InstallLogged(st, t, o, objs', log);
      case Issue(t, obj) => IssueLogged(st, t, obj, o, objs', log);
      case _ =>
        OtherLogged(st, a, o);
        NoneLogged(st.objs, o, log);
    }
  }

  lemma InstallLogged(st: State, t: nat, o: nat, objs': Objs, log: Log)
    requires SlotsInv(st) && Enabled(st, Install(t)) && objs' == Apply(st, Install(t)).objs
    requires log == StepLog(st, Install(t), o)
    ensures LogOf(objs', o) == Plus(LogOf(st.objs, o), log)
  {
    assert PcOk(st.pool, st.sessions, st.objs, st.pcs[t]);
    var q := st.pcs[t].obj;
    PlusNothing(SessionLog(st.objs[q]));
    OneLogged(st.objs, q, objs'[q], NOTHING, o);
  }

  lemma IssueLogged(st: State, t: nat, obj: nat, o: nat, objs': Objs, log: Log)
    requires SlotsInv(st) && Enabled(st, Issue(t, obj)) && objs' == DoIssue(st, t, obj).objs
    requires log == StepLog(st, Issue(t, obj), o)
    ensures LogOf(objs', o) == Plus(LogOf(st.objs, o), log)
  {
    NewLogged(st.objs, obj, objs'[obj], o);
  }

  lemma OtherLogged(st: State, a: Action, o: nat)
    requires SlotsInv(st) && Enabled(st, a) && !a.Push? && !a.Close? && !a.Drop? && !a.Process? && !a.Install?
    requires !a.Issue?
    ensures Apply(st, a).objs == st.objs && StepLog(st, a, o) == NOTHING
  {
  }

  lemma DeletionLogged(st: State, a: Action)
    requires SlotsInv(st) && Enabled(st, a)
    ensures Apply(st, a).deletions == st.deletions + DeletedBy(st, a)
  {
  }

  /** What every session has collected at the end of a run is what the steps of the run did to it. */
  lemma {:induction false} RunLogged(st: State, run: seq<Action>, o: nat)
    requires SlotsInv(st) && Exec(st, run).Some?
    ensures LogOf(Exec(st, run).value.objs, o) == Plus(LogOf(st.objs, o), RunLog(st, run, o))
    decreases |run|
  {
    if run == [] {
      PlusNothing(LogOf(st.objs, o));
    } else {
      StepLogged(st, run[0], o);
      StepKeepsSlots(st, run[0]);
      RunLogged(Apply(st, run[0]), run[1..], o);
      PlusTwice(LogOf(st.objs, o), StepLog(st, run[0], o), RunLog(Apply(st, run[0]), run[1..], o));
    }
  }

  lemma {:induction false} DeletionsLogged(st: State, run: seq<Action>)
    requires SlotsInv(st) && Exec(st, run).Some?
    ensures Exec(st, run).value.deletions == st.deletions + DeletionsIn(st, run)
    decreases |run|
  {
    if run != [] {
      DeletionLogged(st, run[0]);
      StepKeepsSlots(st, run[0]);
      DeletionsLogged(Apply(st, run[0]), run[1..]);
      AddedTwice(st.deletions, DeletedBy(st, run[0]), DeletionsIn(Apply(st, run[0]), run[1..]));
    }
  }

  lemma AddedTwice<T>(a: seq<T>, b: seq<T>, c: seq<T>)
    ensures a + b + c == a + (b + c)
  {
  }

  /** In every run from the start, the fields of a session that collect bits, reports, releases, moves and failed
      writes agree with the steps of the run, and so does the list of deleted ids. */
  lemma LogsOfTheRun(n: Slots, threads: nat, run: seq<Action>, o: nat)
    requires Exec(Start(n, threads), run).Some?
    ensures var end := Exec(Start(n, threads), run).value;
            && LogOf(end.objs, o) == RunLog(Start(n, threads), run, o)
            && end.deletions == DeletionsIn(Start(n, threads), run)
  {
    LogsFromNothing(Start(n, threads), run, o);
  }

  lemma LogsFromNothing(st: State, run: seq<Action>, o: nat)
    requires SlotsInv(st) && Exec(st, run).Some? && st.objs == map[] && st.deletions == []
    ensures var end := Exec(st, run).value;
            LogOf(end.objs, o) == RunLog(st, run, o) && end.deletions == DeletionsIn(st, run)
  {
    RunLogged(st, run, o);
    DeletionsLogged(st, run);
    PlusNothing(RunLog(st, run, o));
  }

  // ---------------------------------------------------------------- pending bits

  ghost function PendingOf(objs: Objs, o: nat): set<nat>
  {
    if o in objs then objs[o].events else {}
  }

  /** What is pending when a run ends: the bits raised since they were last reported. */
  ghost function RaisedSince(st: State, run: seq<Action>, o: nat, before: set<nat>): set<nat>
    requires SlotsInv(st)
    decreases |run|
  {
    if run == [] || !Enabled(st, run[0]) then before
    else
      StepKeepsSlots(st, run[0]);
      RaisedSince(Apply(st, run[0]), run[1..], o,
                  if Reports(st, run[0], o) then {} else before + RaisedBy(st, run[0], o))
  }

  lemma StepPending(st: State, a: Action, o: nat)
    requires SlotsInv(st) && Enabled(st, a)
    ensures PendingOf(Apply(st, a).objs, o)
            == if Reports(st, a, o) then {} else PendingOf(st.objs, o) + RaisedBy(st, a, o)
  {
    match a {
      case Push(kind, nd, bits, written) => PushPending(st, kind, nd, bits, written, o);
      case Process(t) => ProcessPending(st, t, o);
      case _ => OtherPending(st, a, o);
    }
  }

  lemma ProcessPending(st: State, t: nat, o: nat)
    requires Enabled(st, Process(t))
    ensures PendingOf(DoProcess(st, t).objs, o) == if Reports(st, Process(t), o) then {} else PendingOf(st.objs, o)
  {
  }

  lemma OtherPending(st: State, a: Action, o: nat)
    requires SlotsInv(st) && Enabled(st, a) && !a.Push? && !a.Process?
    ensures PendingOf(Apply(st, a).objs, o) == PendingOf(st.objs, o)
  {
    if a.Install? { assert PcOk(st.pool, st.sessions, st.objs, st.pcs[a.t]); }
  }

  lemma PushPending(st: State, kind: Kind, nd: nat, bits: set<nat>, written: bool, o: nat)
    requires Enabled(st, Push(kind, nd, bits, written))
    ensures PendingOf(DoPush(st, kind, nd, bits, written).objs, o)
            == PendingOf(st.objs, o) + RaisedBy(st, Push(kind, nd, bits, written), o)
  {
  }

  /** In every run, from whatever state: pending at the end is exactly what was pending or raised since the last
      report. */
  lemma {:induction false} PendingExactly(st: State, run: seq<Action>, o: nat)
    requires SlotsInv(st) && Exec(st, run).Some?
    ensures PendingOf(Exec(st, run).value.objs, o) == RaisedSince(st, run, o, PendingOf(st.objs, o))
    decreases |run|
  {
    if run != [] {
      StepPending(st, run[0], o);
      StepKeepsSlots(st, run[0]);
      PendingExactly(Apply(st, run[0]), run[1..], o);
    }
  }

  /** What is pending is reported later, or still pending when the run ends. */
  lemma {:induction false} PendingIsReported(st: State, run: seq<Action>, o: nat)
    requires SlotsInv(st) && Exec(st, run).Some?
    ensures PendingOf(st.objs, o) <= RunLog(st, run, o).reported + PendingOf(Exec(st, run).value.objs, o)
    decreases |run|
  {
    if run != [] {
      StepPending(st, run[0], o);
      StepKeepsSlots(st, run[0]);
      PendingIsReported(Apply(st, run[0]), run[1..], o);
    }
  }

  /** What a step raises is reported in a later step, or still pending when the run ends; a report before does not
      count. */
  lemma RaisedIsReported(st: State, a: Action, run: seq<Action>, o: nat)
    requires SlotsInv(st) && Enabled(st, a) && SlotsInv(Apply(st, a)) && Exec(Apply(st, a), run).Some?
    ensures RaisedBy(st, a, o)
            <= RunLog(Apply(st, a), run, o).reported + PendingOf(Exec(Apply(st, a), run).value.objs, o)
  {
    StepPending(st, a, o);
    PendingIsReported(Apply(st, a), run, o);
  }
}
