/** Building runs of the session protocol out of sessions that are opened and closed undisturbed. */
module NetRuns {
  import opened Options
  import Arith
  import opened Ffid
  import opened NetProtocol
  import opened NetRelease
  import SbTree
  import SbTreeDamage

  lemma {:induction false} ExecConcat(st: State, a: seq<Action>, b: seq<Action>)
    requires SlotsInv(st) && Exec(st, a).Some?
    ensures Exec(st, a + b) == Exec(Exec(st, a).value, b)
    decreases |a|
  {
    if a == [] {
      assert a + b == b;
    } else {
      StepKeepsSlots(st, a[0]);
      ExecConcat(Apply(st, a[0]), a[1..], b);
      TailOfSum(a, b);
    }
  }

  lemma TailOfSum<T>(a: seq<T>, b: seq<T>)
    requires a != []
    ensures (a + b)[0] == a[0] && (a + b)[1..] == a[1..] + b
  {
  }

  /** The run leads from one state to the other. */
  ghost predicate Leads(st: State, run: seq<Action>, st': State)
  {
    SlotsInv(st) && SlotsInv(st') && Exec(st, run) == Some(st')
  }

  lemma LeadsOn(st: State, a: seq<Action>, mid: State, b: seq<Action>, st': State)
    requires Leads(st, a, mid) && Leads(mid, b, st')
    ensures Leads(st, a + b, st')
  {
    ExecConcat(st, a, b);
  }

  lemma OneStep(st: State, a: Action) returns (st': State)
    requires SlotsInv(st) && Enabled(st, a)
    ensures st' == Apply(st, a) && Leads(st, [a], st')
    ensures ReleaseInv(st) && SafeStep(st, a) ==> ReleaseInv(st')
  {
    st' := StepAlong(st, a, []);
    assert [a] + [] == [a];
    if ReleaseInv(st) && SafeStep(st, a) { StepKeepsRelease(st, a); }
  }

  // ---------------------------------------------------------------- opening and closing a session

  /** The session a slot gets when it is handed out. */
  ghost function Opened(p: Pool, s: nat): Session
    requires s < p.n && s < |p.gens|
  {
    Session(s, p.gens[s], Value(p.n, s, p.gens[s]) + 1, {}, false, false, false, false, {}, {}, 0, 0)
  }

  /** `add_net_session`, undisturbed. */
  lemma OpenOne(st: State, t: nat, obj: nat) returns (run: seq<Action>, st': State)
    requires SlotsInv(st) && Enabled(st, Issue(t, obj)) && LockFree(st.pcs, st.pool.free[0])
    ensures Leads(st, run, st') && (ReleaseInv(st) ==> ReleaseInv(st'))
    ensures var s := st.pool.free[0];
            && s < st.pool.n && s < |st.pool.gens| && s < |st.sessions|
            && st' == st.(pool := TakeSlot(st.pool), sessions := st.sessions[s := Some(obj)],
                          objs := st.objs[obj := Opened(st.pool, s)])
  {
    var s1 := OneStep(st, Issue(t, obj));
    assert PcOk(s1.pool, s1.sessions, s1.objs, s1.pcs[t]);
    st' := OneStep(s1, Install(t));
    run := [Issue(t, obj)] + [Install(t)];
    LeadsOn(st, [Issue(t, obj)], s1, [Install(t)], st');
    OpenedState(st, t, obj, s1, st');
  }

  lemma OpenedState(st: State, t: nat, obj: nat, s1: State, st': State)
    requires SlotsInv(st) && Enabled(st, Issue(t, obj)) && s1 == DoIssue(st, t, obj)
    requires SlotsInv(s1) && Enabled(s1, Install(t)) && s1.pcs[t].slot < |s1.sessions| && st' == DoInstall(s1, t)
    ensures var s := st.pool.free[0];
            && s < st.pool.n && s < |st.pool.gens| && s < |st.sessions|
            && st' == st.(pool := TakeSlot(st.pool), sessions := st.sessions[s := Some(obj)],
                          objs := st.objs[obj := Opened(st.pool, s)])
  {
    var s := st.pool.free[0];
    FirstHandOut(st.pool, s);
    assert s1.objs[obj].(id := IdOf(s1.pool, s)) == Opened(st.pool, s);
    BackToIdle(st.pcs, t, s1.pcs[t]);
    UpdatedTwice(st.objs, obj, s1.objs[obj], Opened(st.pool, s));
  }

  lemma FirstHandOut(p: Pool, s: nat)
    requires PoolOk(p) && p.free != [] && p.free[0] == s
    ensures s < p.n && s < |p.gens| && IdOf(TakeSlot(p), s) == Value(p.n, s, p.gens[s]) + 1
  {
  }

  lemma BackToIdle(pcs: seq<Pc>, t: nat, pc: Pc)
    requires t < |pcs| && pcs[t] == Idle
    ensures pcs[t := pc][t := Idle] == pcs
  {
  }

  lemma UpdatedTwice(m: Objs, k: nat, x: Session, y: Session)
    ensures m[k := x][k := y] == m[k := y]
  {
  }

  /** What opening changes, part by part: slot `s` is the first free one and its next id is `nd`. */
  lemma OpenAs(st: State, t: nat, obj: nat, s: nat, nd: nat) returns (run: seq<Action>, st': State)
    requires SlotsInv(st) && t < |st.pcs| && st.pcs[t].Idle? && obj !in st.objs && st.pool.free != []
             && st.pool.free[0] == s
    requires LockFree(st.pcs, s) && s < st.pool.n && s < |st.pool.gens|
             && nd == Value(st.pool.n, s, st.pool.gens[s]) + 1
    ensures Leads(st, run, st') && (ReleaseInv(st) ==> ReleaseInv(st'))
    ensures st'.pool.n == st.pool.n && st'.pool.free == st.pool.free[1..]
    ensures s < |st.sessions| && st'.sessions == st.sessions[s := Some(obj)]
    ensures st'.pool.gens == st.pool.gens[s := st.pool.gens[s] + 1]
    ensures st'.closeRoot == st.closeRoot && st'.pcs == st.pcs && st'.eventQueue == st.eventQueue
    ensures st'.objs.Keys == st.objs.Keys + {obj} && (forall o :: o in st.objs ==> st'.objs[o] == st.objs[o])
    ensures st'.objs[obj].id == nd && Quiet(st'.objs[obj]) && !st'.objs[obj].lostEvent
  {
    run, st' := OpenOne(st, t, obj);
  }

  /** `net_socket_close` without unsent data, undisturbed. */
  lemma CloseOne(st: State, t: nat, nd: nat) returns (run: seq<Action>, st': State)
    requires SlotsInv(st) && Found(st, nd) && Enabled(st, Close(t, nd, false))
    ensures Leads(st, run, st') && (ReleaseInv(st) ==> ReleaseInv(st'))
    ensures var s, o := SlotOf(st.pool.n, nd), FoundObj(st, nd);
            && s in st.pool.live && s < |st.sessions| && o in st.objs
            && st' == st.(pool := GiveSlot(st.pool, s), sessions := st.sessions[s := None], deletions := st'.deletions,
                          objs := st.objs[o := st.objs[o].(freed := st.objs[o].freed + 1)])
  {
    assert Current(st.pool, st.objs, FoundObj(st, nd), SlotOf(st.pool.n, nd));
    var s1 := OneStep(st, Close(t, nd, false));
    st' := OneStep(s1, DeleteId(t));
    run := [Close(t, nd, false)] + [DeleteId(t)];
    LeadsOn(st, [Close(t, nd, false)], s1, [DeleteId(t)], st');
    ClosedState(st, t, nd, s1, st');
  }

  lemma ClosedState(st: State, t: nat, nd: nat, s1: State, st': State)
    requires SlotsInv(st) && Found(st, nd) && Enabled(st, Close(t, nd, false)) && s1 == DoClose(st, t, nd, false)
    requires SlotsInv(s1) && Enabled(s1, DeleteId(t)) && s1.pcs[t].slot in s1.pool.live && st' == DoDeleteId(s1, t)
    ensures var s, o := SlotOf(st.pool.n, nd), FoundObj(st, nd);
            && s in st.pool.live && s < |st.sessions| && o in st.objs
            && st' == st.(pool := GiveSlot(st.pool, s), sessions := st.sessions[s := None], deletions := st'.deletions,
                          objs := st.objs[o := st.objs[o].(freed := st.objs[o].freed + 1)])
  {
    BackToIdle(st.pcs, t, s1.pcs[t]);
  }

  /** The same with unsent data: the session joins `close_root`. */
  lemma LingerOne(st: State, t: nat, nd: nat) returns (run: seq<Action>, st': State)
    requires SlotsInv(st) && Found(st, nd) && Enabled(st, Close(t, nd, true))
    ensures Leads(st, run, st') && (ReleaseInv(st) ==> ReleaseInv(st'))
    ensures var s, o := SlotOf(st.pool.n, nd), FoundObj(st, nd);
            && s in st.pool.live && s < |st.sessions| && o in st.objs
            && st' == st.(pool := GiveSlot(st.pool, s), sessions := st.sessions[s := None], deletions := st'.deletions,
                          closeRoot := RootInsert(st.closeRoot, nd, o, SbTreeDamage.Nil))
  {
    var o, s := FoundObj(st, nd), SlotOf(st.pool.n, nd);
    assert Current(st.pool, st.objs, o, s);
    var park := Park(t, true, SbTreeDamage.Nil);
    var s1 := OneStep(st, Close(t, nd, true));
    var s2 := OneStep(s1, park);
    st' := OneStep(s2, DeleteId(t));
    LeadsOn(s1, [park], s2, [DeleteId(t)], st');
    run := [Close(t, nd, true)] + ([park] + [DeleteId(t)]);
    LeadsOn(st, [Close(t, nd, true)], s1, [park] + [DeleteId(t)], st');
    LingerState(st, t, nd, s1, s2, st');
  }

  lemma LingerState(st: State, t: nat, nd: nat, s1: State, s2: State, st': State)
    requires SlotsInv(st) && Found(st, nd) && Enabled(st, Close(t, nd, true)) && s1 == DoClose(st, t, nd, true)
    requires Enabled(s1, Park(t, true, SbTreeDamage.Nil)) && s2 == DoPark(s1, t, true, SbTreeDamage.Nil)
    requires SlotsInv(s2) && Enabled(s2, DeleteId(t)) && s2.pcs[t].slot in s2.pool.live && st' == DoDeleteId(s2, t)
    ensures var s, o := SlotOf(st.pool.n, nd), FoundObj(st, nd);
            && s in st.pool.live && s < |st.sessions| && o in st.objs
            && st' == st.(pool := GiveSlot(st.pool, s), sessions := st.sessions[s := None], deletions := st'.deletions,
                          closeRoot := RootInsert(st.closeRoot, nd, o, SbTreeDamage.Nil))
  {
    assert Current(st.pool, st.objs, FoundObj(st, nd), SlotOf(st.pool.n, nd));
    assert s2.pcs == st.pcs[t := s2.pcs[t]];
    BackToIdle(st.pcs, t, s2.pcs[t]);
  }

  // ---------------------------------------------------------------- coming round to the same id

  /** Only the hand-outs of the slot have grown, and sessions have been added. */
  ghost predicate Spun(st: State, st': State, s: nat, count: nat)
  {
    && s < |st.pool.gens| && st'.pool == st.pool.(gens := st.pool.gens[s := st.pool.gens[s] + count])
    && st'.sessions == st.sessions && st'.closeRoot == st.closeRoot && st'.pcs == st.pcs
    && st'.eventQueue == st.eventQueue && st'.delayQueue == st.delayQueue
    && forall o :: o in st.objs ==> o in st'.objs && st'.objs[o] == st.objs[o]
  }

  ghost predicate Below(objs: Objs, m: nat)
  {
    forall o :: o in objs ==> o < m
  }

  /** Opening and closing a session once in the only free slot. */
  lemma SpinOnce(st: State, t: nat, s: nat, obj: nat) returns (run: seq<Action>, st': State)
    requires SlotsInv(st) && t < |st.pcs| && st.pcs[t].Idle? && st.pool.free == [s] && LockFree(st.pcs, s)
             && Below(st.objs, obj)
    ensures Leads(st, run, st') && (ReleaseInv(st) ==> ReleaseInv(st'))
    ensures Spun(st, st', s, 1) && Below(st'.objs, obj + 1)
  {
    var a, mid := OpenOne(st, t, obj);
    var nd := mid.objs[obj].id;
    var b;
    b, st' := CloseOne(mid, t, nd);
    run := a + b;
    LeadsOn(st, a, mid, b, st');
    SpunState(st, mid, st', s, obj);
  }

  lemma SpunState(st: State, mid: State, st': State, s: nat, obj: nat)
    requires SlotsInv(st) && st.pool.free == [s] && Below(st.objs, obj) && s < |st.sessions| && s < |st.pool.gens|
             && s < st.pool.n
    requires mid == st.(pool := TakeSlot(st.pool), sessions := st.sessions[s := Some(obj)],
                        objs := st.objs[obj := Opened(st.pool, s)])
    requires PoolOk(mid.pool) && s in mid.pool.live
    requires st' == mid.(pool := GiveSlot(mid.pool, s), sessions := mid.sessions[s := None], deletions := st'.deletions,
                         objs := mid.objs[obj := mid.objs[obj].(freed := mid.objs[obj].freed + 1)])
    requires st.sessions[s].None? && s !in st.pool.live
    ensures Spun(st, st', s, 1) && Below(st'.objs, obj + 1)
  {
    TakenAndGiven(st.pool, s);
    assert st'.sessions == st.sessions;
  }

  lemma TakenAndGiven(p: Pool, s: nat)
    requires PoolOk(p) && p.loop && p.free == [s] && s < |p.gens| && s !in p.live && PoolOk(TakeSlot(p))
             && s in TakeSlot(p).live
    ensures GiveSlot(TakeSlot(p), s) == p.(gens := p.gens[s := p.gens[s] + 1])
  {
    assert GiveSlot(TakeSlot(p), s).live == p.live;
    assert GiveSlot(TakeSlot(p), s).free == [s];
  }

  lemma {:induction false} SpinMany(st: State, t: nat, s: nat, m: nat, count: nat)
    returns (run: seq<Action>, st': State)
    requires SlotsInv(st) && t < |st.pcs| && st.pcs[t].Idle? && st.pool.free == [s] && LockFree(st.pcs, s)
             && Below(st.objs, m)
    ensures Leads(st, run, st') && (ReleaseInv(st) ==> ReleaseInv(st'))
    ensures Spun(st, st', s, count) && Below(st'.objs, m + count)
    decreases count
  {
    if count == 0 {
      run, st' := [], st;
      assert s < st.pool.n;
      assert st.pool.gens == st.pool.gens[s := st.pool.gens[s] + 0];
    } else {
      var a, mid := SpinOnce(st, t, s, m);
      var b;
      b, st' := SpinMany(mid, t, s, m + 1, count - 1);
      run := a + b;
      LeadsOn(st, a, mid, b, st');
      SpunOn(st, mid, st', s, count);
    }
  }

  lemma SpunOn(st: State, mid: State, st': State, s: nat, count: nat)
    requires count > 0 && Spun(st, mid, s, 1) && Spun(mid, st', s, count - 1)
    ensures Spun(st, st', s, count)
  {
    assert mid.pool.gens[s := mid.pool.gens[s] + (count - 1)] == st.pool.gens[s := st.pool.gens[s] + count];
  }

  lemma FirstValue(n: Slots, s: nat)
    requires s < n
    ensures Value(n, s, 0) == s
  {
    Arith.ModOfSum(Cycle(n, s), 0, 0);
  }

  /** The first id of a slot comes back after a whole cycle. */
  lemma SameIdAgain(n: Slots, s: nat)
    requires s < n
    ensures Value(n, s, 0) == Value(n, s, Cycle(n, s)) == s
  {
    FirstValue(n, s);
    Arith.DivUnique(Cycle(n, s), Cycle(n, s), 1, 0);
  }

  // ---------------------------------------------------------------- single steps, spelled out

  /** An event for the file of one session. */
  lemma FetchOne(st: State, t: nat, o: nat, nd: nat) returns (st': State)
    requires SlotsInv(st) && t < |st.pcs| && st.pcs[t].Idle? && HasFile(st.objs, o) && st.objs[o].id == nd
    ensures Leads(st, [Fetch(t, [o])], st') && (ReleaseInv(st) ==> ReleaseInv(st'))
    ensures st' == st.(pcs := st.pcs[t := Fetched([nd])])
  {
    FetchOfOne(st, t, o);
    st' := OneStep(st, Fetch(t, [o]));
  }

  /** An idle thread may be given any events at once, from one to thirty-two, of different files, and no others. */
  lemma FetchAny(st: State, t: nat, ready: seq<nat>)
    requires SlotsInv(st) && t < |st.pcs| && st.pcs[t].Idle?
    requires forall i :: 0 <= i < |ready| ==> HasFile(st.objs, ready[i])
    ensures Enabled(st, Fetch(t, ready)) <==>
              1 <= |ready| <= 32 && forall i, j :: 0 <= i < j < |ready| ==> ready[i] != ready[j]
    ensures Enabled(st, Fetch(t, ready)) ==>
              var pc := Apply(st, Fetch(t, ready)).pcs[t];
              pc.Fetched? && |pc.ids| == |ready| && forall i :: 0 <= i < |ready| ==> pc.ids[i] == st.objs[ready[i]].id
  {
  }

  /** What an event leads to: for a session in the array nothing here, for one in `close_root` its node, which is then
      read, and otherwise nothing; unless a node is read the thread goes on with the events behind it. */
  lemma FindAny(st: State, t: nat, nd: nat, rest: seq<nat>) returns (st': State)
    requires SlotsInv(st) && t < |st.pcs| && st.pcs[t] == Fetched([nd] + rest) && nd > 0
             && LockFree(st.pcs, SlotOf(st.pool.n, nd))
    ensures Leads(st, [WaitFind(t, nd)], st')
    ensures var f := RootFind(st.closeRoot, nd);
            st' == st.(pcs := st.pcs[t :=
              if !Found(st, nd) && f.Some? && f.value >= 0 && f.value in st.objs then
                Peeking(f.value, st.objs[f.value].moves, SlotOf(st.pool.n, nd), rest)
              else if rest == [] then Idle else Fetched(rest)])
  {
    assert ([nd] + rest)[1..] == rest && ([nd] + rest)[0] == nd;
    st' := OneStep(st, WaitFind(t, nd));
  }

  lemma FindOne(st: State, t: nat, nd: nat, o: nat) returns (st': State)
    requires SlotsInv(st) && t < |st.pcs| && st.pcs[t] == Fetched([nd]) && nd > 0
             && LockFree(st.pcs, SlotOf(st.pool.n, nd))
    requires !Found(st, nd) && RootFind(st.closeRoot, nd) == Some(o) && o in st.objs
    ensures Leads(st, [WaitFind(t, nd)], st') && (ReleaseInv(st) ==> ReleaseInv(st'))
    ensures st' == st.(pcs := st.pcs[t := Peeking(o, st.objs[o].moves, SlotOf(st.pool.n, nd), [])])
  {
    NodeFound(st, t, nd, o);
    st' := OneStep(st, WaitFind(t, nd));
  }

  lemma NodeFound(st: State, t: nat, nd: nat, o: nat)
    requires t < |st.pcs| && st.pcs[t] == Fetched([nd]) && nd > 0 && LockFree(st.pcs, SlotOf(st.pool.n, nd))
    requires !Found(st, nd) && RootFind(st.closeRoot, nd) == Some(o) && o in st.objs
    ensures Enabled(st, WaitFind(t, nd))
    ensures DoWaitFind(st, t, nd) == st.(pcs := st.pcs[t := Peeking(o, st.objs[o].moves, SlotOf(st.pool.n, nd), [])])
  {
    assert [nd][1..] == [];
  }

  lemma ReadOne(st: State, t: nat) returns (st': State)
    requires SlotsInv(st) && t < |st.pcs| && st.pcs[t].Peeking? && Fresh(st, st.pcs[t])
    ensures Leads(st, [WaitRead(t, st.pcs[t].obj)], st') && (ReleaseInv(st) ==> ReleaseInv(st'))
    ensures st' == st.(pcs := st.pcs[t := Dropping(st.pcs[t].obj, st.pcs[t].slot, st.pcs[t].rest)])
  {
    st' := OneStep(st, WaitRead(t, st.pcs[t].obj));
  }

  /** Raising bits on a session adds them to its events; if it was not flagged it is now, and its id is queued if the
      write succeeds. */
  lemma PushAny(st: State, nd: nat, bits: set<nat>, written: bool) returns (st': State)
    requires SlotsInv(st) && nd > 0 && Found(st, nd) && LockFree(st.pcs, SlotOf(st.pool.n, nd))
    ensures Leads(st, [Push(Events, nd, bits, written)], st')
    ensures var o := FoundObj(st, nd);
            var x := st.objs[o];
            st' == st.(objs := st.objs[o := x.(events := x.events + bits, raised := x.raised + bits, inQueue := true,
                                               lostEvent := x.lostEvent || (!x.inQueue && !written))],
              eventQueue := if x.inQueue || !written then st.eventQueue else st.eventQueue + [Entry(nd, o)])
  {
    st' := OneStep(st, Push(Events, nd, bits, written));
  }

  /** Delaying a write flags the session for the other queue, and changes nothing of its events. */
  lemma DelayAny(st: State, nd: nat, written: bool) returns (st': State)
    requires SlotsInv(st) && nd > 0 && Found(st, nd) && LockFree(st.pcs, SlotOf(st.pool.n, nd))
    ensures Leads(st, [Push(Delays, nd, {}, written)], st')
    ensures var o := FoundObj(st, nd);
            var x := st.objs[o];
            st' == st.(objs := st.objs[o := x.(inDelay := true,
                                               lostDelay := x.lostDelay || (!x.inDelay && !written))],
              delayQueue := if x.inDelay || !written then st.delayQueue else st.delayQueue + [Entry(nd, o)])
  {
    PushedDelay(st.objs[FoundObj(st, nd)], written);
    DelayedState(st, nd, written);
    st' := OneStep(st, Push(Delays, nd, {}, written));
  }

  lemma PushedDelay(x: Session, written: bool)
    ensures Pushed(x, Delays, {}, written)
            == x.(inDelay := true, lostDelay := x.lostDelay || (!x.inDelay && !written))
  {
  }

  lemma DelayedState(st: State, nd: nat, written: bool)
    requires Enabled(st, Push(Delays, nd, {}, written)) && Found(st, nd)
    ensures var o := FoundObj(st, nd);
            DoPush(st, Delays, nd, {}, written)
            == st.(objs := st.objs[o := Pushed(st.objs[o], Delays, {}, written)],
              delayQueue := if st.objs[o].inDelay || !written then st.delayQueue
                            else st.delayQueue + [Entry(nd, o)])
  {
  }

  /** Raising a bit on a session that is not flagged yet queues its id. */
  lemma PushOne(st: State, nd: nat, bits: set<nat>) returns (st': State)
    requires SlotsInv(st) && nd > 0 && Found(st, nd) && LockFree(st.pcs, SlotOf(st.pool.n, nd))
             && !st.objs[FoundObj(st, nd)].inQueue
    ensures Leads(st, [Push(Events, nd, bits, true)], st')
    ensures var o := FoundObj(st, nd);
            st' == st.(objs := st.objs[o := Pushed(st.objs[o], Events, bits, true)],
              eventQueue := st.eventQueue + [Entry(nd, o)])
  {
    st' := OneStep(st, Push(Events, nd, bits, true));
  }

  lemma ReadQueueOne(st: State, t: nat) returns (st': State)
    requires SlotsInv(st) && t < |st.pcs| && st.pcs[t].Idle? && st.eventQueue != []
    ensures Leads(st, [Read(t, Events, 1)], st')
    ensures st' == st.(eventQueue := st.eventQueue[1..], pcs := st.pcs[t := Reading(Events, st.eventQueue[..1])])
  {
    st' := OneStep(st, Read(t, Events, 1));
  }

  /** Reading any number of entries takes them from the front, in order. */
  lemma ReadQueueAny(st: State, t: nat, kind: Kind, count: nat) returns (st': State)
    requires SlotsInv(st) && t < |st.pcs| && st.pcs[t].Idle? && 0 < count <= |Queue(st, kind)|
    ensures Leads(st, [NetProtocol.Read(t, kind, count)], st')
    ensures var q := Queue(st, kind);
            && st'.pcs == st.pcs[t := Reading(kind, q[..count])] && st'.objs == st.objs && st'.sessions == st.sessions
            && st'.eventQueue == (if kind.Events? then q[count..] else st.eventQueue)
            && st'.delayQueue == (if kind.Events? then st.delayQueue else q[count..])
  {
    st' := OneStep(st, NetProtocol.Read(t, kind, count));
  }

  /** Looking at any entry: the session it leads to is reported and not flagged any more, for an event its bits are
      gone, and the thread goes on with the entries behind it. */
  lemma ProcessAny(st: State, t: nat, kind: Kind, e: Entry, rest: seq<Entry>) returns (st': State)
    requires SlotsInv(st) && t < |st.pcs| && st.pcs[t] == Reading(kind, [e] + rest) && e.id > 0
    requires LockFree(st.pcs, SlotOf(st.pool.n, e.id))
    ensures Leads(st, [Process(t)], st')
    ensures st'.pcs == st.pcs[t := if rest == [] then Idle else Reading(kind, rest)]
    ensures st'.sessions == st.sessions && st'.eventQueue == st.eventQueue && st'.delayQueue == st.delayQueue
    ensures st'.objs == if !Found(st, e.id) then st.objs
                        else
                          var x := st.objs[FoundObj(st, e.id)];
                          st.objs[FoundObj(st, e.id) :=
                            if kind.Delays? then x.(inDelay := false)
                            else x.(inQueue := false, events := {}, delivered := x.delivered + x.events)]
  {
    assert ([e] + rest)[1..] == rest && ([e] + rest)[0] == e;
    st' := OneStep(st, Process(t));
  }

  /** Looking at the last entry of a batch. */
  lemma ProcessOne(st: State, t: nat, nd: nat, obj: nat) returns (st': State)
    requires SlotsInv(st) && t < |st.pcs| && st.pcs[t] == Reading(Events, [Entry(nd, obj)]) && nd > 0 && Found(st, nd)
    requires LockFree(st.pcs, SlotOf(st.pool.n, nd))
    ensures Leads(st, [Process(t)], st')
    ensures var o := FoundObj(st, nd);
            st' == st.(pcs := st.pcs[t := Idle], objs := st.objs[o := Reported(st.objs[o], Events)])
  {
    st' := OneStep(st, Process(t));
  }

  lemma LeadsFour(s0: State, a: seq<Action>, s1: State, b: seq<Action>, s2: State, c: seq<Action>, s3: State,
                  d: seq<Action>, s4: State)
    requires Leads(s0, a, s1) && Leads(s1, b, s2) && Leads(s2, c, s3) && Leads(s3, d, s4)
    ensures Leads(s0, a + b + c, s3) && Leads(s0, a + b + c + d, s4)
  {
    LeadsOn(s0, a, s1, b, s2);
    LeadsOn(s0, a + b, s2, c, s3);
    LeadsOn(s0, a + b + c, s3, d, s4);
  }

  // ---------------------------------------------------------------- many sessions open

  /** The session stands in the array under its own number for id. */
  ghost predicate Open(st: State, k: nat)
  {
    k > 0 && Found(st, k) && FoundObj(st, k) == k && st.objs[k].freed == 0
  }

  ghost predicate Calm(st: State, k: nat)
  {
    k in st.objs && Quiet(st.objs[k]) && !st.objs[k].lostEvent
  }

  /** Sessions 1 to `m` are open under their own numbers, in the first slots, and nothing else has happened. */
  ghost predicate OpenTo(st: State, n: Slots, threads: nat, m: nat)
  {
    && SlotsInv(st) && ReleaseInv(st) && |st.pcs| == threads && AllIdle(st.pcs) && st.closeRoot == Sound(SbTree.Leaf)
    && st.eventQueue == [] && st.pool.n == n && m <= n
    && |st.pool.free| == n - m && (forall i :: 0 <= i < n - m ==> st.pool.free[i] == m + i)
    && (forall i :: m <= i < n ==> st.pool.gens[i] == 0) && (forall i :: 0 <= i < m ==> st.pool.gens[i] == 1)
    && (forall o :: o in st.objs ==> 1 <= o <= m) && (forall k :: 1 <= k <= m ==> Open(st, k) && Calm(st, k))
  }

  ghost predicate AllIdle(pcs: seq<Pc>)
  {
    forall t :: 0 <= t < |pcs| ==> pcs[t] == Idle
  }

  /** Opening `m` sessions one after the other gives them the ids 1 to `m`. */
  lemma {:induction false} OpenMany(n: Slots, threads: nat, m: nat) returns (run: seq<Action>, st: State)
    requires m <= n && threads > 0
    ensures Leads(Start(n, threads), run, st) && OpenTo(st, n, threads, m)
  {
    if m == 0 {
      run, st := NoneOpen(n, threads);
    } else {
      var before, mid := OpenMany(n, threads, m - 1);
      var one;
      one, st := OpenNext(mid, n, threads, m);
      run := before + one;
      LeadsOn(Start(n, threads), before, mid, one, st);
    }
  }

  lemma NoneOpen(n: Slots, threads: nat) returns (run: seq<Action>, st: State)
    ensures Leads(Start(n, threads), run, st) && OpenTo(st, n, threads, 0)
  {
    run, st := [], Start(n, threads);
    StartRelease(n, threads);
  }

  lemma OpenNext(mid: State, n: Slots, threads: nat, m: nat) returns (run: seq<Action>, st: State)
    requires m > 0 && OpenTo(mid, n, threads, m - 1) && m <= n && threads > 0
    ensures Leads(mid, run, st) && OpenTo(st, n, threads, m)
  {
    MayOpen(mid, n, threads, m);
    run, st := OpenOneAt(mid, 0, m, m - 1);
    FirstValue(n, m - 1);
    OneMoreOpen(mid, st, n, threads, m);
  }

  lemma OpenOneAt(st: State, t: nat, obj: nat, s: nat) returns (run: seq<Action>, st': State)
    requires SlotsInv(st) && Enabled(st, Issue(t, obj)) && st.pool.free[0] == s && LockFree(st.pcs, s)
    ensures Leads(st, run, st') && (ReleaseInv(st) ==> ReleaseInv(st'))
    ensures s < st.pool.n && s < |st.pool.gens| && s < |st.sessions|
    ensures st' == st.(pool := TakeSlot(st.pool), sessions := st.sessions[s := Some(obj)],
                       objs := st.objs[obj := Opened(st.pool, s)])
  {
    run, st' := OpenOne(st, t, obj);
  }

  lemma MayOpen(mid: State, n: Slots, threads: nat, m: nat)
    requires m > 0 && OpenTo(mid, n, threads, m - 1) && m <= n && threads > 0
    ensures Enabled(mid, Issue(0, m)) && mid.pool.free[0] == m - 1 && LockFree(mid.pcs, m - 1)
    ensures m - 1 < |mid.pool.gens| && mid.pool.gens[m - 1] == 0
  {
    assert mid.pool.free[0] == m - 1;
  }

  lemma OneMoreOpen(mid: State, st: State, n: Slots, threads: nat, m: nat)
    requires m > 0 && OpenTo(mid, n, threads, m - 1) && m <= n && SlotsInv(st) && ReleaseInv(st)
    requires mid.pool.free[0] == m - 1 && Value(n, m - 1, 0) == m - 1
    requires st == mid.(pool := TakeSlot(mid.pool), sessions := mid.sessions[m - 1 := Some(m)],
                        objs := mid.objs[m := Opened(mid.pool, m - 1)])
    ensures OpenTo(st, n, threads, m)
  {
    OpenStays(mid, st, n, threads, m);
    forall i | 0 <= i < n - m ensures st.pool.free[i] == m + i {
      assert st.pool.free[i] == mid.pool.free[i + 1];
    }
  }

  lemma OpenStays(mid: State, st: State, n: Slots, threads: nat, m: nat)
    requires m > 0 && OpenTo(mid, n, threads, m - 1) && m <= n && SlotsInv(st)
    requires mid.pool.free[0] == m - 1 && Value(n, m - 1, 0) == m - 1
    requires st == mid.(pool := TakeSlot(mid.pool), sessions := mid.sessions[m - 1 := Some(m)],
                        objs := mid.objs[m := Opened(mid.pool, m - 1)])
    ensures forall k :: 1 <= k <= m ==> Open(st, k) && Calm(st, k)
  {
    forall k | 1 <= k <= m ensures Open(st, k) && Calm(st, k) {
      Arith.DivUnique(k - 1, n, 0, k - 1);
      if k < m { assert Open(mid, k) && Calm(mid, k); }
    }
  }
}
