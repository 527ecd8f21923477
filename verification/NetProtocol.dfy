/** Creation, closing and event delivery of sessions (engine/net/net_service.c and
    engine/net/epoll_service.c) as a transition system.  Any number of threads take steps; each step
    is one section that the source runs under a lock.  A session lock that stays held between two
    inner sections is visible in the program counter of its thread. */
module NetProtocol {
  import opened Options
  import opened Ffid
  import SbTree
  import SbTreeDamage

  /** The two id queues: events for `net_queue`, delayed writes for `net_delay`. */
  datatype Kind = Events | Delays

  /** A queued id.  The source stores the id alone; `obj` records for which session it was queued. */
  datatype Entry = Entry(id: nat, obj: nat)

  /** A session object.  `gen` counts how often its slot had been handed out before; `raised` and
      `delivered` collect the event bits pushed to it and reported for it; `lost` says that a queue
      write for it failed; `freed` counts its releases, and `moves` how often the tree node that held
      it was freed while its entry moved to another one. */
  datatype Session = Session(slot: nat, gen: nat, id: nat, events: set<nat>,
                             inQueue: bool, inDelay: bool, lostEvent: bool, lostDelay: bool,
                             raised: set<nat>, delivered: set<nat>, freed: nat, moves: nat)

  /** Where a thread stands between two locked sections. */
  datatype Pc =
    | Idle
    | Adding(obj: nat, slot: nat)              // id issued, session not yet installed
    | Parking(obj: nat, nd: nat, slot: nat)    // session taken out, lock held, not yet in close_root
    | Closing(nd: nat, slot: nat)              // session taken out, id not yet deleted
    | Fetched(ids: seq<nat>)                   // events from epoll_wait, not yet looked at
    | Peeking(obj: nat, moves: nat, slot: nat, rest: seq<nat>) // node found in close_root, lock held, not yet read
    | Dropping(obj: nat, slot: nat, rest: seq<nat>) // session read from the node, lock held, not yet released
    | Reading(kind: Kind, batch: seq<Entry>)   // queue entries read but not yet looked at

  type Objs = map<nat, Session>

  type Cells = seq<Option<nat>>

  /** `close_root`: the tree of engine/tool/sbtree.c with the id for key and the session for value.  Once a
      deletion has faulted its size fields are no longer exact. */
  datatype Root = Sound(tree: SbTree.Tree) | Damaged(raw: SbTreeDamage.Raw)

  datatype State = State(pool: Pool, sessions: Cells, objs: Objs, closeRoot: Root, pcs: seq<Pc>,
                         eventQueue: seq<Entry>, delayQueue: seq<Entry>, deletions: seq<(nat, nat)>)

  datatype Action =
    | Issue(t: nat, obj: nat)
    | Install(t: nat)
    | Close(t: nat, nd: nat, linger: bool)
    | Park(t: nat, stored: bool, after: SbTreeDamage.Raw)
    | DeleteId(t: nat)
    | Fetch(t: nat, ready: seq<nat>)
    | WaitFind(t: nat, nd: nat)
    | WaitRead(t: nat, obj: nat)
    | WaitKeep(t: nat)
    | Drop(t: nat, after: SbTreeDamage.Raw)
    | Push(kind: Kind, nd: nat, bits: set<nat>, written: bool)
    | Read(t: nat, kind: Kind, count: nat)
    | Process(t: nat)

  /** `ffid_index` */
  ghost function SlotOf(n: Slots, nd: nat): nat
    requires nd > 0
  {
    (nd - 1) % n
  }

  /** The id a slot was last handed out under, 0 if it never was. */
  ghost function IdOf(p: Pool, s: nat): nat
  {
    if s < p.n && s < |p.gens| && p.gens[s] > 0 then Value(p.n, s, p.gens[s] - 1) + 1 else 0
  }

  ghost function Queue(st: State, kind: Kind): seq<Entry>
  {
    if kind.Events? then st.eventQueue else st.delayQueue
  }

  ghost function WithQueue(st: State, kind: Kind, q: seq<Entry>): State
  {
    if kind.Events? then st.(eventQueue := q) else st.(delayQueue := q)
  }

  ghost function Flag(s: Session, kind: Kind): bool
  {
    if kind.Events? then s.inQueue else s.inDelay
  }

  ghost function WithFlag(s: Session, kind: Kind, b: bool): Session
  {
    if kind.Events? then s.(inQueue := b) else s.(inDelay := b)
  }

  ghost function Lost(s: Session, kind: Kind): bool
  {
    if kind.Events? then s.lostEvent else s.lostDelay
  }

  ghost function WithLost(s: Session, kind: Kind): Session
  {
    if kind.Events? then s.(lostEvent := true) else s.(lostDelay := true)
  }

  /** Nothing pending. */
  ghost predicate Quiet(x: Session)
  {
    !x.inQueue && !x.inDelay && x.events == {}
  }

  /** The slot whose id this thread is about to install or delete. */
  ghost function Owned(pc: Pc): int
  {
    if pc.Adding? || pc.Parking? || pc.Closing? then pc.slot else -1
  }

  /** The slot whose session lock this thread holds between two steps. */
  ghost function Held(pc: Pc): int
  {
    if pc.Parking? || pc.Peeking? || pc.Dropping? then pc.slot else -1
  }

  ghost predicate LockFree(pcs: seq<Pc>, s: int)
  {
    forall t :: 0 <= t < |pcs| ==> Held(pcs[t]) != s
  }

  /** `sessions[index]` is set and passes the test of `session->id` that every lookup makes. */
  ghost predicate Found(st: State, nd: nat)
  {
    nd > 0 &&
    var s := SlotOf(st.pool.n, nd);
    s < |st.sessions| && st.sessions[s].Some? && st.sessions[s].value in st.objs &&
    st.objs[st.sessions[s].value].id == nd
  }

  ghost function FoundObj(st: State, nd: nat): nat
    requires Found(st, nd)
  {
    st.sessions[SlotOf(st.pool.n, nd)].value
  }

  // ---------------------------------------------------------------- the tree of closed sessions

  /** `sb_tree_find` */
  ghost function RootFind(root: Root, nd: nat): Option<int>
  {
    match root
    case Sound(tree) => SbTree.Find(tree, nd)
    case Damaged(raw) => SbTreeDamage.RawFind(raw, nd)
  }

  /** What is stored, in order. */
  ghost function Stored(root: Root): seq<(nat, int)>
  {
    match root
    case Sound(tree) => SbTree.Entries(tree)
    case Damaged(raw) => SbTreeDamage.RawEntries(raw)
  }

  /** `sb_tree_insert`; what it makes of a damaged tree is left open. */
  ghost function RootInsert(root: Root, nd: nat, obj: nat, after: SbTreeDamage.Raw): Root
  {
    match root
    case Sound(tree) => Sound(SbTree.Insert(tree, nd, obj))
    case Damaged(_) => Damaged(after)
  }

  /** `sb_tree_delete`, whose answer the source ignores. */
  ghost function RootDelete(root: Root, nd: nat, after: SbTreeDamage.Raw): Root
  {
    match root
    case Damaged(_) => Damaged(after)
    case Sound(tree) =>
      match SbTree.Delete(tree, nd)
      case Fault => Damaged(SbTreeDamage.Faulted(tree, nd))
      case Absent(u) => Sound(u)
      case Removed(u) => Sound(u)
  }

  /** The session whose node a deletion frees, -1 if it frees none. */
  ghost function NodeFreed(root: Root, nd: nat): int
  {
    if root.Sound? && SbTree.Delete(root.tree, nd).Removed? then SbTree.FreedEntry(root.tree, nd).1 else -1
  }

  ghost function Moved(objs: Objs, o: int): Objs
  {
    if o >= 0 && o in objs then objs[o as nat := objs[o].(moves := objs[o].moves + 1)] else objs
  }

  /** The node a lookup found still holds the session it held then. */
  ghost predicate Fresh(st: State, pc: Pc)
    requires pc.Peeking?
  {
    pc.obj in st.objs && st.objs[pc.obj].moves == pc.moves
  }

  /** The file of the session may be in the epoll set: it is installed or lingers, and nothing has closed it. */
  ghost predicate HasFile(objs: Objs, o: nat)
  {
    o in objs && objs[o].id > 0 && objs[o].freed == 0
  }

  /** What `epoll_wait` may hand out at once: at most 32 events, and one for a file. */
  ghost predicate Ready(objs: Objs, ready: seq<nat>)
  {
    && 0 < |ready| <= 32 && (forall i :: 0 <= i < |ready| ==> HasFile(objs, ready[i]))
    && forall i, j :: 0 <= i < j < |ready| ==> ready[i] != ready[j]
  }

  /** Where a thread goes on after looking at an event. */
  ghost function AfterEvent(rest: seq<nat>): Pc
  {
    if rest == [] then Idle else Fetched(rest)
  }

  /** Whatever a damaged tree becomes, it holds nothing but what was put there. */
  ghost predicate NothingNew(root: Root, put: seq<(nat, int)>, after: SbTreeDamage.Raw)
  {
    root.Damaged? ==> forall x :: x in SbTreeDamage.RawEntries(after) ==> x in Stored(root) + put
  }

  ghost predicate Enabled(st: State, a: Action)
  {
    match a
    case Issue(t, obj) => t < |st.pcs| && st.pcs[t].Idle? && obj !in st.objs && st.pool.free != []
    case Install(t) => t < |st.pcs| && st.pcs[t].Adding? && LockFree(st.pcs, st.pcs[t].slot)
    case Close(t, nd, _) =>
      t < |st.pcs| && st.pcs[t].Idle? && nd > 0 && LockFree(st.pcs, SlotOf(st.pool.n, nd))
    case Park(t, _, after) =>
      t < |st.pcs| && st.pcs[t].Parking? && NothingNew(st.closeRoot, [(st.pcs[t].nd, st.pcs[t].obj)], after)
    case DeleteId(t) => t < |st.pcs| && st.pcs[t].Closing?
    case Fetch(t, ready) => t < |st.pcs| && st.pcs[t].Idle? && Ready(st.objs, ready)
    case WaitFind(t, nd) =>
      && t < |st.pcs| && st.pcs[t].Fetched? && st.pcs[t].ids != [] && st.pcs[t].ids[0] == nd > 0
      && LockFree(st.pcs, SlotOf(st.pool.n, nd))
    case WaitRead(t, obj) =>
      && t < |st.pcs| && st.pcs[t].Peeking? && obj in st.objs && (Fresh(st, st.pcs[t]) ==> obj == st.pcs[t].obj)
    case WaitKeep(t) => t < |st.pcs| && st.pcs[t].Dropping?
    case Drop(t, after) =>
      t < |st.pcs| && st.pcs[t].Dropping? && st.pcs[t].obj in st.objs && NothingNew(st.closeRoot, [], after)
    case Push(kind, nd, bits, _) =>
      nd > 0 && LockFree(st.pcs, SlotOf(st.pool.n, nd)) && (kind.Delays? ==> bits == {})
    case Read(t, kind, count) =>
      t < |st.pcs| && st.pcs[t].Idle? && 0 < count <= |Queue(st, kind)|
    case Process(t) =>
      && t < |st.pcs| && st.pcs[t].Reading? && st.pcs[t].batch != [] && st.pcs[t].batch[0].id > 0
      && LockFree(st.pcs, SlotOf(st.pool.n, st.pcs[t].batch[0].id))
  }

  // ---------------------------------------------------------------- the steps

  /** `add_net_session`, the section under `id_lock`. */
  ghost function DoIssue(st: State, t: nat, obj: nat): State
    requires PoolOk(st.pool) && Enabled(st, Issue(t, obj))
  {
    var s := st.pool.free[0];
    st.(pool := TakeSlot(st.pool),
        objs := st.objs[obj := Session(s, st.pool.gens[s], 0, {}, false, false, false, false, {}, {}, 0, 0)],
        pcs := st.pcs[t := Adding(obj, s)])
  }

  /** `add_net_session`, the section under the session lock. */
  ghost function DoInstall(st: State, t: nat): State
    requires Enabled(st, Install(t)) && st.pcs[t].slot < |st.sessions| && st.pcs[t].obj in st.objs
  {
    var (o, s) := (st.pcs[t].obj, st.pcs[t].slot);
    st.(sessions := st.sessions[s := Some(o)],
        objs := st.objs[o := st.objs[o].(id := IdOf(st.pool, s))],
        pcs := st.pcs[t := Idle])
  }

  /** `net_socket_close`, the section under the session lock, up to the insertion into `close_root`
      when unsent data lingers, else up to the release. */
  ghost function DoClose(st: State, t: nat, nd: nat, linger: bool): State
    requires Enabled(st, Close(t, nd, linger))
  {
    if !Found(st, nd) then st
    else
      var o, s := FoundObj(st, nd), SlotOf(st.pool.n, nd);
      if linger then
        st.(sessions := st.sessions[s := None], pcs := st.pcs[t := Parking(o, nd, s)])
      else
        st.(sessions := st.sessions[s := None], pcs := st.pcs[t := Closing(nd, s)],
            objs := st.objs[o := st.objs[o].(freed := st.objs[o].freed + 1)])
  }

  /** `net_socket_close`, the section under `close_lock`; the insertion stores nothing if it gets no
      memory for a node. */
  ghost function DoPark(st: State, t: nat, stored: bool, after: SbTreeDamage.Raw): State
    requires Enabled(st, Park(t, stored, after))
  {
    var pc := st.pcs[t];
    st.(closeRoot := if stored then RootInsert(st.closeRoot, pc.nd, pc.obj, after) else st.closeRoot,
        pcs := st.pcs[t := Closing(pc.nd, pc.slot)])
  }

  /** `net_socket_close`, the final section under `id_lock`. */
  ghost function DoDeleteId(st: State, t: nat): State
    requires PoolOk(st.pool) && Enabled(st, DeleteId(t)) && st.pcs[t].slot in st.pool.live
  {
    var s := st.pcs[t].slot;
    st.(pool := GiveSlot(st.pool, s), pcs := st.pcs[t := Idle],
        deletions := st.deletions + [(s, st.pool.gens[s] - 1)])
  }

  /** `epoll_wait` */
  ghost function DoFetch(st: State, t: nat, ready: seq<nat>): State
    requires Enabled(st, Fetch(t, ready))
  {
    st.(pcs := st.pcs[t := Fetched(seq(|ready|, i requires 0 <= i < |ready| => st.objs[ready[i]].id))])
  }

  /** `net_wait`, one event: if the session is still in the array, what is raised on it are steps of their own,
      else the id is looked up in `close_root`. */
  ghost function DoWaitFind(st: State, t: nat, nd: nat): State
    requires Enabled(st, WaitFind(t, nd))
  {
    var f, rest := RootFind(st.closeRoot, nd), st.pcs[t].ids[1..];
    var found := !Found(st, nd) && f.Some? && f.value >= 0 && f.value in st.objs;
    st.(pcs := st.pcs[t := if found then Peeking(f.value, st.objs[f.value].moves, SlotOf(st.pool.n, nd), rest)
                           else AfterEvent(rest)])
  }

  /** `net_wait` reads the session from the node after `close_lock` is given back.  If the node was freed in
      between, it may read anything. */
  ghost function DoWaitRead(st: State, t: nat, obj: nat): State
    requires Enabled(st, WaitRead(t, obj))
  {
    st.(pcs := st.pcs[t := Dropping(obj, st.pcs[t].slot, st.pcs[t].rest)])
  }

  /** `release_rest_session`: the id leaves `close_root`, and the session that was found is released. */
  ghost function DoDrop(st: State, t: nat, after: SbTreeDamage.Raw): State
    requires Enabled(st, Drop(t, after))
  {
    var o := st.pcs[t].obj;
    var nd := st.objs[o].id;
    var released := st.objs[o := st.objs[o].(freed := st.objs[o].freed + 1)];
    st.(closeRoot := RootDelete(st.closeRoot, nd, after), objs := Moved(released, NodeFreed(st.closeRoot, nd)),
        pcs := st.pcs[t := AfterEvent(st.pcs[t].rest)])
  }

  ghost function Pushed(s: Session, kind: Kind, bits: set<nat>, written: bool): Session
  {
    var s' := s.(events := s.events + bits, raised := s.raised + bits);
    if Flag(s, kind) then s'
    else if written then WithFlag(s', kind, true)
    else WithLost(WithFlag(s', kind, true), kind)
  }

  /** `push_queue` and `push_delay_queue`, for a session that a lookup has found. */
  ghost function DoPush(st: State, kind: Kind, nd: nat, bits: set<nat>, written: bool): State
    requires Enabled(st, Push(kind, nd, bits, written))
  {
    if !Found(st, nd) then st
    else
      var o := FoundObj(st, nd);
      var out := st.(objs := st.objs[o := Pushed(st.objs[o], kind, bits, written)]);
      if Flag(st.objs[o], kind) || !written then out
      else WithQueue(out, kind, Queue(st, kind) + [Entry(nd, o)])
  }

  /** `msg_buff_read` in `net_queue` or `net_delay`. */
  ghost function DoRead(st: State, t: nat, kind: Kind, count: nat): State
    requires Enabled(st, Read(t, kind, count))
  {
    WithQueue(st, kind, Queue(st, kind)[count..]).(pcs := st.pcs[t := Reading(kind, Queue(st, kind)[..count])])
  }

  ghost function Reported(s: Session, kind: Kind): Session
  {
    if kind.Events? then s.(delivered := s.delivered + s.events, events := {}, inQueue := false)
    else s.(inDelay := false)
  }

  ghost function AfterBatch(pc: Pc): Pc
    requires pc.Reading? && pc.batch != []
  {
    if |pc.batch| == 1 then Idle else Reading(pc.kind, pc.batch[1..])
  }

  /** One round of the loops in `net_queue` and `net_delay`. */
  ghost function DoProcess(st: State, t: nat): State
    requires Enabled(st, Process(t))
  {
    var e, kind := st.pcs[t].batch[0], st.pcs[t].kind;
    var out := st.(pcs := st.pcs[t := AfterBatch(st.pcs[t])]);
    if !Found(st, e.id) then out
    else out.(objs := st.objs[FoundObj(st, e.id) := Reported(st.objs[FoundObj(st, e.id)], kind)])
  }

  // ---------------------------------------------------------------- slots and ids

  /** The session is the one its slot was last handed out for, and that hand-out is not over. */
  ghost predicate Current(p: Pool, objs: Objs, o: nat, s: nat)
  {
    s in p.live && s < |p.gens| && o in objs && objs[o].slot == s && objs[o].gen + 1 == p.gens[s]
  }

  ghost predicate SameHandOut(a: Session, b: Session)
  {
    a.slot == b.slot && a.gen == b.gen
  }

  ghost predicate ObjOk(p: Pool, x: Session)
  {
    && x.slot < p.n && x.slot < |p.gens| && x.gen < p.gens[x.slot]
    && (x.id == 0 || x.id == Value(p.n, x.slot, x.gen) + 1)
  }

  ghost predicate ObjsOk(p: Pool, objs: Objs)
  {
    && (forall o :: o in objs ==> ObjOk(p, objs[o]))
    && (forall o, q :: o in objs && q in objs && SameHandOut(objs[o], objs[q]) ==> o == q)
  }

  /** A non-null array cell holds the session whose id is live and maps to that cell. */
  ghost predicate CellsOk(p: Pool, cells: Cells, objs: Objs)
  {
    && |cells| == p.n
    && (forall s :: 0 <= s < |cells| && cells[s].Some? ==>
          Current(p, objs, cells[s].value, s) && objs[cells[s].value].id == IdOf(p, s))
  }

  /** What each thread in the middle of an operation may rely on. */
  ghost predicate PcOk(p: Pool, cells: Cells, objs: Objs, pc: Pc)
  {
    && (Owned(pc) >= 0 ==> pc.slot < |cells| && pc.slot in p.live && cells[pc.slot].None?)
    && (pc.Adding? ==> Current(p, objs, pc.obj, pc.slot) && objs[pc.obj].id == 0)
    && (pc.Parking? || pc.Closing? ==> pc.nd == IdOf(p, pc.slot))
    && (pc.Parking? ==> Current(p, objs, pc.obj, pc.slot) && objs[pc.obj].id == pc.nd)
  }

  ghost predicate Exclusive(pcs: seq<Pc>)
  {
    forall t, u :: 0 <= t < u < |pcs| && Owned(pcs[t]) >= 0 ==> Owned(pcs[t]) != Owned(pcs[u])
  }

  ghost predicate ThreadsOk(p: Pool, cells: Cells, objs: Objs, pcs: seq<Pc>)
  {
    (forall t :: 0 <= t < |pcs| ==> PcOk(p, cells, objs, pcs[t])) && Exclusive(pcs)
  }

  /** Every call of `ffid_del_id` so far was for a different hand-out, which is over. */
  ghost predicate DeletionsOk(p: Pool, deletions: seq<(nat, nat)>)
  {
    && (forall i :: 0 <= i < |deletions| ==> Over(p, deletions[i]))
    && (forall i, j :: 0 <= i < j < |deletions| ==> deletions[i] != deletions[j])
  }

  ghost predicate Over(p: Pool, d: (nat, nat))
  {
    d.0 < |p.gens| && d.1 < p.gens[d.0] && (d.1 + 1 == p.gens[d.0] ==> d.0 !in p.live)
  }

  ghost predicate SlotsInv(st: State)
  {
    && PoolOk(st.pool) && st.pool.loop && ObjsOk(st.pool, st.objs)
    && CellsOk(st.pool, st.sessions, st.objs) && ThreadsOk(st.pool, st.sessions, st.objs, st.pcs)
    && DeletionsOk(st.pool, st.deletions)
  }

  /** One step; defined wherever the slot invariant holds. */
  ghost function Apply(st: State, a: Action): State
    requires SlotsInv(st) && Enabled(st, a)
  {
    match a
    case Issue(t, obj) => DoIssue(st, t, obj)
    case Install(t) => assert PcOk(st.pool, st.sessions, st.objs, st.pcs[t]); DoInstall(st, t)
    case Close(t, nd, linger) => DoClose(st, t, nd, linger)
    case Park(t, stored, after) => DoPark(st, t, stored, after)
    case DeleteId(t) => assert PcOk(st.pool, st.sessions, st.objs, st.pcs[t]); DoDeleteId(st, t)
    case Fetch(t, ready) => DoFetch(st, t, ready)
    case WaitFind(t, nd) => DoWaitFind(st, t, nd)
    case WaitRead(t, obj) => DoWaitRead(st, t, obj)
    case WaitKeep(t) => st.(pcs := st.pcs[t := AfterEvent(st.pcs[t].rest)])
    case Drop(t, after) => DoDrop(st, t, after)
    case Push(kind, nd, bits, written) => DoPush(st, kind, nd, bits, written)
    case Read(t, kind, count) => DoRead(st, t, kind, count)
    case Process(t) => DoProcess(st, t)
  }

  // ---------------------------------------------------------------- the slot invariant holds in every run

  /** The fields that tie a session to its slot. */
  ghost predicate SameIdentity(a: Objs, b: Objs)
  {
    a.Keys == b.Keys &&
    forall o :: o in a ==> a[o].slot == b[o].slot && a[o].gen == b[o].gen && a[o].id == b[o].id
  }

  lemma IdentityFrame(p: Pool, cells: Cells, objs: Objs, objs': Objs, pcs: seq<Pc>)
    requires ObjsOk(p, objs) && CellsOk(p, cells, objs) && ThreadsOk(p, cells, objs, pcs)
    requires SameIdentity(objs, objs')
    ensures ObjsOk(p, objs') && CellsOk(p, cells, objs') && ThreadsOk(p, cells, objs', pcs)
  {
    forall o, q | o in objs' && q in objs' && SameHandOut(objs'[o], objs'[q]) ensures o == q {
      assert SameHandOut(objs[o], objs[q]);
    }
    forall t | 0 <= t < |pcs| ensures PcOk(p, cells, objs', pcs[t]) {
      assert PcOk(p, cells, objs, pcs[t]);
    }
  }

  /** A thread may always move to a state that owns nothing, or to one that owns what it owned. */
  lemma ThreadMoves(p: Pool, cells: Cells, objs: Objs, pcs: seq<Pc>, t: nat, pc: Pc)
    requires ThreadsOk(p, cells, objs, pcs) && t < |pcs|
    requires Owned(pc) == -1 || Owned(pc) == Owned(pcs[t]) || forall u :: 0 <= u < |pcs| ==> Owned(pcs[u]) != Owned(pc)
    requires PcOk(p, cells, objs, pc)
    ensures ThreadsOk(p, cells, objs, pcs[t := pc])
  {
    var pcs' := pcs[t := pc];
    forall u | 0 <= u < |pcs'| ensures PcOk(p, cells, objs, pcs'[u]) {
      if u != t { assert PcOk(p, cells, objs, pcs[u]); }
    }
  }

  lemma IssueObjs(p: Pool, objs: Objs, obj: nat, x: Session)
    requires PoolOk(p) && p.free != [] && ObjsOk(p, objs) && obj !in objs
    requires x.slot == p.free[0] && x.gen == p.gens[p.free[0]] && x.id == 0
    ensures ObjsOk(TakeSlot(p), objs[obj := x])
  {
    var q, objs' := TakeSlot(p), objs[obj := x];
    forall o | o in objs' ensures ObjOk(q, objs'[o]) {
      if o != obj { assert ObjOk(p, objs[o]); }
    }
    forall o, r | o in objs' && r in objs' && SameHandOut(objs'[o], objs'[r]) ensures o == r {
      if o != obj { assert ObjOk(p, objs[o]); }
      if r != obj { assert ObjOk(p, objs[r]); }
    }
  }

  lemma IssueRest(p: Pool, cells: Cells, objs: Objs, pcs: seq<Pc>, dels: seq<(nat, nat)>, obj: nat, x: Session)
    requires PoolOk(p) && p.free != [] && obj !in objs
    requires CellsOk(p, cells, objs) && ThreadsOk(p, cells, objs, pcs) && DeletionsOk(p, dels)
    requires x.slot == p.free[0] && x.gen == p.gens[p.free[0]]
    ensures cells[p.free[0]].None? && forall u :: 0 <= u < |pcs| ==> Owned(pcs[u]) != p.free[0]
    ensures CellsOk(TakeSlot(p), cells, objs[obj := x])
    ensures ThreadsOk(TakeSlot(p), cells, objs[obj := x], pcs)
    ensures DeletionsOk(TakeSlot(p), dels)
    ensures Current(TakeSlot(p), objs[obj := x], obj, p.free[0])
  {
    var q, s := TakeSlot(p), p.free[0];
    assert s !in p.live;
    forall u | 0 <= u < |pcs| ensures Owned(pcs[u]) != s && PcOk(q, cells, objs[obj := x], pcs[u]) {
      assert PcOk(p, cells, objs, pcs[u]);
    }
    forall i | 0 <= i < |dels| ensures Over(q, dels[i]) {
      assert Over(p, dels[i]);
    }
  }

  lemma IssueSlots(st: State, t: nat, obj: nat)
    requires SlotsInv(st) && Enabled(st, Issue(t, obj))
    ensures SlotsInv(DoIssue(st, t, obj))
  {
    TakeSlotOk(st.pool);
    var s := st.pool.free[0];
    var x := Session(s, st.pool.gens[s], 0, {}, false, false, false, false, {}, {}, 0, 0);
    IssueObjs(st.pool, st.objs, obj, x);
    IssueRest(st.pool, st.sessions, st.objs, st.pcs, st.deletions, obj, x);
    ThreadMoves(TakeSlot(st.pool), st.sessions, st.objs[obj := x], st.pcs, t, Adding(obj, s));
  }

  /** Installing: the cell is empty, so no live session is overwritten. */
  lemma InstallSlots(st: State, t: nat)
    requires SlotsInv(st) && Enabled(st, Install(t))
    ensures st.sessions[st.pcs[t].slot].None?
    ensures SlotsInv(Apply(st, Install(t)))
  {
    var pc := st.pcs[t];
    assert PcOk(st.pool, st.sessions, st.objs, pc);
    InstallObjs(st, t, pc.obj, pc.slot);
    InstallThreads(st, t, pc.obj, pc.slot);
  }

  lemma InstallObjs(st: State, t: nat, o: nat, s: nat)
    requires SlotsInv(st) && Enabled(st, Install(t)) && o == st.pcs[t].obj && s == st.pcs[t].slot
    ensures var st' := Apply(st, Install(t));
            ObjsOk(st'.pool, st'.objs) && CellsOk(st'.pool, st'.sessions, st'.objs)
  {
    assert PcOk(st.pool, st.sessions, st.objs, st.pcs[t]);
    var objs' := st.objs[o := st.objs[o].(id := IdOf(st.pool, s))];
    forall q | q in objs' ensures ObjOk(st.pool, objs'[q]) {
      assert ObjOk(st.pool, st.objs[q]);
    }
    forall q, r | q in objs' && r in objs' && SameHandOut(objs'[q], objs'[r]) ensures q == r {
      assert SameHandOut(st.objs[q], st.objs[r]);
    }
  }

  lemma InstallThreads(st: State, t: nat, o: nat, s: nat)
    requires SlotsInv(st) && Enabled(st, Install(t)) && o == st.pcs[t].obj && s == st.pcs[t].slot
    ensures var st' := Apply(st, Install(t));
            ThreadsOk(st'.pool, st'.sessions, st'.objs, st'.pcs)
  {
    assert PcOk(st.pool, st.sessions, st.objs, st.pcs[t]);
    var st' := Apply(st, Install(t));
    forall u | 0 <= u < |st.pcs| && u != t ensures PcOk(st.pool, st'.sessions, st'.objs, st.pcs[u]) {
      assert PcOk(st.pool, st.sessions, st.objs, st.pcs[u]);
      assert Owned(st.pcs[u]) != s;
      if Owned(st.pcs[u]) >= 0 && !st.pcs[u].Closing? { assert st.pcs[u].obj != o; }
    }
  }

  lemma CloseSlots(st: State, t: nat, nd: nat, linger: bool)
    requires SlotsInv(st) && Enabled(st, Close(t, nd, linger))
    ensures SlotsInv(DoClose(st, t, nd, linger))
  {
    if Found(st, nd) {
      var o, s := FoundObj(st, nd), SlotOf(st.pool.n, nd);
      assert Current(st.pool, st.objs, o, s);
      var cells' := st.sessions[s := None];
      forall u | 0 <= u < |st.pcs| ensures PcOk(st.pool, cells', st.objs, st.pcs[u]) && Owned(st.pcs[u]) != s {
        assert PcOk(st.pool, st.sessions, st.objs, st.pcs[u]);
      }
      ThreadMoves(st.pool, cells', st.objs, st.pcs, t, if linger then Parking(o, nd, s) else Closing(nd, s));
      var st' := DoClose(st, t, nd, linger);
      IdentityFrame(st.pool, cells', st.objs, st'.objs, st'.pcs);
    }
  }

  lemma ParkSlots(st: State, t: nat, stored: bool, after: SbTreeDamage.Raw)
    requires SlotsInv(st) && Enabled(st, Park(t, stored, after))
    ensures SlotsInv(DoPark(st, t, stored, after))
  {
    assert PcOk(st.pool, st.sessions, st.objs, st.pcs[t]);
    ThreadMoves(st.pool, st.sessions, st.objs, st.pcs, t, Closing(st.pcs[t].nd, st.pcs[t].slot));
  }

  /** `ffid_del_id` gets a live id, and never one it got before for the same hand-out. */
  lemma DeleteIdSlots(st: State, t: nat)
    requires SlotsInv(st) && Enabled(st, DeleteId(t))
    ensures var pc := st.pcs[t];
            pc.nd > 0 && IsLive(st.pool, pc.nd - 1) && pc.slot == SlotOf(st.pool.n, pc.nd)
    ensures SlotsInv(Apply(st, DeleteId(t)))
  {
    var pc := st.pcs[t];
    assert PcOk(st.pool, st.sessions, st.objs, pc);
    var p, s := st.pool, pc.slot;
    GiveSlotOk(p, s);
    var q := GiveSlot(p, s);
    forall u | 0 <= u < |st.pcs| && u != t ensures PcOk(q, st.sessions, st.objs, st.pcs[u]) {
      assert PcOk(p, st.sessions, st.objs, st.pcs[u]);
      assert Owned(st.pcs[u]) != s;
    }
    forall o | o in st.objs ensures ObjOk(q, st.objs[o]) {
      assert ObjOk(p, st.objs[o]);
    }
    var d := (s, p.gens[s] - 1);
    forall i | 0 <= i < |st.deletions| ensures Over(q, st.deletions[i]) && st.deletions[i] != d {
      assert Over(p, st.deletions[i]);
    }
  }

  lemma NeutralMove(st: State, t: nat, pc: Pc)
    requires SlotsInv(st) && t < |st.pcs| && Owned(pc) == -1
    ensures ThreadsOk(st.pool, st.sessions, st.objs, st.pcs[t := pc])
  {
    ThreadMoves(st.pool, st.sessions, st.objs, st.pcs, t, pc);
  }

  /** Every step of every thread keeps the slot invariant. */
  lemma StepKeepsSlots(st: State, a: Action)
    requires SlotsInv(st) && Enabled(st, a)
    ensures SlotsInv(Apply(st, a))
  {
    match a {
      case Issue(t, obj) => IssueSlots(st, t, obj);
      case Install(t) => InstallSlots(st, t);
      case Close(t, nd, linger) => CloseSlots(st, t, nd, linger);
      case Park(t, stored, after) => ParkSlots(st, t, stored, after);
      case DeleteId(t) => DeleteIdSlots(st, t);
      case Fetch(t, ready) => NeutralMove(st, t, DoFetch(st, t, ready).pcs[t]);
      case WaitFind(t, nd) => NeutralMove(st, t, DoWaitFind(st, t, nd).pcs[t]);
      case WaitRead(t, obj) => NeutralMove(st, t, DoWaitRead(st, t, obj).pcs[t]);
      case WaitKeep(t) => NeutralMove(st, t, AfterEvent(st.pcs[t].rest));
      case Drop(t, after) => DropSlots(st, t, after);
      case Push(kind, nd, bits, written) => PushSlots(st, kind, nd, bits, written);
      case Read(t, kind, count) => NeutralMove(st, t, Reading(kind, Queue(st, kind)[..count]));
      case Process(t) => ProcessSlots(st, t);
    }
  }

  lemma DropSlots(st: State, t: nat, after: SbTreeDamage.Raw)
    requires SlotsInv(st) && Enabled(st, Drop(t, after))
    ensures SlotsInv(DoDrop(st, t, after))
  {
    NeutralMove(st, t, AfterEvent(st.pcs[t].rest));
    var st' := DoDrop(st, t, after);
    IdentityFrame(st.pool, st.sessions, st.objs, st'.objs, st'.pcs);
  }

  lemma PushSlots(st: State, kind: Kind, nd: nat, bits: set<nat>, written: bool)
    requires SlotsInv(st) && Enabled(st, Push(kind, nd, bits, written))
    ensures SlotsInv(DoPush(st, kind, nd, bits, written))
  {
    var st' := DoPush(st, kind, nd, bits, written);
    IdentityFrame(st.pool, st.sessions, st.objs, st'.objs, st'.pcs);
  }

  lemma ProcessSlots(st: State, t: nat)
    requires SlotsInv(st) && Enabled(st, Process(t))
    ensures SlotsInv(DoProcess(st, t))
  {
    NeutralMove(st, t, AfterBatch(st.pcs[t]));
    var st' := DoProcess(st, t);
    IdentityFrame(st.pool, st.sessions, st.objs, st'.objs, st'.pcs);
  }

  // ---------------------------------------------------------------- runs

  ghost function Start(n: Slots, threads: nat): (st: State)
    ensures SlotsInv(st)
  {
    InitialOk(n, true);
    State(Initial(n, true), seq(n, i => None), map[], Sound(SbTree.Leaf), seq(threads, i => Idle), [], [], [])
  }

  /** The state after a run, or `None` if some step of it is not enabled. */
  ghost function Exec(st: State, run: seq<Action>): (o: Option<State>)
    requires SlotsInv(st)
    ensures o.Some? ==> SlotsInv(o.value)
    decreases |run|
  {
    if run == [] then Some(st)
    else if !Enabled(st, run[0]) then None
    else
      StepKeepsSlots(st, run[0]);
      Exec(Apply(st, run[0]), run[1..])
  }
}
