/** Whole runs of the id pool that delete only live ids. */
module FfidRuns {
  import opened Arith
  import opened Ffid

  datatype Op = New | Del(slot: nat)

  /** The pool, the hand-outs so far (slot and how often it had been handed out before), and the slots
      that went back to the free list. */
  datatype Run = Run(pool: Pool, issued: seq<(nat, nat)>, returned: seq<nat>)

  datatype Outcome = Bad | Good(run: Run)

  ghost function Step(r: Run, op: Op): (o: Outcome)
    requires PoolOk(r.pool)
    ensures o.Good? ==> PoolOk(o.run.pool)
  {
    match op
    case New =>
      if r.pool.free == [] then Good(r)
      else
        TakeSlotOk(r.pool);
        var s := r.pool.free[0];
        Good(Run(TakeSlot(r.pool), r.issued + [(s, r.pool.gens[s])], r.returned))
    case Del(s) =>
      if s !in r.pool.live then Bad
      else
        GiveSlotOk(r.pool, s);
        var q := GiveSlot(r.pool, s);
        Good(Run(q, r.issued, if q.free == r.pool.free then r.returned else r.returned + [s]))
  }

  /** The state after a run from the initial pool; `Bad` when it deletes a slot that is not live. */
  ghost function Exec(n: Slots, loop: bool, ops: seq<Op>): (o: Outcome)
    ensures o.Good? ==> PoolOk(o.run.pool)
  {
    if ops == [] then Start(n, loop)
    else
      var before := Exec(n, loop, ops[..|ops| - 1]);
      if before.Bad? then Bad else Step(before.run, ops[|ops| - 1])
  }

  ghost function Start(n: Slots, loop: bool): (o: Outcome)
    ensures o.Good? && PoolOk(o.run.pool)
  {
    InitialOk(n, loop);
    Good(Run(Initial(n, loop), [], []))
  }

  ghost function SlotsOf(issued: seq<(nat, nat)>): seq<nat>
  {
    seq(|issued|, i requires 0 <= i < |issued| => issued[i].0)
  }

  ghost predicate RunOk(r: Run, n: Slots, loop: bool)
  {
    && PoolOk(r.pool) && r.pool.n == n && r.pool.loop == loop
    && IssuedInOrder(r.issued, r.pool.gens)
    && SlotsOf(r.issued) + r.pool.free == Initial(n, loop).free + r.returned
  }

  /** The hand-outs of a slot are numbered consecutively from 0 in the order they happened. */
  ghost predicate IssuedInOrder(issued: seq<(nat, nat)>, gens: seq<nat>)
  {
    && (forall i :: 0 <= i < |issued| ==> issued[i].0 < |gens| && issued[i].1 < gens[issued[i].0])
    && (forall i, j :: 0 <= i < j < |issued| && issued[i].0 == issued[j].0 ==> issued[i].1 < issued[j].1)
    && (forall s: nat, k: nat :: s < |gens| && k < gens[s] ==> (s, k) in issued)
  }

  lemma InitialRunOk(n: Slots, loop: bool)
    ensures RunOk(Run(Initial(n, loop), [], []), n, loop)
  {
    InitialOk(n, loop);
    assert SlotsOf([]) + Initial(n, loop).free == Initial(n, loop).free + [];
  }

  lemma {:induction false} ExecOk(n: Slots, loop: bool, ops: seq<Op>)
    requires Exec(n, loop, ops).Good?
    ensures RunOk(Exec(n, loop, ops).run, n, loop)
  {
    if ops == [] {
      InitialRunOk(n, loop);
    } else {
      ExecOk(n, loop, ops[..|ops| - 1]);
      var before := Exec(n, loop, ops[..|ops| - 1]).run;
      if ops[|ops| - 1].New? { NewOk(before, n, loop); } else { DelOk(before, ops[|ops| - 1].slot, n, loop); }
    }
  }

  lemma NewOk(r: Run, n: Slots, loop: bool)
    requires RunOk(r, n, loop)
    ensures RunOk(Step(r, New).run, n, loop)
  {
    if r.pool.free != [] {
      TakeSlotOk(r.pool);
      var r', s := Step(r, New).run, r.pool.free[0];
      IssueOne(r.issued, r.pool.gens, s);
      assert SlotsOf(r'.issued) == SlotsOf(r.issued) + [s];
      MoveAcross(SlotsOf(r.issued), r.pool.free);
    }
  }

  lemma MoveAcross(a: seq<nat>, b: seq<nat>)
    requires b != []
    ensures (a + [b[0]]) + b[1..] == a + b
  {
  }

  lemma DelOk(r: Run, s: nat, n: Slots, loop: bool)
    requires RunOk(r, n, loop) && Step(r, Del(s)).Good?
    ensures RunOk(Step(r, Del(s)).run, n, loop)
  {
    GiveSlotOk(r.pool, s);
    var q := GiveSlot(r.pool, s);
    if q.free != r.pool.free {
      AppendBoth(SlotsOf(r.issued), r.pool.free, Initial(n, loop).free, r.returned, s);
    }
  }

  lemma AppendBoth(a: seq<nat>, b: seq<nat>, c: seq<nat>, d: seq<nat>, x: nat)
    requires a + b == c + d
    ensures a + (b + [x]) == c + (d + [x])
  {
    assert a + (b + [x]) == (a + b) + [x];
    assert c + (d + [x]) == (c + d) + [x];
  }

  lemma IssueOne(issued: seq<(nat, nat)>, gens: seq<nat>, s: nat)
    requires IssuedInOrder(issued, gens) && s < |gens|
    ensures IssuedInOrder(issued + [(s, gens[s])], gens[s := gens[s] + 1])
  {
    var issued', gens' := issued + [(s, gens[s])], gens[s := gens[s] + 1];
    assert issued'[|issued|] == (s, gens[s]);
    forall t: nat, k: nat | t < |gens'| && k < gens'[t] ensures (t, k) in issued' {
      if (t, k) != (s, gens[s]) { assert (t, k) in issued; }
    }
  }

  /** The id of the i-th hand-out, as `ffid_new_id` returns it. */
  ghost function IssuedId(r: Run, n: Slots, i: nat): nat
    requires i < |r.issued| && r.issued[i].0 < n
  {
    Value(n, r.issued[i].0, r.issued[i].1) + 1
  }

  /** Without looping no id is ever issued twice. */
  lemma NoIdTwice(n: Slots, ops: seq<Op>, i: nat, j: nat)
    requires Exec(n, false, ops).Good?
    requires i < j < |Exec(n, false, ops).run.issued|
    ensures forall k :: k in {i, j} ==> Exec(n, false, ops).run.issued[k].0 < n
    ensures IssuedId(Exec(n, false, ops).run, n, i) != IssuedId(Exec(n, false, ops).run, n, j)
  {
    ExecOk(n, false, ops);
    var r := Exec(n, false, ops).run;
    var (s, k1) := r.issued[i];
    var (t, k2) := r.issued[j];
    if IssuedId(r, n, i) == IssuedId(r, n, j) {
      ValuesDiffer(n, s, k1, t, k2);
      var c := Cycle(n, s);
      assert k1 < k2 < r.pool.gens[s] <= c;
      DivUnique(k1, c, 0, k1);
      DivUnique(k2, c, 0, k2);
      assert false;
    }
  }

  /** If an id is issued twice, every value of its slot below the limit was issued in between. */
  lemma WholeCycleBeforeRepeat(n: Slots, loop: bool, ops: seq<Op>, i: nat, j: nat, v: nat) returns (m: nat)
    requires Exec(n, loop, ops).Good?
    requires i < j < |Exec(n, loop, ops).run.issued|
    requires forall k :: k in {i, j} ==> Exec(n, loop, ops).run.issued[k].0 < n
    requires IssuedId(Exec(n, loop, ops).run, n, i) == IssuedId(Exec(n, loop, ops).run, n, j)
    requires v < LIMIT && v % n == Exec(n, loop, ops).run.issued[i].0
    ensures i <= m < j && Exec(n, loop, ops).run.issued[m].0 < n
    ensures IssuedId(Exec(n, loop, ops).run, n, m) == v + 1
  {
    ExecOk(n, loop, ops);
    var r := Exec(n, loop, ops).run;
    m := CycleInIssues(r.issued, r.pool.gens, n, i, j, v);
  }

  lemma CycleInIssues(issued: seq<(nat, nat)>, gens: seq<nat>, n: Slots, i: nat, j: nat, v: nat) returns (m: nat)
    requires IssuedInOrder(issued, gens) && |gens| == n && i < j < |issued|
    requires Value(n, issued[i].0, issued[i].1) == Value(n, issued[j].0, issued[j].1)
    requires v < LIMIT && v % n == issued[i].0
    ensures i <= m < j && issued[m].0 == issued[i].0 && Value(n, issued[m].0, issued[m].1) == v
  {
    var (s, k1) := issued[i];
    var (t, k2) := issued[j];
    ValuesDiffer(n, s, k1, t, k2);
    var k := ValueTurn(n, s, k1, v);
    SameRemainderApart(k1, k2, Cycle(n, s));
    m := FindIssue(issued, gens, s, k);
    InOrderBetween(issued, gens, i, m, j);
  }

  /** The turn, within one cycle from turn `k`, at which a slot is given a value of its own. */
  lemma ValueTurn(n: Slots, s: nat, k: nat, v: nat) returns (k': nat)
    requires s < n && v < LIMIT && v % n == s
    ensures k <= k' < k + Cycle(n, s) && Value(n, s, k') == v
  {
    DivBounds(v, n);
    ValueBounds(n, s, v / n);
    k' := NextWithRemainder(k, Cycle(n, s), v / n);
  }

  lemma FindIssue(issued: seq<(nat, nat)>, gens: seq<nat>, s: nat, k: nat) returns (m: nat)
    requires IssuedInOrder(issued, gens) && s < |gens| && k < gens[s]
    ensures m < |issued| && issued[m] == (s, k)
  {
    assert (s, k) in issued;
    m :| 0 <= m < |issued| && issued[m] == (s, k);
  }

  lemma InOrderBetween(issued: seq<(nat, nat)>, gens: seq<nat>, i: nat, m: nat, j: nat)
    requires IssuedInOrder(issued, gens) && i < |issued| && m < |issued| && j < |issued|
    requires issued[i].0 == issued[m].0 == issued[j].0
    requires issued[i].1 <= issued[m].1 < issued[j].1
    ensures i <= m < j
  {
  }

  lemma NextWithRemainder(k: nat, c: nat, q: nat) returns (k': nat)
    requires q < c
    ensures k <= k' < k + c && k' % c == q
  {
    var a, r := k / c, k % c;
    DivBounds(k, c);
    if q >= r {
      k' := k + (q - r);
      DivUnique(k', c, a, q);
    } else {
      k' := k + (q + c - r);
      MulMonotonic(c, a, a);
      DivUnique(k', c, a + 1, q);
    }
  }

  lemma SameRemainderApart(a: nat, b: nat, c: nat)
    requires a < b && c > 0 && a % c == b % c
    ensures b >= a + c
  {
    DivBounds(a, c);
    DivBounds(b, c);
    if b < a + c {
      MulMonotonic(c, a / c, a / c);
      if b / c > a / c { MulMonotonic(c, a / c + 1, b / c); } else { MulMonotonic(c, b / c, a / c); }
    }
  }

  /** Slots are handed out in the order they became free: the hand-outs, followed by the slots still
      free, are the initial slots followed by the returned ones. */
  lemma FirstInFirstOut(n: Slots, loop: bool, ops: seq<Op>)
    requires Exec(n, loop, ops).Good?
    ensures var r := Exec(n, loop, ops).run;
            SlotsOf(r.issued) + r.pool.free == seq(n, i => i) + r.returned
  {
    ExecOk(n, loop, ops);
  }

  /** Every slot is live, free or retired, and never two of these; with looping none is retired. */
  lemma SlotsPartition(n: Slots, loop: bool, ops: seq<Op>, s: nat)
    requires Exec(n, loop, ops).Good? && s < n
    ensures var p := Exec(n, loop, ops).run.pool;
            && |p.gens| == p.n
            && (s in p.live || s in p.free || Retired(p, s))
            && !(s in p.live && s in p.free) && (Retired(p, s) ==> s !in p.live && s !in p.free)
            && (loop ==> s in p.live || s in p.free)
  {
    ExecOk(n, loop, ops);
    var p := Exec(n, loop, ops).run.pool;
    assert forall i :: 0 <= i < |p.free| ==> p.free[i] !in p.live;
  }

  /** A retired slot has been given every value it owns. */
  lemma RetiredUsedUp(n: Slots, loop: bool, ops: seq<Op>, s: nat, v: nat) returns (i: nat)
    requires Exec(n, loop, ops).Good? && s < n
    requires s !in Exec(n, loop, ops).run.pool.live && s !in Exec(n, loop, ops).run.pool.free
    requires v < LIMIT && v % n == s
    ensures i < |Exec(n, loop, ops).run.issued| && Exec(n, loop, ops).run.issued[i].0 == s
    ensures IssuedId(Exec(n, loop, ops).run, n, i) == v + 1
  {
    ExecOk(n, loop, ops);
    var r := Exec(n, loop, ops).run;
    assert Retired(r.pool, s);
    var k := ValueTurn(n, s, 0, v);
    i := FindIssue(r.issued, r.pool.gens, s, k);
  }

  /** In every run the slots that are not free, which is what `ffid_size` counts, are the live ones exactly while
      no slot is retired. */
  lemma SizeCountsRetired(n: Slots, loop: bool, ops: seq<Op>)
    requires Exec(n, loop, ops).Good?
    ensures var p := Exec(n, loop, ops).run.pool;
            && n - |p.free| == |p.live| + |RetiredSlots(p)|
            && (n - |p.free| == |p.live| <==> forall s: nat :: s < n ==> !Retired(p, s))
  {
    ExecOk(n, loop, ops);
    SlotsCounted(Exec(n, loop, ops).run.pool);
  }

  /** A run without looping that retires the first slot while the other slots are live: `ffid_size` is then the
      number of all slots, one more than there are live ids. */
  lemma RetiringRun(n: Slots) returns (ops: seq<Op>)
    ensures Exec(n, false, ops).Good?
    ensures var p := Exec(n, false, ops).run.pool;
            |p.gens| == n && Retired(p, 0) && n - |p.free| == n == |p.live| + 1
  {
    var used := UseUp(n, Cycle(n, 0));
    ops := used + [Del(0)];
    assert ops[..|ops| - 1] == used && ops[|ops| - 1] == Del(0);
    ExecOk(n, false, ops);
    SlotsCounted(Exec(n, false, ops).run.pool);
    RangeCount(n);
    assert Exec(n, false, ops).run.pool.live == Range(n) - {0};
  }

  /** Only the first slot has been handed out more than once, and nothing is free. */
  ghost predicate FirstTurn(p: Pool, n: Slots, k: nat)
  {
    PoolOk(p) && p.n == n && !p.loop && p.free == [] && p.gens[0] == k && forall s: nat :: s in p.live <==> s < n
  }

  lemma {:induction false} HandOutAll(n: Slots, m: nat) returns (ops: seq<Op>)
    requires m <= n
    ensures Exec(n, false, ops).Good?
    ensures var p := Exec(n, false, ops).run.pool;
            && p.n == n && !p.loop && p.free == Initial(n, false).free[m..]
            && (forall s: nat :: s in p.live <==> s < m) && |p.gens| == n && p.gens[0] == if m > 0 then 1 else 0
  {
    if m == 0 {
      ops := [];
    } else {
      var before := HandOutAll(n, m - 1);
      ops := before + [New];
      assert ops[..|ops| - 1] == before && ops[|ops| - 1] == New;
      var p := Exec(n, false, before).run.pool;
      assert p.free[0] == m - 1;
    }
  }

  /** The first slot goes back and is handed out again until it has had `k` values. */
  lemma {:induction false} UseUp(n: Slots, k: nat) returns (ops: seq<Op>)
    requires 0 < k <= Cycle(n, 0)
    ensures Exec(n, false, ops).Good? && FirstTurn(Exec(n, false, ops).run.pool, n, k)
  {
    if k == 1 {
      ops := HandOutAll(n, n);
    } else {
      var before := UseUp(n, k - 1);
      var given := before + [Del(0)];
      ops := given + [New];
      assert given[..|given| - 1] == before && given[|given| - 1] == Del(0);
      assert ops[..|ops| - 1] == given && ops[|ops| - 1] == New;
      TurnAgain(Exec(n, false, before).run.pool, n, k - 1);
    }
  }

  lemma TurnAgain(p: Pool, n: Slots, k: nat)
    requires FirstTurn(p, n, k) && k < Cycle(n, 0)
    ensures var q := GiveSlot(p, 0);
            PoolOk(q) && q.free == [0] && FirstTurn(TakeSlot(q), n, k + 1)
  {
    GiveSlotOk(p, 0);
    TakeSlotOk(GiveSlot(p, 0));
  }
}
