/** The generational ids of engine/tool/ffid.c: a fixed number of slots, a free list threaded through
    the id array, and a new id value for every time a slot is handed out. */
module Ffid {
  import opened Arith

  /** `max_limit`: the largest 32-bit value, which marks the end of the free list. */
  const LIMIT: nat := 0xFFFF_FFFF

  type Slots = n: nat | 1 <= n <= 0xFFFF witness 1

  /** How many values below the limit belong to a slot. */
  ghost function Cycle(n: Slots, slot: nat): (c: nat)
    requires slot < n
    ensures c > 0
  {
    (LIMIT - 1 - slot) / n + 1
  }

  /** The value a slot is given the k-th time it is handed out. */
  ghost function Value(n: Slots, slot: nat, k: nat): (v: nat)
    requires slot < n
    ensures v < LIMIT && v % n == slot
  {
    ValueBounds(n, slot, k % Cycle(n, slot));
    slot + n * (k % Cycle(n, slot))
  }

  lemma ValueBounds(n: Slots, slot: nat, j: nat)
    requires slot < n
    ensures j < Cycle(n, slot) <==> slot + n * j < LIMIT
    ensures (slot + n * j) % n == slot
  {
    StridesBelow(LIMIT - 1 - slot, n, j);
    ModOfSum(n, slot, j);
  }

  lemma StridesBelow(room: nat, n: nat, j: nat)
    requires n > 0
    ensures j <= room / n <==> n * j <= room
  {
    var q := room / n;
    DivBounds(room, n);
    if j <= q { MulMonotonic(n, j, q); } else { MulMonotonic(n, q + 1, j); MulMonotonic(n, q, q); }
  }

  /** The value after `Value(n, slot, k)` is the one `ffid_del_id` computes: one stride further, or
      the slot number itself when that would reach the limit. */
  lemma NextValue(n: Slots, slot: nat, k: nat)
    requires slot < n
    ensures var id := Value(n, slot, k);
            && (LIMIT - id <= n <==> (k + 1) % Cycle(n, slot) == 0)
            && Value(n, slot, k + 1) == if LIMIT - id <= n then slot else id + n
  {
    var c := Cycle(n, slot);
    var j := k % c;
    ValueBounds(n, slot, j);
    ValueBounds(n, slot, j + 1);
    MulMonotonic(n, j, j + 1);
    ModStep(k, c);
  }

  /** Within one cycle the values of a slot differ; values of different slots always differ. */
  lemma ValuesDiffer(n: Slots, s1: nat, k1: nat, s2: nat, k2: nat)
    requires s1 < n && s2 < n && Value(n, s1, k1) == Value(n, s2, k2)
    ensures s1 == s2 && k1 % Cycle(n, s1) == k2 % Cycle(n, s1)
  {
    assert s1 == Value(n, s1, k1) % n == s2;
    ModOfSum(n, s1, k1 % Cycle(n, s1));
    ModOfSum(n, s1, k2 % Cycle(n, s1));
  }

  // ---------------------------------------------------------------- the abstract pool

  /** What the id array stands for: how often each slot was handed out, which slots are live, and the
      free slots in the order they will be handed out. */
  datatype Pool = Pool(n: Slots, loop: bool, gens: seq<nat>, live: set<nat>, free: seq<nat>)

  ghost predicate PoolOk(p: Pool)
  {
    && |p.gens| == p.n
    && (forall s :: s in p.live ==> s < p.n && p.gens[s] > 0)
    && (forall i :: 0 <= i < |p.free| ==> p.free[i] < p.n && p.free[i] !in p.live)
    && (forall i, j :: 0 <= i < j < |p.free| ==> p.free[i] != p.free[j])
    && (forall s :: 0 <= s < p.n && s !in p.live && s !in p.free ==> Retired(p, s))
    && (!p.loop ==> forall s :: 0 <= s < p.n ==> p.gens[s] <= Cycle(p.n, s))
    && (!p.loop ==> forall i :: 0 <= i < |p.free| ==> p.gens[p.free[i]] < Cycle(p.n, p.free[i]))
  }

  /** A slot that has used up its values and is not handed out again. */
  ghost predicate Retired(p: Pool, s: nat)
    requires |p.gens| == p.n
  {
    s < p.n && !p.loop && s !in p.live && s !in p.free && p.gens[s] == Cycle(p.n, s)
  }

  ghost function Initial(n: Slots, loop: bool): Pool
  {
    Pool(n, loop, seq(n, i => 0), {}, seq(n, i => i))
  }

  lemma InitialOk(n: Slots, loop: bool)
    ensures PoolOk(Initial(n, loop))
  {
    var p := Initial(n, loop);
    forall s | 0 <= s < n ensures s in p.free && p.gens[s] < Cycle(n, s) {
      assert p.free[s] == s;
    }
  }

  /** The id value the next `ffid_new_id` hands out. */
  ghost function Pending(p: Pool, i: nat): nat
    requires PoolOk(p) && i < |p.free|
  {
    Value(p.n, p.free[i], p.gens[p.free[i]])
  }

  /** The id value a live slot currently has. */
  ghost function LiveValue(p: Pool, s: nat): nat
    requires PoolOk(p) && s in p.live
  {
    Value(p.n, s, p.gens[s] - 1)
  }

  ghost predicate IsLive(p: Pool, v: nat)
    requires PoolOk(p)
  {
    v % p.n in p.live && LiveValue(p, v % p.n) == v
  }

  ghost function TakeSlot(p: Pool): Pool
    requires PoolOk(p) && p.free != []
  {
    var s := p.free[0];
    p.(gens := p.gens[s := p.gens[s] + 1], live := p.live + {s}, free := p.free[1..])
  }

  ghost function GiveSlot(p: Pool, s: nat): Pool
    requires PoolOk(p) && s in p.live
  {
    if !p.loop && p.gens[s] == Cycle(p.n, s) then p.(live := p.live - {s})
    else p.(live := p.live - {s}, free := p.free + [s])
  }

  lemma TakeSlotOk(p: Pool)
    requires PoolOk(p) && p.free != []
    ensures PoolOk(TakeSlot(p))
    ensures LiveValue(TakeSlot(p), p.free[0]) == Pending(p, 0)
    ensures forall s :: s in p.live ==> LiveValue(TakeSlot(p), s) == LiveValue(p, s)
    ensures forall i :: 0 < i < |p.free| ==> Pending(TakeSlot(p), i - 1) == Pending(p, i)
  {
    TakePoolOk(p);
  }

  lemma TakePoolOk(p: Pool)
    requires PoolOk(p) && p.free != []
    ensures PoolOk(TakeSlot(p))
  {
    var q := TakeSlot(p);
    assert forall i :: 0 <= i < |q.free| ==> q.free[i] == p.free[i + 1];
    forall s | 0 <= s < q.n && s !in q.live && s !in q.free ensures Retired(q, s) {
      if s in p.free { RestHasOthers(p.free, s); }
      assert Retired(p, s);
    }
  }

  lemma RestHasOthers(free: seq<nat>, s: nat)
    requires free != [] && s in free && s != free[0]
    ensures s in free[1..]
  {
    var i :| 0 <= i < |free| && free[i] == s;
    assert free[1..][i - 1] == s;
  }

  lemma GiveSlotOk(p: Pool, s: nat)
    requires PoolOk(p) && s in p.live
    ensures PoolOk(GiveSlot(p, s))
    ensures forall r :: r in p.live && r != s ==> LiveValue(GiveSlot(p, s), r) == LiveValue(p, r)
    ensures forall i :: 0 <= i < |p.free| ==> Pending(GiveSlot(p, s), i) == Pending(p, i)
  {
    GivePoolOk(p, s);
  }

  lemma GivePoolOk(p: Pool, s: nat)
    requires PoolOk(p) && s in p.live
    ensures PoolOk(GiveSlot(p, s))
  {
    var q := GiveSlot(p, s);
    GiveKeepsFree(p, s);
    forall r | 0 <= r < q.n && r !in q.live && r !in q.free ensures Retired(q, r) {
      if r != s { assert Retired(p, r); }
    }
  }

  lemma GiveKeepsFree(p: Pool, s: nat)
    requires PoolOk(p) && s in p.live
    ensures forall r :: r in p.free ==> r in GiveSlot(p, s).free
    ensures forall r :: r in GiveSlot(p, s).free ==> r in p.free || r == s
    ensures GiveSlot(p, s).free != p.free ==> s in GiveSlot(p, s).free
  {
    var q := GiveSlot(p, s);
    forall r | r in p.free ensures r in q.free {
      var i :| 0 <= i < |p.free| && p.free[i] == r;
      assert q.free[i] == r;
    }
    assert q.free != p.free ==> q.free[|p.free|] == s;
  }

  // ---------------------------------------------------------------- the id array

  /** The content of the array: a live slot holds its own value, a free slot the value pending for
      the next free slot, and the last free slot and every retired slot the limit. */
  ghost predicate Threaded(ts: seq<nat>, p: Pool)
  {
    && PoolOk(p) && |ts| == p.n
    && (forall s :: s in p.live ==> ts[s] == LiveValue(p, s))
    && (forall i :: 0 <= i < |p.free| ==>
          ts[p.free[i]] == if i + 1 < |p.free| then Pending(p, i + 1) else LIMIT)
    && (forall s :: 0 <= s < p.n && Retired(p, s) ==> ts[s] == LIMIT)
  }

  /** The two cursors and the counter. */
  ghost predicate Cursors(first: nat, end: nat, curSize: nat, p: Pool)
    requires PoolOk(p)
  {
    && first == (if p.free == [] then LIMIT else Pending(p, 0))
    && (p.free != [] ==> end == p.free[|p.free| - 1])
    && end < p.n
    && curSize + |p.free| == p.n
  }

  lemma TakeThreaded(ts: seq<nat>, p: Pool)
    requires Threaded(ts, p) && p.free != []
    ensures Threaded(ts[p.free[0] := Pending(p, 0)], TakeSlot(p))
  {
    TakeSlotOk(p);
    TakeFreeLinks(ts, p);
    TakeOthers(ts, p);
  }

  lemma TakeOthers(ts: seq<nat>, p: Pool)
    requires Threaded(ts, p) && p.free != [] && PoolOk(TakeSlot(p))
    requires LiveValue(TakeSlot(p), p.free[0]) == Pending(p, 0)
    requires forall s :: s in p.live ==> LiveValue(TakeSlot(p), s) == LiveValue(p, s)
    ensures var q, ts' := TakeSlot(p), ts[p.free[0] := Pending(p, 0)];
            && (forall s :: s in q.live ==> ts'[s] == LiveValue(q, s))
            && (forall s :: 0 <= s < q.n && Retired(q, s) ==> ts'[s] == LIMIT)
  {
    var q, ts' := TakeSlot(p), ts[p.free[0] := Pending(p, 0)];
    forall s | 0 <= s < q.n && Retired(q, s) ensures ts'[s] == LIMIT {
      TakeRetired(p, s);
    }
    forall s | s in q.live ensures ts'[s] == LiveValue(q, s) {
      if s != p.free[0] { assert s in p.live; }
    }
  }

  lemma TakeRetired(p: Pool, s: nat)
    requires PoolOk(p) && p.free != [] && PoolOk(TakeSlot(p)) && s < p.n && Retired(TakeSlot(p), s)
    ensures Retired(p, s) && s != p.free[0]
  {
    if s in p.free { RestHasOthers(p.free, s); }
  }

  lemma TakeFreeLinks(ts: seq<nat>, p: Pool)
    requires Threaded(ts, p) && p.free != [] && PoolOk(TakeSlot(p))
    requires forall i :: 0 < i < |p.free| ==> Pending(TakeSlot(p), i - 1) == Pending(p, i)
    ensures var q := TakeSlot(p);
            forall i :: 0 <= i < |q.free| ==>
              ts[p.free[0] := Pending(p, 0)][q.free[i]] == if i + 1 < |q.free| then Pending(q, i + 1) else LIMIT
  {
    var q := TakeSlot(p);
    forall i | 0 <= i < |q.free|
      ensures ts[p.free[0] := Pending(p, 0)][q.free[i]] == if i + 1 < |q.free| then Pending(q, i + 1) else LIMIT
    {
      assert q.free[i] == p.free[i + 1];
      if i + 1 < |q.free| { assert Pending(q, i + 1) == Pending(p, i + 2); }
    }
  }

  lemma TakeCursors(first: nat, end: nat, curSize: nat, p: Pool)
    requires PoolOk(p) && Cursors(first, end, curSize, p) && p.free != []
    ensures PoolOk(TakeSlot(p))
    ensures Cursors(if |p.free| > 1 then Pending(p, 1) else LIMIT, end, curSize + 1, TakeSlot(p))
  {
    TakeSlotOk(p);
  }

  lemma RetireThreaded(ts: seq<nat>, p: Pool, s: nat)
    requires Threaded(ts, p) && s in p.live && !p.loop && p.gens[s] == Cycle(p.n, s)
    ensures Threaded(ts[s := LIMIT], GiveSlot(p, s))
  {
    GiveSlotOk(p, s);
    var q := GiveSlot(p, s);
    forall r | 0 <= r < q.n && Retired(q, r) ensures ts[s := LIMIT][r] == LIMIT {
      assert r != s ==> Retired(p, r);
    }
  }

  /** What `ffid_del_id` stores when the slot goes back to the free list. */
  ghost function Returned(ts: seq<nat>, p: Pool, s: nat, next: nat, end: nat): seq<nat>
    requires |ts| == p.n && s < p.n && end < p.n
  {
    (if p.free == [] then ts else ts[end := next])[s := LIMIT]
  }

  lemma GiveThreaded(ts: seq<nat>, p: Pool, s: nat, end: nat)
    requires Threaded(ts, p) && s in p.live && !(!p.loop && p.gens[s] == Cycle(p.n, s))
    requires end < p.n && (p.free != [] ==> end == p.free[|p.free| - 1])
    ensures Threaded(Returned(ts, p, s, Value(p.n, s, p.gens[s]), end), GiveSlot(p, s))
  {
    GiveSlotOk(p, s);
    GiveFreeLinks(ts, p, s, end);
    var q := GiveSlot(p, s);
    var ts' := Returned(ts, p, s, Value(p.n, s, p.gens[s]), end);
    forall r | 0 <= r < q.n && Retired(q, r) ensures ts'[r] == LIMIT {
      GiveRetired(p, s, r, end);
    }
    forall r | r in q.live ensures ts'[r] == LiveValue(q, r) {
      assert p.free != [] ==> end !in p.live;
    }
  }

  lemma GiveFreeLinks(ts: seq<nat>, p: Pool, s: nat, end: nat)
    requires Threaded(ts, p) && s in p.live && !(!p.loop && p.gens[s] == Cycle(p.n, s))
    requires end < p.n && (p.free != [] ==> end == p.free[|p.free| - 1])
    requires PoolOk(GiveSlot(p, s))
    requires forall i :: 0 <= i < |p.free| ==> Pending(GiveSlot(p, s), i) == Pending(p, i)
    ensures var q, ts' := GiveSlot(p, s), Returned(ts, p, s, Value(p.n, s, p.gens[s]), end);
            forall i :: 0 <= i < |q.free| ==>
              ts'[q.free[i]] == if i + 1 < |q.free| then Pending(q, i + 1) else LIMIT
  {
    var q := GiveSlot(p, s);
    var ts' := Returned(ts, p, s, Value(p.n, s, p.gens[s]), end);
    assert q.free[|p.free|] == s && Pending(q, |p.free|) == Value(p.n, s, p.gens[s]);
    forall i | 0 <= i < |q.free|
      ensures ts'[q.free[i]] == if i + 1 < |q.free| then Pending(q, i + 1) else LIMIT
    {
      if i < |p.free| {
        assert q.free[i] == p.free[i] != s;
        if i + 1 < |p.free| { assert p.free[i] != p.free[|p.free| - 1]; }
      }
    }
  }

  lemma GiveRetired(p: Pool, s: nat, r: nat, end: nat)
    requires PoolOk(p) && s in p.live && !(!p.loop && p.gens[s] == Cycle(p.n, s))
    requires PoolOk(GiveSlot(p, s)) && r < p.n && Retired(GiveSlot(p, s), r)
    requires p.free != [] ==> end == p.free[|p.free| - 1]
    ensures Retired(p, r) && r != s && (p.free != [] ==> r != end)
  {
    var q := GiveSlot(p, s);
    assert q.free[|p.free|] == s;
    forall i | 0 <= i < |p.free| ensures p.free[i] != r {
      assert q.free[i] == p.free[i];
    }
  }

  lemma GiveCursors(first: nat, end: nat, curSize: nat, p: Pool, s: nat)
    requires PoolOk(p) && Cursors(first, end, curSize, p) && s in p.live
    ensures PoolOk(GiveSlot(p, s)) && curSize > 0
    ensures if !p.loop && p.gens[s] == Cycle(p.n, s) then Cursors(first, end, curSize, GiveSlot(p, s))
            else Cursors(if p.free == [] then Value(p.n, s, p.gens[s]) else first, s, curSize - 1, GiveSlot(p, s))
  {
    GiveSlotOk(p, s);
    FreeBelow(p, s);
  }

  /** The free list cannot hold every slot while one is live. */
  lemma FreeBelow(p: Pool, s: nat)
    requires PoolOk(p) && s in p.live
    ensures |p.free| < p.n
  {
    DistinctBelow(p.free, p.n, s);
  }

  lemma {:induction false} DistinctBelow(a: seq<nat>, n: nat, s: nat)
    requires forall i, j :: 0 <= i < j < |a| ==> a[i] != a[j]
    requires forall i :: 0 <= i < |a| ==> a[i] < n && a[i] != s
    requires s < n
    ensures |a| < n
  {
    var used := Members(a);
    DistinctCount(a);
    RangeCount(n);
    assert used + {s} <= Range(n);
    SubsetCount(used + {s}, Range(n));
  }

  ghost function Members(a: seq<nat>): set<nat>
  {
    set i | 0 <= i < |a| :: a[i]
  }

  lemma {:induction false} DistinctCount(a: seq<nat>)
    requires forall i, j :: 0 <= i < j < |a| ==> a[i] != a[j]
    ensures |Members(a)| == |a|
  {
    if a != [] {
      var b := a[..|a| - 1];
      DistinctCount(b);
      var last := a[|a| - 1];
      assert Members(a) == Members(b) + {last};
    }
  }

  ghost function Range(n: nat): set<nat>
  {
    if n == 0 then {} else Range(n - 1) + {n - 1}
  }

  lemma {:induction false} RangeCount(n: nat)
    ensures |Range(n)| == n && forall x: nat :: x in Range(n) <==> x < n
  {
    if n > 0 { RangeCount(n - 1); }
  }

  ghost function RetiredSlots(p: Pool): set<nat>
    requires PoolOk(p)
  {
    set s: nat | s < p.n && Retired(p, s)
  }

  /** The slots that are not free are the live ones and the retired ones. */
  lemma SlotsCounted(p: Pool)
    requires PoolOk(p)
    ensures |p.free| + |p.live| + |RetiredSlots(p)| == p.n
    ensures |p.free| + |p.live| == p.n <==> forall s: nat :: s < p.n ==> !Retired(p, s)
  {
    SlotsCovered(p);
    DistinctCount(p.free);
    RangeCount(p.n);
    CountOfThree(Members(p.free), p.live, RetiredSlots(p));
    NoneRetired(p);
  }

  lemma CountOfThree(a: set<nat>, b: set<nat>, c: set<nat>)
    requires a !! b && a !! c && b !! c
    ensures |a + b + c| == |a| + |b| + |c| && (|c| == 0 <==> c == {})
  {
  }

  lemma NoneRetired(p: Pool)
    requires PoolOk(p)
    ensures RetiredSlots(p) == {} <==> forall s: nat :: s < p.n ==> !Retired(p, s)
  {
    if s: nat :| s < p.n && Retired(p, s) { assert s in RetiredSlots(p); }
  }

  lemma SlotsCovered(p: Pool)
    requires PoolOk(p)
    ensures var free, retired := Members(p.free), RetiredSlots(p);
            && free !! p.live && free !! retired && p.live !! retired
            && Range(p.n) == free + p.live + retired
  {
    RangeCount(p.n);
    var free, retired := Members(p.free), RetiredSlots(p);
    forall s: nat ensures s in Range(p.n) <==> s in free + p.live + retired {
      assert s in free <==> s in p.free;
    }
  }

  /** What a slot contains tells whether it is live: only a live slot contains a value of its own. */
  lemma ContentsBySlot(ts: seq<nat>, p: Pool, s: nat)
    requires Threaded(ts, p) && s < p.n
    ensures ts[s] <= LIMIT
    ensures ts[s] < LIMIT && ts[s] % p.n == s <==> s in p.live
  {
    if s !in p.live {
      if s in p.free {
        var i :| 0 <= i < |p.free| && p.free[i] == s;
        if i + 1 < |p.free| { assert Pending(p, i + 1) % p.n == p.free[i + 1]; }
      } else {
        assert Retired(p, s);
      }
    }
  }

  class IdArray {
    const maxSize: Slots
    const isLoop: bool
    const ts: array<nat>
    var first: nat
    var end: nat
    var curSize: nat

    ghost var pool: Pool

    ghost predicate Valid()
      reads this, ts
    {
      && pool.n == maxSize == ts.Length && pool.loop == isLoop
      && Threaded(ts[..], pool) && Cursors(first, end, curSize, pool)
    }

    /** `ffid_create` */
    constructor (maxSize: Slots, isLoop: bool)
      ensures Valid() && fresh(ts) && pool == Initial(maxSize, isLoop)
      ensures this.maxSize == maxSize && this.isLoop == isLoop
    {
      this.maxSize := maxSize;
      this.isLoop := isLoop;
      var a := new nat[maxSize];
      for i := 0 to maxSize - 1
        invariant forall k :: 0 <= k < i ==> a[k] == k + 1
      {
        a[i] := i + 1;
      }
      a[maxSize - 1] := LIMIT;
      ts := a;
      first := 0;
      end := maxSize - 1;
      curSize := 0;
      pool := Initial(maxSize, isLoop);
      InitialThreaded(a[..], maxSize, isLoop);
    }

    /** `ffid_new_id`: 0 when no slot is free, else one more than the value handed out. */
    method NewId() returns (id: nat, index: nat)
      requires Valid()
      modifies this, ts
      ensures Valid()
      ensures old(pool.free) == [] ==> id == 0 && pool == old(pool) && ts[..] == old(ts[..])
      ensures old(pool.free) != [] ==>
                pool == TakeSlot(old(pool)) && index == old(pool.free[0]) && id == old(Pending(pool, 0)) + 1
    {
      FirstPending(ts[..], first, end, curSize, pool);
      if first >= LIMIT { return 0, 0; }
      id, index := TakeFirst();
      id := id + 1;
    }

    method TakeFirst() returns (id: nat, index: nat)
      requires Valid() && pool.free != []
      modifies this, ts
      ensures Valid() && pool == TakeSlot(old(pool)) && index == old(pool.free[0]) && id == old(Pending(pool, 0))
    {
      FirstPending(ts[..], first, end, curSize, pool);
      TakeValid(ts[..], first, end, curSize, pool);
      index := first % maxSize;
      id := first;
      first := ts[index];
      ts[index] := id;
      curSize := curSize + 1;
      pool := TakeSlot(pool);
      assert ts[..] == old(ts[..])[index := id];
    }

    /** `ffid_has_id` for a 32-bit id. */
    method HasId(id: nat) returns (has: bool)
      requires Valid() && id <= LIMIT
      ensures has <==> id != 0 && IsLive(pool, id - 1)
    {
      if id == 0 { return false; }
      var slot := (id - 1) % maxSize;
      ContentsById(ts[..], pool, id - 1, slot);
      has := ts[slot] == id - 1;
    }

    /** `ffid_del_id` of a live id. */
    method DelId(id: nat)
      requires Valid() && 0 < id <= LIMIT && IsLive(pool, id - 1)
      modifies this, ts
      ensures Valid() && pool == GiveSlot(old(pool), (id - 1) % maxSize)
    {
      var v := id - 1;
      var slot := v % maxSize;
      ReturnedValue(pool, slot);
      FirstPending(ts[..], first, end, curSize, pool);
      var nextId: nat;
      if LIMIT <= v || LIMIT - v <= maxSize {
        if !isLoop {
          RetireValid(ts[..], first, end, curSize, pool, slot);
          ts[slot] := LIMIT;
          pool := GiveSlot(pool, slot);
          assert ts[..] == old(ts[..])[slot := LIMIT];
          return;
        }
        nextId := slot;
      } else {
        nextId := v + maxSize;
      }
      PutBack(slot, nextId);
    }

    /** The part of `ffid_del_id` that appends a slot to the free list. */
    method PutBack(slot: nat, nextId: nat)
      requires Valid() && slot in pool.live && nextId == Value(maxSize, slot, pool.gens[slot])
      requires !(!isLoop && pool.gens[slot] == Cycle(maxSize, slot))
      modifies this, ts
      ensures Valid() && pool == GiveSlot(old(pool), slot)
    {
      GiveValid(ts[..], first, end, curSize, pool, slot, nextId);
      Append(slot, nextId);
      pool := GiveSlot(pool, slot);
    }

    /** Its writes. */
    method Append(slot: nat, nextId: nat)
      requires ts.Length == maxSize == pool.n && slot < maxSize && end < maxSize && curSize > 0
      requires first >= LIMIT <==> pool.free == []
      modifies this`first, this`end, this`curSize, ts
      ensures ts[..] == Returned(old(ts[..]), pool, slot, nextId, old(end))
      ensures first == (if old(first) >= LIMIT then nextId else old(first)) && end == slot
              && curSize == old(curSize) - 1
    {
      if first >= LIMIT {
        first := nextId;
      } else {
        ts[end] := nextId;
      }
      end := slot;
      ts[slot] := LIMIT;
      curSize := curSize - 1;
    }

    /** `ffid_size`: the live slots and the retired ones, so it is the number of live ids exactly while no slot
        is retired. */
    method Size() returns (size: nat)
      requires Valid()
      ensures size == |pool.live| + |RetiredSlots(pool)|
      ensures size == |pool.live| <==> forall s: nat :: s < maxSize ==> !Retired(pool, s)
      ensures isLoop ==> size == |pool.live|
    {
      SlotsCounted(pool);
      size := curSize;
    }

    /** `ffid_id`: 0 exactly for slots that are not live. */
    method IdAt(index: nat) returns (id: nat)
      requires Valid()
      ensures id != 0 <==> index in pool.live
      ensures index in pool.live ==> id == LiveValue(pool, index) + 1
    {
      if index >= maxSize { return 0; }
      ContentsBySlot(ts[..], pool, index);
      var v := ts[index];
      if v % maxSize != index { return 0; }
      id := (v + 1) % 0x1_0000_0000;
    }
  }

  lemma FirstPending(ts: seq<nat>, first: nat, end: nat, curSize: nat, p: Pool)
    requires Threaded(ts, p) && Cursors(first, end, curSize, p)
    ensures first < LIMIT <==> p.free != []
    ensures p.free != [] ==> first == Pending(p, 0) && first % p.n == p.free[0]
  {
  }

  lemma TakeValid(ts: seq<nat>, first: nat, end: nat, curSize: nat, p: Pool)
    requires Threaded(ts, p) && Cursors(first, end, curSize, p) && p.free != []
    ensures Threaded(ts[p.free[0] := first], TakeSlot(p))
    ensures Cursors(ts[p.free[0]], end, curSize + 1, TakeSlot(p))
  {
    TakeThreaded(ts, p);
    TakeCursors(first, end, curSize, p);
  }

  lemma GiveValid(ts: seq<nat>, first: nat, end: nat, curSize: nat, p: Pool, s: nat, next: nat)
    requires Threaded(ts, p) && Cursors(first, end, curSize, p) && s in p.live && next == Value(p.n, s, p.gens[s])
    requires !(!p.loop && p.gens[s] == Cycle(p.n, s))
    ensures (first >= LIMIT <==> p.free == []) && end < p.n && curSize > 0
    ensures Threaded(Returned(ts, p, s, next, end), GiveSlot(p, s))
    ensures Cursors(if first >= LIMIT then next else first, s, curSize - 1, GiveSlot(p, s))
    ensures GiveSlot(p, s).n == p.n && GiveSlot(p, s).loop == p.loop
  {
    FirstPending(ts, first, end, curSize, p);
    GiveThreaded(ts, p, s, end);
    GiveCursors(first, end, curSize, p, s);
  }

  lemma RetireValid(ts: seq<nat>, first: nat, end: nat, curSize: nat, p: Pool, s: nat)
    requires Threaded(ts, p) && Cursors(first, end, curSize, p)
    requires s in p.live && !p.loop && p.gens[s] == Cycle(p.n, s)
    ensures Threaded(ts[s := LIMIT], GiveSlot(p, s)) && Cursors(first, end, curSize, GiveSlot(p, s))
  {
    RetireThreaded(ts, p, s);
    GiveCursors(first, end, curSize, p, s);
  }

  /** The cell an id belongs to holds the id exactly when it is live. */
  lemma ContentsById(ts: seq<nat>, p: Pool, v: nat, s: nat)
    requires Threaded(ts, p) && v < LIMIT && s == v % p.n
    ensures ts[s] == v <==> IsLive(p, v)
  {
    ContentsBySlot(ts, p, s);
  }

  lemma InitialThreaded(ts: seq<nat>, n: Slots, loop: bool)
    requires |ts| == n && ts[n - 1] == LIMIT
    requires forall k :: 0 <= k < n - 1 ==> ts[k] == k + 1
    ensures Threaded(ts, Initial(n, loop)) && Cursors(0, n - 1, 0, Initial(n, loop))
  {
    InitialPending(n, loop);
    var p := Initial(n, loop);
    forall s | 0 <= s < n ensures !Retired(p, s) {
      assert p.free[s] == s;
    }
  }

  /** The value `ffid_del_id` computes for the next use of a live slot, and whether there is one. */
  lemma ReturnedValue(p: Pool, s: nat)
    requires PoolOk(p) && s in p.live
    ensures var id := LiveValue(p, s);
            && Value(p.n, s, p.gens[s]) == (if LIMIT - id <= p.n then s else id + p.n)
            && (!p.loop ==> (LIMIT - id <= p.n <==> p.gens[s] == Cycle(p.n, s)))
  {
    NextValue(p.n, s, p.gens[s] - 1);
    GenAtEnd(p, s);
  }

  lemma InitialPending(n: Slots, loop: bool)
    ensures PoolOk(Initial(n, loop))
    ensures forall i :: 0 <= i < n ==> Pending(Initial(n, loop), i) == i
  {
    InitialOk(n, loop);
    forall i | 0 <= i < n ensures Pending(Initial(n, loop), i) == i {
      ModOfSum(Cycle(n, i), 0, 0);
    }
  }

  /** Without looping, the value next to the limit is the last one of its slot. */
  lemma GenAtEnd(p: Pool, s: nat)
    requires PoolOk(p) && s in p.live
    ensures !p.loop ==> (p.gens[s] % Cycle(p.n, s) == 0 <==> p.gens[s] == Cycle(p.n, s))
  {
    var c := Cycle(p.n, s);
    if !p.loop {
      if p.gens[s] < c { DivUnique(p.gens[s], c, 0, p.gens[s]); } else { DivUnique(c, c, 1, 0); }
    }
  }
}
