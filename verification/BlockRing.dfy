/** The array of lazily allocated blocks that every ring of engine/net/buff.c is built on, and the
    collector that frees blocks behind the reader. */
module BlockRing {
  import opened Options
  import opened Arith
  import opened Ring

  /** The block the collector comes to in round `j`. */
  ghost function Round(g: Geometry, f: nat, j: nat): (i: nat)
    requires Usable(g)
    ensures i < g.cnt
  {
    DivBounds(f + j, g.cnt);
    (f + j) % g.cnt
  }

  /** What `n` rounds of the collector leave, starting at the block with unbounded number `f` and
      sparing the block `keep` the writer is in. */
  ghost function Collected<T>(g: Geometry, blocks: Blocks<T>, f: nat, n: nat, keep: nat): (r: Blocks<T>)
    requires Usable(g) && |blocks| == g.cnt
    ensures |r| == |blocks|
  {
    if n == 0 then blocks
    else
      var before := Collected(g, blocks, f, n - 1, keep);
      var i := Round(g, f, n - 1);
      if i == keep then before else before[i := None]
  }

  lemma {:induction false} CollectedShaped<T>(g: Geometry, blocks: Blocks<T>, f: nat, n: nat, keep: nat)
    requires Usable(g) && Shaped(g, blocks)
    ensures Shaped(g, Collected(g, blocks, f, n, keep))
  {
    if n > 0 { CollectedShaped(g, blocks, f, n - 1, keep); }
  }

  /** A block is freed exactly when some round comes to it and it is not the writer's. */
  lemma {:induction false} CollectedBlock<T>(g: Geometry, blocks: Blocks<T>, f: nat, n: nat, keep: nat, i: nat)
    requires Usable(g) && |blocks| == g.cnt && i < g.cnt
    ensures Collected(g, blocks, f, n, keep)[i] ==
            if i != keep && Visited(g, f, n, i) then None else blocks[i]
  {
    if n > 0 {
      CollectedBlock(g, blocks, f, n - 1, keep, i);
      VisitedStep(g, f, n, i);
    }
  }

  ghost predicate Visited(g: Geometry, f: nat, n: nat, i: nat)
    requires Usable(g)
  {
    exists j :: 0 <= j < n && Round(g, f, j) == i
  }

  lemma VisitedStep(g: Geometry, f: nat, n: nat, i: nat)
    requires Usable(g) && n > 0
    ensures Visited(g, f, n, i) <==> Visited(g, f, n - 1, i) || Round(g, f, n - 1) == i
  {
    if Visited(g, f, n, i) && Round(g, f, n - 1) != i {
      var j :| 0 <= j < n && Round(g, f, j) == i;
      assert j < n - 1;
    }
  }

  lemma SameResidue(a: nat, b: nat, c: nat)
    requires c > 0 && a < b <= a + c && a % c == b % c
    ensures b == a + c
  {
    if b < a + c { ModDifference(b, a, c); }
  }

  /** The block of an unread position is visited only if the writer is in it. */
  lemma VisitedUnread(g: Geometry, r: nat, r': nat, w: nat, k: nat)
    requires Usable(g) && r <= r' <= k < w <= r + Capacity(g)
    requires 0 <= r / g.size <= r' / g.size
    requires Visited(g, r / g.size, r' / g.size - r / g.size, BlockOf(g, k))
    ensures BlockOf(g, k) == BlockOf(g, w)
  {
    DivBounds(r, g.size);
    DivMonotonic(r', k, g.size);
    DivMonotonic(k, w, g.size);
    BlockDistance(g, r, w);
    VisitedMeets(g, r / g.size, r' / g.size - r / g.size, k / g.size, w / g.size);
  }

  lemma VisitedMeets(g: Geometry, f: nat, n: nat, b: nat, c: nat)
    requires Usable(g) && f + n <= b <= c <= f + g.cnt && Visited(g, f, n, b % g.cnt)
    ensures b == c
  {
    var j :| 0 <= j < n && Round(g, f, j) == b % g.cnt;
    SameResidue(f + j, b, g.cnt);
  }

  /** What the collector leaves when the reader moves from `r` to `r'` with the writer at `w`. */
  ghost predicate Passed<T>(g: Geometry, before: Blocks<T>, r: nat, r': nat, w: nat, after: Blocks<T>)
    requires Usable(g)
  {
    && |before| == g.cnt && 0 <= r / g.size <= r' / g.size
    && after == Collected(g, before, r / g.size, r' / g.size - r / g.size, BlockOf(g, w))
  }

  lemma PassedNothing<T>(g: Geometry, blocks: Blocks<T>, r: nat, w: nat)
    requires Usable(g) && |blocks| == g.cnt
    ensures Passed(g, blocks, r, r, w, blocks)
  {
    DivBounds(r, g.size);
  }

  /** After the reader has moved from `r` to `r'` the collector has freed no block with unread cells,
      nor the block of the write position, even if cells are already stored behind it. */
  lemma CollectKeeps<T>(g: Geometry, blocks: Blocks<T>, r: nat, r': nat, w: nat, stream: seq<T>)
    requires Holds(g, blocks, r, stream) && r <= r' <= w <= |stream| && w <= r + Capacity(g)
    requires w % g.size + (|stream| - w) <= g.size
    ensures 0 <= r / g.size <= r' / g.size <= r / g.size + g.cnt
    ensures Holds(g, Collected(g, blocks, r / g.size, r' / g.size - r / g.size, BlockOf(g, w)), r', stream)
    ensures Collected(g, blocks, r / g.size, r' / g.size - r / g.size, BlockOf(g, w))[BlockOf(g, w)]
            == blocks[BlockOf(g, w)]
  {
    CollectRange(g, r, r');
    BlockOfBounds(g, w);
    var f, n, keep := r / g.size, r' / g.size - r / g.size, BlockOf(g, w);
    CollectedShaped(g, blocks, f, n, keep);
    CollectedBlock(g, blocks, f, n, keep, keep);
    forall k | r' <= k < |stream| ensures CellHolds(g, Collected(g, blocks, f, n, keep), k, stream[k]) {
      UnreadSpared(g, blocks, r, r', w, stream, k);
    }
  }

  lemma CollectRange(g: Geometry, r: nat, r': nat)
    requires Usable(g) && r <= r' <= r + Capacity(g)
    ensures 0 <= r / g.size <= r' / g.size <= r / g.size + g.cnt
  {
    DivBounds(r, g.size);
    BlockDistance(g, r, r');
  }

  lemma BlockOfBounds(g: Geometry, k: nat)
    requires Usable(g)
    ensures 0 <= BlockOf(g, k) < g.cnt
  {
    DivBounds(k, g.size);
    DivBounds(k / g.size, g.cnt);
  }

  lemma UnreadSpared<T>(g: Geometry, blocks: Blocks<T>, r: nat, r': nat, w: nat, stream: seq<T>, k: nat)
    requires Holds(g, blocks, r, stream) && r <= r' <= w <= |stream| && w <= r + Capacity(g)
    requires w % g.size + (|stream| - w) <= g.size && r' <= k < |stream| && 0 <= r / g.size <= r' / g.size
    ensures var u := Collected(g, blocks, r / g.size, r' / g.size - r / g.size, BlockOf(g, w));
            Shaped(g, u) && CellHolds(g, u, k, stream[k])
  {
    var f, n, keep := r / g.size, r' / g.size - r / g.size, BlockOf(g, w);
    CollectedShaped(g, blocks, f, n, keep);
    assert CellHolds(g, blocks, k, stream[k]);
    DivBounds(k, g.size);
    DivBounds(k / g.size, g.cnt);
    CollectedBlock(g, blocks, f, n, keep, BlockOf(g, k));
    if k < w {
      if Visited(g, f, n, BlockOf(g, k)) { VisitedUnread(g, r, r', w, k); }
    } else {
      InSameBlock(g, w, k - w);
    }
  }

  /** The collector's loop reaches the reader's block from any block: going round, the distance is
      less than twice the block count. */
  lemma CollectorReaches(cnt: nat, freeH: nat, hRead: nat) returns (n: nat)
    requires 0 < cnt && freeH < 2 * cnt && hRead < 2 * cnt
    ensures n < 2 * cnt && hRead == (freeH + n) % (2 * cnt)
  {
    n := if hRead >= freeH then hRead - freeH else 2 * cnt + hRead - freeH;
    if hRead >= freeH { DivUnique(freeH + n, 2 * cnt, 0, hRead); } else { DivUnique(freeH + n, 2 * cnt, 1, hRead); }
  }

  // ---------------------------------------------------------------- blocks that are not there

  /** The blocks that are missing. */
  ghost function Gaps<T>(blocks: Blocks<T>): (s: set<nat>)
  {
    set i: nat | i < |blocks| && blocks[i].None?
  }

  /** What an operation took of the `memory` blocks that the allocator had to give, when it came to the blocks `need`
      in some order: it allocated nothing but missing blocks of these; if it went through none of them is missing any
      more, and if it did not the allocator had no more when it came to one of them. */
  ghost predicate Took<T>(before: Blocks<T>, after: Blocks<T>, memory: nat, left: nat, need: set<nat>, ok: bool)
  {
    && Gaps(after) <= Gaps(before) && Gaps(before) - need <= Gaps(after)
    && memory + |Gaps(after)| == left + |Gaps(before)|
    && (if ok then Gaps(after) !! need else left == 0 && Gaps(after) * need != {})
  }

  lemma EnsuredTook<T>(before: Blocks<T>, after: Blocks<T>, i: nat, memory: nat, left: nat, ok: bool)
    requires i < |before| == |after|
    requires ok <==> before[i].Some? || memory > 0
    requires left == if before[i].None? && memory > 0 then memory - 1 else memory
    requires if ok && before[i].None? then after[i].Some? && after == before[i := after[i]] else after == before
    ensures Took(before, after, memory, left, {i}, ok)
  {
    if !ok {
      assert i in Gaps(after) * {i};
    } else if before[i].None? {
      assert Gaps(after) == Gaps(before) - {i};
    }
  }

  lemma SameGaps<T>(a: Blocks<T>, b: Blocks<T>)
    requires |a| == |b| && forall i :: 0 <= i < |a| ==> (a[i].None? <==> b[i].None?)
    ensures Gaps(a) == Gaps(b)
  {
  }

  lemma TookNothing<T>(blocks: Blocks<T>, memory: nat)
    ensures Took(blocks, blocks, memory, memory, {}, true)
  {
  }

  lemma TookTwice<T>(a: Blocks<T>, b: Blocks<T>, c: Blocks<T>, memory: nat, mid: nat, left: nat, need1: set<nat>,
                     need2: set<nat>, ok: bool)
    requires Took(a, b, memory, mid, need1, true) && Took(b, c, mid, left, need2, ok)
    ensures Took(a, c, memory, left, need1 + need2, ok)
  {
  }

  lemma TookPart<T>(a: Blocks<T>, b: Blocks<T>, memory: nat, left: nat, need: set<nat>, more: set<nat>)
    requires Took(a, b, memory, left, need, false) && need <= more
    ensures Took(a, b, memory, left, more, false)
  {
  }

  /** It goes through exactly when the allocator has a block for every one that is missing, and takes as many. */
  lemma TookExactly<T>(a: Blocks<T>, b: Blocks<T>, memory: nat, left: nat, need: set<nat>, ok: bool)
    requires Took(a, b, memory, left, need, ok)
    ensures ok <==> |Gaps(a) * need| <= memory
    ensures ok ==> left == memory - |Gaps(a) * need|
  {
    var filled := Gaps(a) - Gaps(b);
    assert Gaps(a) == Gaps(b) + filled && Gaps(b) * filled == {};
    assert filled <= Gaps(a) * need;
    SubsetCount(filled, Gaps(a) * need);
    if ok {
      assert filled == Gaps(a) * need;
    } else {
      var i :| i in Gaps(b) * need;
      assert i !in filled && filled + {i} <= Gaps(a) * need;
      SubsetCount(filled + {i}, Gaps(a) * need);
    }
  }

  lemma TookOne<T>(a: Blocks<T>, b: Blocks<T>, memory: nat, left: nat, i: nat, ok: bool)
    requires i < |a| && Took(a, b, memory, left, {i}, ok)
    ensures ok <==> a[i].Some? || memory > 0
    ensures left == if a[i].None? && memory > 0 then memory - 1 else memory
  {
    TookExactly(a, b, memory, left, {i}, ok);
    assert Gaps(a) * {i} == if a[i].None? then {i} else {};
  }

  /** The blocks of a run of cells. */
  ghost function BlocksOf(g: Geometry, from: nat, to: nat): set<nat>
    requires Usable(g)
  {
    set k: nat | from <= k < to :: BlockOf(g, k)
  }

  /** More cells of one block. */
  lemma OneMoreBlock(g: Geometry, from: nat, at: nat, n: nat)
    requires Usable(g) && from <= at && n > 0 && at % g.size + n <= g.size
    ensures BlocksOf(g, from, at) + {BlockOf(g, at)} == BlocksOf(g, from, at + n)
  {
    forall k: nat | at <= k < at + n ensures BlockOf(g, k) == BlockOf(g, at) {
      InSameBlock(g, at, k - at);
    }
  }

  lemma BlocksJoin(g: Geometry, a: nat, b: nat, c: nat)
    requires Usable(g) && a <= b <= c
    ensures BlocksOf(g, a, b) + BlocksOf(g, b, c) == BlocksOf(g, a, c)
  {
  }

  /** `void** buffers` with its block count and size. */
  class BlockArray<T(0)> {
    const g: Geometry
    const buffers: array<array?<T>>
    ghost var repr: set<object>

    ghost predicate Valid()
      reads this, buffers, repr
    {
      && Usable(g) && buffers.Length == g.cnt && buffers in repr && this !in repr
      && (forall i :: 0 <= i < g.cnt && buffers[i] != null ==>
            buffers[i] in repr && buffers[i].Length == g.size && buffers[i] as object != buffers)
      && (forall i, j :: 0 <= i < j < g.cnt && buffers[i] != null ==> buffers[i] != buffers[j])
    }

    ghost function Blocks(): (b: Blocks<T>)
      requires Valid()
      reads this, buffers, repr
      ensures Shaped(g, b)
    {
      seq(g.cnt, i requires 0 <= i < g.cnt && Valid() reads this, buffers, repr =>
        if buffers[i] == null then None else Some(buffers[i][..]))
    }

    constructor (g: Geometry)
      requires Usable(g)
      ensures Valid() && fresh(repr) && this.g == g
      ensures forall i :: 0 <= i < g.cnt ==> Blocks()[i].None?
    {
      this.g := g;
      var a := new array?<T>[g.cnt](i => null);
      buffers := a;
      repr := {a};
    }

    /** The test for a missing block and its allocation, as every operation writes it out; the allocator has
        `memory` more blocks to give. */
    method EnsureBlock(i: nat, memory: nat) returns (ok: bool, left: nat, ghost cells: seq<T>)
      requires Valid() && i < g.cnt
      modifies this, buffers
      ensures Valid() && fresh(repr - old(repr))
      ensures ok <==> old(Blocks())[i].Some? || memory > 0
      ensures left == if old(Blocks())[i].None? && memory > 0 then memory - 1 else memory
      ensures if ok && old(Blocks())[i].None? then |cells| == g.size && Blocks() == old(Blocks())[i := Some(cells)]
              else Blocks() == old(Blocks())
    {
      ok, left, cells := true, memory, [];
      if buffers[i] == null {
        if memory == 0 { return false, 0, []; }
        left := memory - 1;
        var block := new T[g.size];
        buffers[i] := block;
        repr := repr + {block};
        cells := block[..];
      }
    }

    /** `buff_pool_del_buff` and clearing the pointer. */
    method DropBlock(i: nat)
      requires Valid() && i < g.cnt
      modifies buffers
      ensures Valid() && repr == old(repr) && Blocks() == old(Blocks())[i := None]
    {
      buffers[i] := null;
    }

    /** `memcpy` into a block. */
    method Store(i: nat, at: nat, data: seq<T>)
      requires Valid() && i < g.cnt && Blocks()[i].Some? && at + |data| <= g.size
      modifies repr
      ensures Valid() && repr == old(repr)
      ensures Blocks() == old(Blocks())[i := Some(Overwrite(old(Blocks()[i].value), at, data))]
    {
      var block := buffers[i];
      forall k | 0 <= k < |data| {
        block[at + k] := data[k];
      }
      assert block[..] == Overwrite(old(block[..]), at, data);
      forall j | 0 <= j < g.cnt && j != i ensures Blocks()[j] == old(Blocks())[j] {
        assert buffers[j] == old(buffers[j]);
        if buffers[j] != null {
          assert buffers[j] != block;
          assert buffers[j][..] == old(buffers[j][..]);
        }
      }
    }

    /** Allocates the block of the next cell if it is missing, and copies a run of cells to it. */
    method Append(block: nat, offset: nat, run: seq<T>, memory: nat, ghost lo: nat, ghost stream: seq<T>)
      returns (ok: bool, left: nat)
      requires Valid() && Holds(g, Blocks(), lo, stream)
      requires lo <= |stream| && |stream| + |run| <= lo + Capacity(g)
      requires block == BlockOf(g, |stream|) < g.cnt && offset == |stream| % g.size && offset + |run| <= g.size
      modifies this, buffers, repr
      ensures Valid() && fresh(repr - old(repr))
      ensures Holds(g, Blocks(), lo, if ok then stream + run else stream)
      ensures Took(old(Blocks()), Blocks(), memory, left, {block}, ok)
    {
      ghost var cells;
      ghost var before := Blocks();
      ok, left, cells := EnsureBlock(block, memory);
      EnsuredTook(before, Blocks(), block, memory, left, ok);
      if !ok { return; }
      if before[block].None? { AllocKeeps(g, before, lo, stream, block, cells); }
      StoreExtends(g, Blocks(), lo, stream, run);
      ghost var present := Blocks();
      Store(block, offset, run);
      SameGaps(present, Blocks());
    }

    /** `memcpy` out of a block. */
    method Load(i: nat, at: nat, n: nat) returns (data: seq<T>)
      requires Valid() && i < g.cnt && at + n <= g.size && (n > 0 ==> Blocks()[i].Some?)
      ensures |data| == n && (n > 0 ==> data == Blocks()[i].value[at..at + n])
    {
      if n == 0 { return []; }
      data := buffers[i][at..at + n];
    }

    /** `buff_gc_help`: walks from the free position to the read position and frees every block on
        the way except the one the writer is in. */
    method GcHelp(freeH: nat, hRead: nat, hWrite: nat, ghost f: nat, ghost n: nat) returns (newFreeH: nat)
      requires Valid() && n < 2 * g.cnt
      requires freeH == (f + g.cnt) % (2 * g.cnt) && hRead == (f + n + g.cnt) % (2 * g.cnt)
      modifies buffers
      ensures Valid() && repr == old(repr) && newFreeH == hRead
      ensures Blocks() == Collected(g, old(Blocks()), f, n, hWrite % g.cnt)
    {
      newFreeH := freeH;
      ghost var m := 0;
      DivBounds(f + g.cnt, 2 * g.cnt);
      while newFreeH != hRead
        invariant Valid() && repr == old(repr) && m <= n
        invariant newFreeH == (f + m + g.cnt) % (2 * g.cnt)
        invariant 0 <= newFreeH < 2 * g.cnt
        invariant Blocks() == Collected(g, old(Blocks()), f, m, hWrite % g.cnt)
        decreases n - m
      {
        RoundOf(g, f + m);
        var i := newFreeH % g.cnt;
        if i != hWrite % g.cnt && buffers[i] != null {
          DropBlock(i);
        }
        newFreeH := (newFreeH + 1) % (2 * g.cnt);
        m := m + 1;
      }
      if m < n { ModDifference(f + n + g.cnt, f + m + g.cnt, 2 * g.cnt); }
    }
  }

  lemma RoundOf(g: Geometry, k: nat)
    requires Usable(g)
    ensures var h := (k + g.cnt) % (2 * g.cnt);
            0 <= h % g.cnt == k % g.cnt < g.cnt && (h + 1) % (2 * g.cnt) == (k + 1 + g.cnt) % (2 * g.cnt)
  {
    ModOfDouble(k + g.cnt, g.cnt);
    ModPlusModulus(k, g.cnt);
    ModAdd(k + g.cnt, 1, 2 * g.cnt);
    DivBounds(k, g.cnt);
    DivBounds(k + 1 + g.cnt, 2 * g.cnt);
  }
}
