/** Positions the operations of the send and receive rings pass through. */
module RingSpans {
  import opened Arith
  import opened Ring
  import opened BlockRing

  /** Moving a position forward by `n` cells, as every operation writes it out. */
  method Forward(g: Geometry, h: nat, l: nat, n: nat, ghost p: nat) returns (h': nat, l': nat)
    requires Usable(g) && l == p % g.size && (h == WriteH(g, p) || h == ReadH(g, p))
    ensures l' == (p + n) % g.size
    ensures h == WriteH(g, p) ==> h' == WriteH(g, p + n)
    ensures h == ReadH(g, p) ==> h' == ReadH(g, p + n)
  {
    AdvanceRead(g, p, n);
    AdvanceWrite(g, p, n);
    DivBounds(p, g.size);
    DivBounds(l + n, g.size);
    DivBounds(h + (l + n) / g.size, 2 * g.cnt);
    l' := l + n;
    h' := (h + l' / g.size) % (2 * g.cnt);
    l' := l' % g.size;
  }

  lemma OffsetBelow(g: Geometry, k: nat)
    requires Usable(g)
    ensures 0 <= k % g.size < g.size
  {
    DivBounds(k, g.size);
  }

  /** Where the writer's position lies in the array. */
  lemma WriteCell(g: Geometry, k: nat)
    requires Usable(g)
    ensures WriteH(g, k) % g.cnt == BlockOf(g, k) < g.cnt && 0 <= k % g.size < g.size
  {
    BlockOfH(g, k);
    BlockOfBounds(g, k);
    OffsetBelow(g, k);
  }

  lemma StartPositions(g: Geometry)
    requires Usable(g)
    ensures PackWrite(g, 0) == 0 && PackRead(g, 0) == g.cnt * 65536 && ReadH(g, 0) == g.cnt
  {
    DivUnique(0, g.size, 0, 0);
    DivUnique(0, 2 * g.cnt, 0, 0);
    DivUnique(g.cnt, 2 * g.cnt, 0, g.cnt);
  }

  lemma UnpackPositions(g: Geometry, r: nat, w: nat)
    requires Usable(g)
    ensures PackWrite(g, w) / 65536 == WriteH(g, w) && PackWrite(g, w) % 65536 == w % g.size
    ensures PackRead(g, r) / 65536 == ReadH(g, r) && PackRead(g, r) % 65536 == r % g.size
    ensures 0 <= r % g.size < g.size && 0 <= w % g.size < g.size
  {
    Offsets(g, r);
    Offsets(g, w);
    PackLossless(ReadH(g, r), r % g.size);
    PackLossless(WriteH(g, w), w % g.size);
  }

  /** The test of `send_buff_prepare` for reader and writer being in the same block, the writer not
      having come round. */
  lemma BlocksEqual(g: Geometry, r: nat, w: nat)
    requires Usable(g) && r <= w <= r + Capacity(g)
    ensures ReadH(g, r) != WriteH(g, w) && WriteH(g, w) % g.cnt == ReadH(g, r) % g.cnt
            <==> r / g.size == w / g.size
    ensures r / g.size == w / g.size ==> r % g.size <= w % g.size
    ensures ReadH(g, r) % g.cnt == BlockOf(g, r) < g.cnt
  {
    BlockOfH(g, r);
    BlockOfH(g, w);
    BlockOfBounds(g, r);
    BlockDistance(g, r, w);
    EqualBlocks(g, r, w);
    if r / g.size < w / g.size && BlockOf(g, r) == BlockOf(g, w) {
      DivBounds(r, g.size);
      SameResidue(r / g.size, w / g.size, g.cnt);
    }
  }

  function Smaller(a: int, b: int): int
  {
    if a < b then a else b
  }

  /** The contiguous run `send_buff_prepare` offers is all that is queued of the reader's block. */
  lemma ContiguousQueued(g: Geometry, r: nat, w: nat, size: int)
    requires Usable(g) && r <= w <= r + Capacity(g)
    requires size == if r / g.size == w / g.size then w % g.size - r % g.size else g.size - r % g.size
    ensures 0 <= size <= w - r && r % g.size + size <= g.size && (size > 0 <==> r < w)
    ensures size == Smaller(w - r, g.size - r % g.size)
  {
    BlockDistance(g, r, w);
    DivBounds(r, g.size);
    DivBounds(w, g.size);
    if r / g.size < w / g.size {
      MulMonotonic(g.size, r / g.size + 1, w / g.size);
      MulMonotonic(g.size, r / g.size, r / g.size);
    }
  }

  /** The blocks after the one a position is in, each entered at its first cell. */
  lemma AlignedRun(g: Geometry, p: nat, i: nat)
    requires Usable(g)
    ensures 0 <= p % g.size < g.size
    ensures var q := p + (g.size - p % g.size) + i * g.size;
            && q % g.size == 0 && (WriteH(g, p) + 1 + i) % g.cnt == BlockOf(g, q) < g.cnt
            && (WriteH(g, p) + 1 + i) % (2 * g.cnt) == WriteH(g, q)
            && (ReadH(g, p) + i + 1) % g.cnt == BlockOf(g, q) && (ReadH(g, p) + i + 1) % (2 * g.cnt) == ReadH(g, q)
  {
    DivBounds(p, g.size);
    var q := p + (g.size - p % g.size) + i * g.size;
    Distribute(g.size, p / g.size, 1 + i);
    DivUnique(q, g.size, p / g.size + 1 + i, 0);
    ModAdd(p / g.size, 1 + i, 2 * g.cnt);
    ModAdd(p / g.size + g.cnt, 1 + i, 2 * g.cnt);
    BlockOfH(g, q);
    BlockOfBounds(g, q);
    DivBounds(p / g.size, 2 * g.cnt);
    DivBounds(p / g.size + g.cnt, 2 * g.cnt);
    ModOfDouble(WriteH(g, p) + 1 + i, g.cnt);
    ModOfDouble(ReadH(g, p) + 1 + i, g.cnt);
  }

  lemma RoomForOne(s: nat, i: nat, n: nat)
    requires i < n
    ensures i * s + s <= n * s && (i + 1) * s == i * s + s
  {
    MulMonotonic(s, i + 1, n);
  }

  lemma LastOffset(g: Geometry, q: nat, left: nat)
    requires Usable(g) && q % g.size == 0 && left < g.size
    ensures (q + left) % g.size == left && WriteH(g, q + left) == WriteH(g, q) && ReadH(g, q + left) == ReadH(g, q)
  {
    DivModAdvance(q, left, g.size);
    DivUnique(left, g.size, 0, left);
  }

  /** The positions a payload that spans several blocks passes through. */
  lemma SpanPlan(g: Geometry, p: nat, n: nat, rest: nat, blocks: nat, left: nat)
    requires Usable(g) && rest < n && rest == g.size - p % g.size
    requires n - rest == g.size * blocks + left && left < g.size
    ensures WriteH(g, p) % g.cnt == BlockOf(g, p) < g.cnt
    ensures rest + blocks * g.size + left == n
    ensures var q := p + (rest + blocks * g.size);
            q % g.size == 0 && (WriteH(g, p) + 1 + blocks) % g.cnt == BlockOf(g, q) < g.cnt
    ensures (WriteH(g, p) + 1 + blocks) % (2 * g.cnt) == WriteH(g, p + n) && left == (p + n) % g.size
  {
    BlockOfH(g, p);
    BlockOfBounds(g, p);
    AlignedRun(g, p, blocks);
    LastOffset(g, p + (rest + blocks * g.size), left);
  }

  lemma ReadPlan(g: Geometry, p: nat, n: nat, rest: nat, blocks: nat, left: nat)
    requires Usable(g) && rest < n && rest == g.size - p % g.size
    requires n - rest == g.size * blocks + left && left < g.size
    ensures ReadH(g, p) % g.cnt == BlockOf(g, p) < g.cnt
    ensures rest + blocks * g.size + left == n
    ensures var q := p + (rest + blocks * g.size);
            q % g.size == 0 && (ReadH(g, p) + blocks + 1) % g.cnt == BlockOf(g, q) < g.cnt
    ensures (ReadH(g, p) + blocks + 1) % (2 * g.cnt) == ReadH(g, p + n) && left == (p + n) % g.size
  {
    BlockOfH(g, p);
    BlockOfBounds(g, p);
    AlignedRun(g, p, blocks);
    LastOffset(g, p + (rest + blocks * g.size), left);
  }
}
