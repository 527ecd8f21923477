/** Positions in the segmented rings of engine/net/buff.c.  A ring of `cnt` blocks of `size` cells is
    addressed by a block number `H` that runs modulo twice the block count and an offset `L`; the read
    position is stored `cnt` blocks ahead, so that equal positions mean a full ring.  Here positions
    are unbounded counters, and these functions give their encoding. */
module Ring {
  import opened Options
  import opened Arith

  datatype Geometry = Geometry(cnt: nat, size: nat)

  ghost predicate Usable(g: Geometry)
  {
    1 <= g.cnt && 2 * g.cnt <= 65536 && 1 <= g.size <= 65535
  }

  function Capacity(g: Geometry): nat
  {
    g.cnt * g.size
  }

  /** `H` of a write position. */
  ghost function WriteH(g: Geometry, w: nat): nat
    requires Usable(g)
  {
    (w / g.size) % (2 * g.cnt)
  }

  /** `H` of a read or check position. */
  ghost function ReadH(g: Geometry, r: nat): nat
    requires Usable(g)
  {
    (r / g.size + g.cnt) % (2 * g.cnt)
  }

  /** `H << 16 | L` */
  function Pack(h: nat, l: nat): nat
  {
    h * 65536 + l
  }

  ghost function PackWrite(g: Geometry, w: nat): nat
    requires Usable(g)
  {
    Pack(WriteH(g, w), w % g.size)
  }

  ghost function PackRead(g: Geometry, r: nat): nat
    requires Usable(g)
  {
    Pack(ReadH(g, r), r % g.size)
  }

  /** `buff_get_space` */
  function GetSpace(g: Geometry, hRead: nat, lRead: nat, hWrite: nat, lWrite: nat): int
  {
    if hRead > hWrite then (hRead - hWrite) * g.size + lRead - lWrite
    else if hRead == hWrite then lRead - lWrite
    else (2 * g.cnt + hRead - hWrite) * g.size + lRead - lWrite
  }

  /** The packed form loses nothing. */
  lemma PackLossless(h: nat, l: nat)
    requires l < 65536
    ensures Pack(h, l) / 65536 == h && Pack(h, l) % 65536 == l
  {
  }

  /** Packed in 32 bits, every block number of a ring survives exactly when twice the block count does
      not exceed 65536, although creation accepts block counts up to 0xefff. */
  lemma PackFitsExactly(cnt: nat)
    requires 1 <= cnt <= 0xefff
    ensures (forall h, l :: 0 <= h < 2 * cnt && 0 <= l < 65536 ==> (Pack(h, l) % 0x1_0000_0000) / 65536 == h)
            <==> 2 * cnt <= 65536
  {
    if 2 * cnt > 65536 {
      assert 0 <= 65536 < 2 * cnt && (Pack(65536, 0) % 0x1_0000_0000) / 65536 == 0;
    }
  }

  /** Where the blocks of the reader and the writer are relative to each other. */
  lemma BlockDistance(g: Geometry, r: nat, w: nat)
    requires Usable(g) && r <= w <= r + Capacity(g)
    ensures r / g.size <= w / g.size <= r / g.size + g.cnt
    ensures w / g.size == r / g.size + g.cnt ==> w % g.size <= r % g.size
    ensures w / g.size == r / g.size ==> r % g.size <= w % g.size
  {
    var s := g.size;
    DivBounds(r, s);
    DivBounds(w, s);
    CapacityIs(g);
    BlocksApart(s, g.cnt, r / s, r % s, w / s, w % s);
  }

  lemma CapacityIs(g: Geometry)
    ensures Capacity(g) == g.size * g.cnt
  {
  }

  /** `buff_get_space` is the number of free cells, for every reachable pair of positions. */
  lemma SpaceIsFree(g: Geometry, r: nat, w: nat)
    requires Usable(g) && r <= w <= r + Capacity(g)
    ensures GetSpace(g, ReadH(g, r), r % g.size, WriteH(g, w), w % g.size) == r + Capacity(g) - w
  {
    BlockDistance(g, r, w);
    var s := g.size;
    DivBounds(r, s);
    DivBounds(w, s);
    CapacityIs(g);
    ModDifference(r / s + g.cnt, w / s, 2 * g.cnt);
    SpaceOfBlocks(g, r / s, r % s, w / s, w % s);
  }

  lemma SpaceOfBlocks(g: Geometry, a: nat, x: nat, b: nat, y: nat)
    requires Usable(g) && a <= b <= a + g.cnt
    requires var h, k, m := (a + g.cnt) % (2 * g.cnt), b % (2 * g.cnt), 2 * g.cnt;
             a + g.cnt - b == if h >= k then h - k else m + h - k
    ensures GetSpace(g, (a + g.cnt) % (2 * g.cnt), x, b % (2 * g.cnt), y)
            == (g.size * a + x) + g.size * g.cnt - (g.size * b + y)
  {
    DistanceTimes(g.size, a, g.cnt, b, a + g.cnt - b);
  }

  lemma DistanceTimes(s: nat, a: nat, c: nat, b: nat, d: int)
    requires d == a + c - b
    ensures d * s == s * a + s * c - s * b
  {
  }

  /** Equal packed positions mean a full ring. */
  lemma FullIsEqual(g: Geometry, r: nat, w: nat)
    requires Usable(g) && r <= w <= r + Capacity(g)
    ensures PackRead(g, r) == PackWrite(g, w) <==> w == r + Capacity(g)
  {
    Offsets(g, r);
    Offsets(g, w);
    PackInjective(ReadH(g, r), r % g.size, WriteH(g, w), w % g.size);
    EqualBlocks(g, r, w);
    FullBlocks(g, r);
    if w / g.size == r / g.size + g.cnt && w % g.size == r % g.size {
      SameDivMod(w, r + Capacity(g), g.size);
    }
  }

  /** Equal block numbers mean that the writer has come round to the block of the reader. */
  lemma EqualBlocks(g: Geometry, r: nat, w: nat)
    requires Usable(g) && r <= w <= r + Capacity(g)
    ensures ReadH(g, r) == WriteH(g, w) <==> w / g.size == r / g.size + g.cnt
  {
    BlockDistance(g, r, w);
    DivBounds(r, g.size);
    DivBounds(w, g.size);
    SameBlockNumber(r / g.size, w / g.size, g.cnt);
  }

  lemma PackInjective(h: nat, l: nat, h': nat, l': nat)
    requires l < 65536 && l' < 65536
    ensures Pack(h, l) == Pack(h', l') <==> h == h' && l == l'
  {
  }

  lemma SameBlockNumber(a: nat, b: nat, c: nat)
    requires c > 0 && a <= b <= a + c
    ensures (a + c) % (2 * c) == b % (2 * c) <==> b == a + c
  {
    ModDifference(a + c, b, 2 * c);
  }

  lemma SameDivMod(x: nat, y: nat, m: nat)
    requires m > 0 && x / m == y / m && x % m == y % m
    ensures x == y
  {
    DivBounds(x, m);
    DivBounds(y, m);
  }

  lemma FullBlocks(g: Geometry, r: nat)
    requires Usable(g)
    ensures (r + Capacity(g)) / g.size == r / g.size + g.cnt && (r + Capacity(g)) % g.size == r % g.size
  {
    DivBounds(r, g.size);
    Distribute(g.size, r / g.size, g.cnt);
    assert Capacity(g) == g.size * g.cnt;
    DivUnique(r + Capacity(g), g.size, r / g.size + g.cnt, r % g.size);
  }

  lemma Offsets(g: Geometry, k: nat)
    requires Usable(g)
    ensures k / g.size >= 0 && 0 <= k % g.size < g.size < 65536
    ensures WriteH(g, k) < 2 * g.cnt && ReadH(g, k) < 2 * g.cnt
  {
    DivBounds(k, g.size);
    DivBounds(k / g.size, 2 * g.cnt);
    DivBounds(k / g.size + g.cnt, 2 * g.cnt);
  }

  /** Moving a packed position forward, as every operation does it. */
  lemma AdvanceWrite(g: Geometry, w: nat, n: nat)
    requires Usable(g)
    ensures (WriteH(g, w) + (w % g.size + n) / g.size) % (2 * g.cnt) == WriteH(g, w + n)
    ensures (w % g.size + n) % g.size == (w + n) % g.size
  {
    DivModAdvance(w, n, g.size);
    ModAdd(w / g.size, (w % g.size + n) / g.size, 2 * g.cnt);
  }

  lemma AdvanceRead(g: Geometry, r: nat, n: nat)
    requires Usable(g)
    ensures (ReadH(g, r) + (r % g.size + n) / g.size) % (2 * g.cnt) == ReadH(g, r + n)
    ensures (r % g.size + n) % g.size == (r + n) % g.size
  {
    DivModAdvance(r, n, g.size);
    ModAdd(r / g.size + g.cnt, (r % g.size + n) / g.size, 2 * g.cnt);
  }

  // ---------------------------------------------------------------- cells

  /** The block of the ring that a position lies in. */
  ghost function BlockOf(g: Geometry, k: nat): nat
    requires Usable(g)
  {
    (k / g.size) % g.cnt
  }

  lemma BlockOfH(g: Geometry, k: nat)
    requires Usable(g)
    ensures WriteH(g, k) % g.cnt == BlockOf(g, k) && ReadH(g, k) % g.cnt == BlockOf(g, k)
  {
    ModOfDouble(k / g.size, g.cnt);
    ModOfDouble(k / g.size + g.cnt, g.cnt);
    ModPlusModulus(k / g.size, g.cnt);
  }

  /** Two positions less than a capacity apart never share a cell. */
  lemma CellsDiffer(g: Geometry, k: nat, p: nat)
    requires Usable(g) && k < p < k + Capacity(g)
    ensures BlockOf(g, k) != BlockOf(g, p) || k % g.size != p % g.size
  {
    var s := g.size;
    DivBounds(k, s);
    DivBounds(p, s);
    DivMonotonic(k, p, s);
    var a, b := k / s, p / s;
    if BlockOf(g, k) == BlockOf(g, p) && k % s == p % s {
      assert p - k == s * b - s * a;
      Distribute(s, a, b - a);
      assert s * (b - a) < s * g.cnt;
      if b - a >= g.cnt { MulMonotonic(s, g.cnt, b - a); }
      ModDifference(b, a, g.cnt);
      assert false;
    }
  }

  type Blocks<T> = seq<Option<seq<T>>>

  /** The ring has the right number of blocks, and every allocated one the right size. */
  ghost predicate Shaped<T>(g: Geometry, blocks: Blocks<T>)
  {
    |blocks| == g.cnt && forall i :: 0 <= i < |blocks| && blocks[i].Some? ==> |blocks[i].value| == g.size
  }

  /** The cell of position `k` is allocated and holds `x`. */
  ghost predicate CellHolds<T>(g: Geometry, blocks: Blocks<T>, k: nat, x: T)
    requires Usable(g) && Shaped(g, blocks)
  {
    blocks[BlockOf(g, k)].Some? && blocks[BlockOf(g, k)].value[k % g.size] == x
  }

  /** The cells of the positions from `lo` to the end of the stream hold the stream. */
  ghost predicate Holds<T>(g: Geometry, blocks: Blocks<T>, lo: nat, stream: seq<T>)
  {
    Usable(g) && Shaped(g, blocks) && forall k :: lo <= k < |stream| ==> CellHolds(g, blocks, k, stream[k])
  }

  /** A block with a run of cells overwritten. */
  ghost function Overwrite<T>(b: seq<T>, at: nat, data: seq<T>): seq<T>
    requires at + |data| <= |b|
  {
    b[..at] + data + b[at + |data|..]
  }

  /** Storing a run of cells behind the stream, inside one block and inside the free space, extends
      what the ring holds. */
  lemma StoreExtends<T>(g: Geometry, blocks: Blocks<T>, lo: nat, stream: seq<T>, data: seq<T>)
    requires Holds(g, blocks, lo, stream) && lo <= |stream| && |stream| + |data| <= lo + Capacity(g)
    requires |stream| % g.size + |data| <= g.size && blocks[BlockOf(g, |stream|)].Some?
    ensures var i := BlockOf(g, |stream|);
            Holds(g, blocks[i := Some(Overwrite(blocks[i].value, |stream| % g.size, data))], lo, stream + data)
  {
    var i, at := BlockOf(g, |stream|), |stream| % g.size;
    var blocks' := blocks[i := Some(Overwrite(blocks[i].value, at, data))];
    forall k | lo <= k < |stream + data| ensures CellHolds(g, blocks', k, (stream + data)[k]) {
      if k < |stream| {
        assert CellHolds(g, blocks, k, stream[k]);
        if BlockOf(g, k) == i {
          OldCellOutside(g, k, |stream|, |data|);
        }
      } else {
        InSameBlock(g, |stream|, k - |stream|);
      }
    }
  }

  lemma InSameBlock(g: Geometry, p: nat, j: nat)
    requires Usable(g) && p % g.size + j < g.size
    ensures BlockOf(g, p + j) == BlockOf(g, p) && (p + j) % g.size == p % g.size + j
  {
    DivModAdvance(p, j, g.size);
    DivUnique(p % g.size + j, g.size, 0, p % g.size + j);
  }

  /** An older cell in the same block lies outside a run stored at `p`. */
  lemma OldCellOutside(g: Geometry, k: nat, p: nat, n: nat)
    requires Usable(g) && k < p && p + n <= k + Capacity(g) && p % g.size + n <= g.size
    requires BlockOf(g, k) == BlockOf(g, p)
    ensures k % g.size < p % g.size || k % g.size >= p % g.size + n
  {
    if p % g.size <= k % g.size < p % g.size + n {
      var j := k % g.size - p % g.size;
      InSameBlock(g, p, j);
      CellsDiffer(g, k, p + j);
    }
  }

  /** Allocating a missing block changes nothing that is held. */
  lemma AllocKeeps<T>(g: Geometry, blocks: Blocks<T>, lo: nat, stream: seq<T>, i: nat, b: seq<T>)
    requires Holds(g, blocks, lo, stream) && i < g.cnt && blocks[i].None? && |b| == g.size
    ensures Holds(g, blocks[i := Some(b)], lo, stream)
  {
    forall k | lo <= k < |stream| ensures CellHolds(g, blocks[i := Some(b)], k, stream[k]) {
      assert CellHolds(g, blocks, k, stream[k]);
    }
  }

  /** A shorter stream or a later start is held as well. */
  lemma HoldsLess<T>(g: Geometry, blocks: Blocks<T>, lo: nat, stream: seq<T>, lo': nat, n: nat)
    requires Holds(g, blocks, lo, stream) && lo <= lo' && n <= |stream|
    ensures Holds(g, blocks, lo', stream[..n])
  {
    forall k | lo' <= k < n ensures CellHolds(g, blocks, k, stream[..n][k]) {
      assert CellHolds(g, blocks, k, stream[k]);
    }
  }

  /** Reading a run of cells inside one block. */
  lemma RunInBlock<T>(g: Geometry, blocks: Blocks<T>, lo: nat, stream: seq<T>, p: nat, n: nat)
    requires Holds(g, blocks, lo, stream) && lo <= p && p + n <= |stream| && p % g.size + n <= g.size && n > 0
    ensures blocks[BlockOf(g, p)].Some?
    ensures blocks[BlockOf(g, p)].value[p % g.size..p % g.size + n] == stream[p..p + n]
  {
    assert CellHolds(g, blocks, p, stream[p]);
    var cells := blocks[BlockOf(g, p)].value[p % g.size..p % g.size + n];
    forall j | 0 <= j < n ensures cells[j] == stream[p..p + n][j] {
      InSameBlock(g, p, j);
      assert CellHolds(g, blocks, p + j, stream[p + j]);
    }
  }
}
