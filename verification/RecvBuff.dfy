/** The receive ring (version A) of engine/net/buff.c. */
module RecvBuff {
  import opened Options
  import opened Arith
  import opened Ring
  import opened BlockRing
  import opened Framing
  import opened RingSpans

  /** Conversion of an `int` to `unsigned int`. */
  function Unsigned(n: int): (u: nat)
    requires -0x8000_0000 <= n < 0x8000_0000
    ensures n >= 0 ==> u == n
    ensures n < 0 ==> u >= 0x8000_0000
  {
    n % 0x1_0000_0000
  }

  /** `buff_gain_msg_size`, with the reader at position `r` and the writer at the end of the stream. */
  method GainMsgSize(ring: BlockArray<Byte>, en: HeaderSize, hRead: nat, lRead: nat, hWrite: nat, lWrite: nat,
                     ghost lo: nat, ghost r: nat, ghost stream: seq<Byte>) returns (err: int)
    requires ring.Valid() && Holds(ring.g, ring.Blocks(), lo, stream)
    requires lo <= r <= |stream| <= r + Capacity(ring.g)
    requires hRead == ReadH(ring.g, r) && lRead == r % ring.g.size
    requires hWrite == WriteH(ring.g, |stream|) && lWrite == |stream| % ring.g.size
    ensures err == Gain(en, Capacity(ring.g), stream[r..])
  {
    SpaceIsFree(ring.g, r, |stream|);
    var writeSize := Capacity(ring.g) - GetSpace(ring.g, hRead, lRead, hWrite, lWrite);
    if writeSize < en { return 0; }
    var size := GainHeader(ring, en, hRead, lRead, lo, r, stream);
    assert stream[r..r + en] == stream[r..][..en];
    if size < en { return MSG_SMALL; }
    if size > Capacity(ring.g) { return MSG_BIG; }
    if size > writeSize { return 0; }
    return size;
  }

  /** Its loop over the bytes of the header. */
  method GainHeader(ring: BlockArray<Byte>, en: HeaderSize, hRead: nat, lRead: nat,
                    ghost lo: nat, ghost r: nat, ghost stream: seq<Byte>) returns (size: nat)
    requires ring.Valid() && Holds(ring.g, ring.Blocks(), lo, stream) && lo <= r && r + en <= |stream|
    requires hRead == ReadH(ring.g, r) && lRead == r % ring.g.size
    ensures size == FromBytes(stream[r..r + en])
  {
    size := 0;
    var weight: nat := 1;
    assert stream[r..r] == [];
    for i := 0 to en
      invariant size == FromBytes(stream[r..r + i]) && weight == Pow256(i)
    {
      var b := HeaderByte(ring, i, hRead, lRead, lo, r, stream);
      HeaderGrows(stream, r, i);
      size := size + b * weight;
      weight := weight * 256;
    }
  }

  method HeaderByte(ring: BlockArray<Byte>, i: nat, hRead: nat, lRead: nat,
                    ghost lo: nat, ghost r: nat, ghost stream: seq<Byte>) returns (b: Byte)
    requires ring.Valid() && Holds(ring.g, ring.Blocks(), lo, stream) && lo <= r && r + i < |stream|
    requires hRead == ReadH(ring.g, r) && lRead == r % ring.g.size
    ensures b == stream[r + i]
  {
    HeaderCell(ring.g, r, i);
    RunInBlock(ring.g, ring.Blocks(), lo, stream, r + i, 1);
    var run := ring.Load((hRead + (lRead + i) / ring.g.size) % ring.g.cnt, (lRead + i) % ring.g.size, 1);
    b := run[0];
  }

  lemma HeaderGrows(stream: seq<Byte>, r: nat, i: nat)
    requires r + i < |stream|
    ensures FromBytes(stream[r..r + i + 1]) == FromBytes(stream[r..r + i]) + stream[r + i] * Pow256(i)
  {
    AppendByte(stream[r..r + i], stream[r + i]);
    assert stream[r..r + i] + [stream[r + i]] == stream[r..r + i + 1];
  }

  lemma HeaderCell(g: Geometry, r: nat, i: nat)
    requires Usable(g)
    ensures r % g.size >= 0 && (r % g.size + i) % g.size == (r + i) % g.size
    ensures 0 <= (r + i) % g.size < g.size
    ensures 0 <= (r % g.size + i) / g.size
    ensures (ReadH(g, r) + (r % g.size + i) / g.size) % g.cnt == BlockOf(g, r + i) < g.cnt
  {
    DivBounds(r, g.size);
    DivBounds(r + i, g.size);
    DivBounds(r % g.size + i, g.size);
    AdvanceRead(g, r, i);
    Offsets(g, r);
    ModOfDouble(ReadH(g, r) + (r % g.size + i) / g.size, g.cnt);
    BlockOfH(g, r + i);
    BlockOfBounds(g, r + i);
  }

  lemma {:induction false} AppendByte(s: seq<Byte>, b: Byte)
    ensures FromBytes(s + [b]) == FromBytes(s) + b * Pow256(|s|)
  {
    if s == [] {
      assert s + [b] == [b];
    } else {
      AppendByte(s[1..], b);
      assert (s + [b])[1..] == s[1..] + [b];
    }
  }

  class RecvRing {
    const ring: BlockArray<Byte>
    const g: Geometry
    const enByte: HeaderSize
    var write: nat
    var read: nat
    var check: nat
    var freeH: nat

    /** Every byte ever received, how many of them have been read out, how far complete frames have
        been counted, and how many bytes the last `Prepare` offers, with what was put there. */
    ghost var log: seq<Byte>
    ghost var taken: nat
    ghost var checked: nat
    ghost var offered: nat
    ghost var ahead: seq<Byte>

    ghost function Repr(): set<object>
      reads this, ring
    {
      {this, ring} + ring.repr
    }

    ghost predicate Valid()
      reads this, ring, ring.buffers, ring.repr
    {
      && this !in ring.repr && ring.Valid() && ring.g == g && Usable(g)
      && Places(g, write, read, check, freeH, |log|, taken, checked)
      && Holds(g, ring.Blocks(), taken, log + ahead)
      && |ahead| <= offered && RoomAt(g, ring.Blocks(), taken, |log|, offered)
      && OnFrames(enByte, Capacity(g), log, taken, checked)
    }

    /** The bytes received and not yet read. */
    ghost function Queued(): seq<Byte>
      requires taken <= |log|
      reads this
    {
      log[taken..]
    }

    constructor (g: Geometry, enByte: HeaderSize)
      requires Usable(g)
      ensures Valid() && fresh(Repr()) && this.g == g && this.enByte == enByte && log == [] && taken == 0
    {
      this.g := g;
      this.enByte := enByte;
      ring := new BlockArray(g);
      write := 0;
      read := g.cnt * 65536;
      check := g.cnt * 65536;
      freeH := g.cnt;
      log := [];
      ahead := [];
      taken := 0;
      checked := 0;
      offered := 0;
      new;
      StartPositions(g);
      OffsetBelow(g, 0);
    }

    /** `recv_buff_prepare_vA`: where the next bytes may be put, in the block of the write position.  Nothing is
        offered exactly when the ring is full or that block is missing and the allocator has none to give. */
    method Prepare(memory: nat) returns (size: nat, block: nat, offset: nat, left: nat, ghost failed: bool)
      requires Valid()
      modifies this`offered, this`ahead, ring, ring.buffers
      ensures Valid() && fresh(ring.repr - old(ring.repr)) && offered == size && ahead == []
      ensures var missing := |Queued()| < Capacity(g) && old(ring.Blocks())[BlockOf(g, |log|)].None?;
              (failed <==> missing && memory == 0) && left == if missing && memory > 0 then memory - 1 else memory
      ensures size == if failed then 0 else Smaller(Capacity(g) - |Queued()|, g.size - |log| % g.size)
      ensures size > 0 ==> block == BlockOf(g, |log|) && offset == |log| % g.size
    {
      size, block, offset, left, failed := 0, 0, 0, memory, false;
      offered, ahead := 0, [];
      assert log + ahead == log;
      HoldsLess(g, ring.Blocks(), taken, log + old(ahead), taken, |log|);
      assert (log + old(ahead))[..|log|] == log;
      UnpackPositions(g, taken, |log|);
      var hWrite, lWrite := write / 65536, write % 65536;
      var hRead, lRead := read / 65536, read % 65536;
      SpaceIsFree(g, taken, |log|);
      var space := GetSpace(g, hRead, lRead, hWrite, lWrite);
      if space == 0 { return; }
      BlockOfH(g, |log|);
      BlockOfBounds(g, |log|);
      block, offset := hWrite % g.cnt, lWrite;
      var ok;
      ok, left := Allocate(block, memory);
      if !ok {
        failed := true;
        return;
      }
      FreeRun(g, taken, |log|);
      size := if hRead == hWrite then space else g.size - lWrite;
      offered := size;
    }

    method Allocate(block: nat, memory: nat) returns (ok: bool, left: nat)
      requires ring.Valid() && ring.g == g && this !in ring.repr && block < g.cnt
      requires Holds(g, ring.Blocks(), taken, log)
      modifies ring, ring.buffers
      ensures ring.Valid() && fresh(ring.repr - old(ring.repr)) && Holds(g, ring.Blocks(), taken, log)
      ensures ok <==> old(ring.Blocks())[block].Some? || memory > 0
      ensures ok ==> ring.Blocks()[block].Some?
      ensures left == if old(ring.Blocks())[block].None? && memory > 0 then memory - 1 else memory
    {
      ghost var before, cells := ring.Blocks(), [];
      ok, left, cells := ring.EnsureBlock(block, memory);
      if before[block].None? && ok { AllocKeeps(g, before, taken, log, block, cells); }
    }

    /** What the kernel does between `Prepare` and `Consume`. */
    method Fill(block: nat, offset: nat, data: seq<Byte>)
      requires Valid() && |data| <= offered && block == BlockOf(g, |log|) && offset == |log| % g.size
      modifies this`ahead, ring.repr
      ensures Valid() && ring.repr == old(ring.repr) && ahead == data
    {
      HoldsLess(g, ring.Blocks(), taken, log + ahead, taken, |log|);
      assert (log + ahead)[..|log|] == log;
      BlockOfBounds(g, |log|);
      OffsetBelow(g, |log|);
      if data != [] {
        StoreExtends(g, ring.Blocks(), taken, log, data);
        ring.Store(block, offset, data);
      } else {
        assert log + data == log;
      }
      ahead := data;
    }

    /** `recv_buff_check_new_msg`: moves the check position over the complete frames. */
    method CheckNewMsg(newWrite: nat, ghost stream: seq<Byte>) returns (ret: int)
      requires Scannable(stream) && newWrite == PackWrite(g, |stream|)
      modifies this`check, this`checked
      ensures check == PackRead(g, checked)
      ensures checked == old(checked) + Consumed(enByte, Capacity(g), stream[old(checked)..]) <= |stream|
      ensures var stop := Gain(enByte, Capacity(g), stream[checked..]);
              && stop <= 0
              && ret == if stop < 0 then stop else CountFrames(enByte, Capacity(g), stream[old(checked)..])
    {
      UnpackPositions(g, checked, |stream|);
      var hWrite, lWrite := newWrite / 65536, newWrite % 65536;
      var hRead, lRead := check / 65536, check % 65536;
      var count: nat := 0;
      while true
        invariant Scannable(stream) && hRead == ReadH(g, checked) && lRead == checked % g.size
        invariant ScanAt(enByte, Capacity(g), stream, old(checked), checked, count)
        decreases |stream| - checked
      {
        var err;
        ghost var at := checked;
        err, hRead, lRead := CheckFrame(hRead, lRead, hWrite, lWrite, stream);
        ScanStep(enByte, Capacity(g), stream, old(checked), at, count, err, checked);
        if err < 0 { return err; }
        if err == 0 { return count; }
        count := count + 1;
      }
    }

    ghost predicate Scannable(stream: seq<Byte>)
      reads this, ring, ring.buffers, ring.repr
    {
      && ring.Valid() && ring.g == g && Usable(g) && this !in ring.repr
      && Holds(g, ring.Blocks(), taken, stream)
      && taken <= checked <= |stream| <= taken + Capacity(g)
      && check == PackRead(g, checked)
    }

    /** One round of its loop. */
    method CheckFrame(hRead: nat, lRead: nat, hWrite: nat, lWrite: nat, ghost stream: seq<Byte>)
      returns (err: int, h: nat, l: nat)
      requires Scannable(stream) && hRead == ReadH(g, checked) && lRead == checked % g.size
      requires hWrite == WriteH(g, |stream|) && lWrite == |stream| % g.size
      modifies this`check, this`checked
      ensures Scannable(stream) && err == Gain(enByte, Capacity(g), stream[old(checked)..])
      ensures checked == if err > 0 then old(checked) + err else old(checked)
      ensures h == ReadH(g, checked) && l == checked % g.size
    {
      err := GainMsgSize(ring, enByte, hRead, lRead, hWrite, lWrite, taken, checked, stream);
      GainBounds(enByte, Capacity(g), stream[checked..]);
      h, l := hRead, lRead;
      if err > 0 {
        h, l := Forward(g, hRead, lRead, err, checked);
        checked := checked + err;
        check := Pack(h, l);
      }
    }

    /** `recv_buff_consume_vA` of bytes that were put where `Prepare` said.  It answers how many frames
        they completed, unless a malformed header follows, which it reports instead. */
    method Consume(size: nat) returns (ret: int)
      requires Valid() && size <= |ahead|
      modifies this
      ensures Valid() && taken == old(taken)
      ensures log == old(log) + old(ahead)[..size]
      ensures ret == ConsumeResult(enByte, Capacity(g), old(log), old(ahead)[..size])
    {
      if size == 0 {
        assert log + ahead[..0] == log;
        return 0;
      }
      ret := ConsumeSome(size);
    }

    method ConsumeSome(size: nat) returns (ret: int)
      requires Valid() && 0 < size <= |ahead|
      modifies this
      ensures Valid() && taken == old(taken)
      ensures log == old(log) + old(ahead)[..size]
      ensures ret == ConsumeResult(enByte, Capacity(g), old(log), old(ahead)[..size])
    {
      ghost var stream := log + ahead[..size];
      HoldsChunk(g, ring.Blocks(), taken, log, ahead, size);
      RoomForNothing(g, ring.Blocks(), taken, |stream|);
      ret, write := ScanChunk(size);
      log, ahead, offered := stream, [], 0;
    }

    /** Moves the check position over the frames that `size` more bytes complete. */
    method ScanChunk(size: nat) returns (ret: int, newWrite: nat)
      requires Valid() && 0 < size <= |ahead|
      modifies this`check, this`checked
      ensures newWrite == PackWrite(g, |log| + size) && check == PackRead(g, checked)
      ensures OnFrames(enByte, Capacity(g), log + ahead[..size], taken, checked)
      ensures ret == ConsumeResult(enByte, Capacity(g), log, ahead[..size])
    {
      ghost var chunk, from := ahead[..size], checked;
      HoldsChunk(g, ring.Blocks(), taken, log, ahead, size);
      UnpackPositions(g, taken, |log|);
      var hWrite, lWrite := Forward(g, write / 65536, write % 65536, size, |log|);
      newWrite := Pack(hWrite, lWrite);
      CheckedInside(enByte, Capacity(g), log, taken, checked);
      ret := CheckNewMsg(newWrite, log + chunk);
      ConsumeAnswer(enByte, Capacity(g), log, chunk, taken, from, checked, ret);
    }

    /** `recv_buff_read_vA` into a buffer of `room` bytes: the payload of the oldest complete frame, or
        its size if the buffer is too small, 0 if there is none, an error if its header is malformed. */
    method Read(room: int) returns (ret: int, payload: seq<Byte>)
      requires Valid() && -0x8000_0000 <= room < 0x8000_0000
      modifies this`taken, this`read, this`freeH, ring.buffers
      ensures Valid() && ring.repr == old(ring.repr)
      ensures Passed(g, old(ring.Blocks()), old(taken), taken, |log|, ring.Blocks())
      ensures var gain := Gain(enByte, Capacity(g), old(Queued()));
              if gain <= 0 then ret == gain && payload == [] && taken == old(taken)
              else if Unsigned(room) < gain - enByte then ret == gain - enByte && payload == [] && taken == old(taken)
              else taken == old(taken) + gain && ret == |payload| && payload == old(Queued())[enByte..gain]
    {
      UnpackPositions(g, taken, |log|);
      HoldsStream(g, ring.Blocks(), taken, log, ahead);
      var hRead, lRead := read / 65536, read % 65536;
      var hWrite, lWrite := write / 65536, write % 65536;
      var err := GainMsgSize(ring, enByte, hRead, lRead, hWrite, lWrite, taken, taken, log);
      GainBounds(enByte, Capacity(g), Queued());
      PassedNothing(g, ring.Blocks(), taken, |log|);
      if err <= 0 { return err, []; }
      if Unsigned(room) < err - enByte { return err - enByte, []; }
      payload := TakeFrame(err, hRead, lRead, hWrite);
      ret := err - enByte;
    }

    /** The part that copies the payload of a complete frame and removes the frame. */
    method TakeFrame(size: nat, hAt: nat, lAt: nat, hWrite: nat) returns (payload: seq<Byte>)
      requires Valid() && enByte <= size <= |Queued()| && size == Gain(enByte, Capacity(g), Queued())
      requires hAt == ReadH(g, taken) && lAt == taken % g.size && hWrite == WriteH(g, |log|)
      modifies this`taken, this`read, this`freeH, ring.buffers
      ensures Valid() && ring.repr == old(ring.repr)
      ensures Passed(g, old(ring.Blocks()), old(taken), taken, |log|, ring.Blocks())
      ensures taken == old(taken) + size && |payload| == size - enByte && payload == old(Queued())[enByte..size]
    {
      HoldsStream(g, ring.Blocks(), taken, log, ahead);
      var hRead, lRead := Forward(g, hAt, lAt, enByte, taken);
      payload, hRead, lRead := CopyOut(hRead, lRead, size - enByte, taken + enByte);
      assert Queued()[enByte..size] == log[taken + enByte..taken + size];
      Release(size, hRead, lRead, hWrite);
    }

    /** The end of a read: frees the blocks behind the reader and moves the read position. */
    method Release(size: nat, hRead: nat, lRead: nat, hWrite: nat)
      requires Valid() && size == Gain(enByte, Capacity(g), Queued()) > 0 && taken + size <= |log|
      requires hRead == ReadH(g, taken + size) && lRead == (taken + size) % g.size && hWrite == WriteH(g, |log|)
      modifies this`taken, this`read, this`freeH, ring.buffers
      ensures Valid() && ring.repr == old(ring.repr) && taken == old(taken) + size
      ensures Passed(g, old(ring.Blocks()), old(taken), taken, |log|, ring.Blocks())
    {
      NextFrame(enByte, Capacity(g), log, taken, checked);
      FreeBehind(size, hRead, hWrite);
      read := Pack(hRead, lRead);
      taken := taken + size;
    }

    method FreeBehind(size: nat, hRead: nat, hWrite: nat)
      requires Valid() && taken + size <= |log| && hRead == ReadH(g, taken + size) && hWrite == WriteH(g, |log|)
      modifies this`freeH, ring.buffers
      ensures ring.Valid() && ring.repr == old(ring.repr) && freeH == hRead
      ensures Holds(g, ring.Blocks(), taken + size, log + ahead)
              && RoomAt(g, ring.Blocks(), taken + size, |log|, offered)
      ensures Passed(g, old(ring.Blocks()), taken, taken + size, |log|, ring.Blocks())
    {
      BlockOfH(g, |log|);
      CollectRange(g, taken, taken + size);
      CollectKeeps(g, ring.Blocks(), taken, taken + size, |log|, log + ahead);
      ghost var f := taken / g.size;
      freeH := ring.GcHelp(freeH, hRead, hWrite, f, (taken + size) / g.size - f);
    }

    /** Its copy of the payload: the rest of the current block, whole blocks, and what is left over. */
    method CopyOut(hAt: nat, lAt: nat, n: nat, ghost p: nat) returns (data: seq<Byte>, h: nat, l: nat)
      requires ring.Valid() && ring.g == g && Usable(g) && Holds(g, ring.Blocks(), taken, log)
      requires taken <= p && p + n <= |log| && hAt == ReadH(g, p) && lAt == p % g.size
      ensures data == log[p..p + n] && h == ReadH(g, p + n) && l == (p + n) % g.size
    {
      OffsetBelow(g, p);
      BlockOfH(g, p);
      BlockOfBounds(g, p);
      if g.size - lAt >= n {
        if n > 0 { RunInBlock(g, ring.Blocks(), taken, log, p, n); }
        data := ring.Load(hAt % g.cnt, lAt, n);
        h, l := Forward(g, hAt, lAt, n, p);
      } else {
        data, h, l := CopySpanning(hAt, lAt, n, p);
      }
    }

    method CopySpanning(hAt: nat, lAt: nat, n: nat, ghost p: nat) returns (data: seq<Byte>, h: nat, l: nat)
      requires ring.Valid() && ring.g == g && Usable(g) && Holds(g, ring.Blocks(), taken, log)
      requires taken <= p && p + n <= |log| && hAt == ReadH(g, p)
      requires lAt == p % g.size < g.size && g.size - lAt < n
      ensures data == log[p..p + n] && h == ReadH(g, p + n) && l == (p + n) % g.size
    {
      var rest := g.size - lAt;
      DivBounds(n - rest, g.size);
      var blocks, left := (n - rest) / g.size, (n - rest) % g.size;
      ReadPlan(g, p, n, rest, blocks, left);
      RunInBlock(g, ring.Blocks(), taken, log, p, rest);
      data := ring.Load(hAt % g.cnt, lAt, rest);
      data := CopyBlocks(hAt, rest, blocks, data, p);
      data := CopyLast((hAt + blocks + 1) % g.cnt, left, data, p);
      h, l := (hAt + blocks + 1) % (2 * g.cnt), left;
    }

    method CopyLast(block: nat, left: nat, copied: seq<Byte>, ghost p: nat) returns (data: seq<Byte>)
      requires ring.Valid() && ring.g == g && Usable(g) && Holds(g, ring.Blocks(), taken, log)
      requires taken <= p && p + |copied| + left <= |log| && copied == log[p..p + |copied|] && left < g.size
      requires (p + |copied|) % g.size == 0 && block == BlockOf(g, p + |copied|) < g.cnt
      ensures data == log[p..p + |copied| + left]
    {
      ghost var at := p + |copied|;
      if left > 0 { RunInBlock(g, ring.Blocks(), taken, log, at, left); }
      var run := ring.Load(block, 0, left);
      assert run == log[at..at + left];
      assert log[p..at] + log[at..at + left] == log[p..at + left];
      data := copied + run;
    }

    /** The loop over the whole blocks of a payload. */
    method CopyBlocks(hRead: nat, rest: nat, blocks: nat, copied: seq<Byte>, ghost p: nat) returns (data: seq<Byte>)
      requires ring.Valid() && ring.g == g && Usable(g) && Holds(g, ring.Blocks(), taken, log)
      requires taken <= p && p + rest + blocks * g.size <= |log| && hRead == ReadH(g, p)
      requires rest == g.size - p % g.size == |copied| && copied == log[p..p + rest]
      ensures |data| == rest + blocks * g.size && data == log[p..p + |data|]
    {
      data := copied;
      for i := 0 to blocks
        invariant |data| == rest + i * g.size && p + |data| <= |log| && data == log[p..p + |data|]
      {
        RoomForOne(g.size, i, blocks);
        AlignedRun(g, p, i);
        ghost var at := p + |data|;
        RunInBlock(g, ring.Blocks(), taken, log, at, g.size);
        var run := ring.Load((hRead + i + 1) % g.cnt, 0, g.size);
        assert log[p..at] + log[at..at + g.size] == log[p..at + g.size];
        data := data + run;
      }
    }
  }

  lemma HoldsChunk<T>(g: Geometry, blocks: Blocks<T>, lo: nat, log: seq<T>, ahead: seq<T>, n: nat)
    requires Holds(g, blocks, lo, log + ahead) && n <= |ahead|
    ensures Holds(g, blocks, lo, log + ahead[..n]) && Holds(g, blocks, lo, log + ahead[..n] + [])
  {
    HoldsLess(g, blocks, lo, log + ahead, lo, |log| + n);
    assert (log + ahead)[..|log| + n] == log + ahead[..n];
    assert log + ahead[..n] + [] == log + ahead[..n];
  }

  /** The fields are the encoded positions. */
  ghost predicate Places(g: Geometry, write: nat, read: nat, check: nat, freeH: nat, w: nat, r: nat, c: nat)
    requires Usable(g)
  {
    && r <= w <= r + Capacity(g)
    && write == PackWrite(g, w) && read == PackRead(g, r) && freeH == ReadH(g, r) && check == PackRead(g, c)
  }

  /** Room for `n` bytes at the write position, in one allocated block. */
  ghost predicate RoomAt<T>(g: Geometry, blocks: Blocks<T>, r: nat, w: nat, n: nat)
    requires Usable(g) && |blocks| == g.cnt
  {
    BlockOfBounds(g, w);
    w % g.size + n <= g.size && w + n <= r + Capacity(g) && (n > 0 ==> blocks[BlockOf(g, w)].Some?)
  }

  /** The read position is a frame boundary, and the check position the last one. */
  ghost predicate OnFrames(en: HeaderSize, cap: nat, log: seq<Byte>, taken: nat, checked: nat)
  {
    taken <= |log| && Consumed(en, cap, log[..taken]) == taken && checked == Consumed(en, cap, log)
  }

  /** What `recv_buff_prepare_vA` offers is free, and empty only if nothing is. */
  lemma FreeRun(g: Geometry, r: nat, w: nat)
    requires Usable(g) && r <= w < r + Capacity(g)
    ensures 0 <= w % g.size < g.size
    ensures ReadH(g, r) == WriteH(g, w) ==> w % g.size + (r + Capacity(g) - w) <= g.size
    ensures ReadH(g, r) != WriteH(g, w) ==> w + (g.size - w % g.size) <= r + Capacity(g)
  {
    EqualBlocks(g, r, w);
    BlockDistance(g, r, w);
    DivBounds(r, g.size);
    DivBounds(w, g.size);
    RunSize(g.size, g.cnt, r / g.size, r % g.size, w / g.size, w % g.size);
  }

  lemma RunSize(s: nat, c: nat, a: nat, x: nat, b: nat, y: nat)
    requires x < s && y < s && a <= b <= a + c
    ensures b == a + c ==> s * b + y + (x - y) == s * a + x + s * c
    ensures b < a + c ==> s * b + s <= s * a + s * c
  {
    Distribute(s, a, c);
    if b < a + c { MulMonotonic(s, b + 1, a + c); MulMonotonic(s, b, b); }
  }

  // ---------------------------------------------------------------- counting frames

  /** The scan has come from `from` to `at`, passing `count` frames. */
  ghost predicate ScanAt(en: HeaderSize, cap: nat, stream: seq<Byte>, from: nat, at: nat, count: nat)
  {
    && from <= at <= |stream|
    && from + Consumed(en, cap, stream[from..]) == at + Consumed(en, cap, stream[at..])
    && CountFrames(en, cap, stream[from..]) == count + CountFrames(en, cap, stream[at..])
  }

  lemma ScanStep(en: HeaderSize, cap: nat, stream: seq<Byte>, from: nat, at: nat, count: nat, err: int, next: nat)
    requires ScanAt(en, cap, stream, from, at, count)
    requires err == Gain(en, cap, stream[at..]) && next == if err > 0 then at + err else at
    ensures err > 0 ==> ScanAt(en, cap, stream, from, next, count + 1)
    ensures err <= 0 ==> at == from + Consumed(en, cap, stream[from..]) && CountFrames(en, cap, stream[from..]) == count
  {
    GainBounds(en, cap, stream[at..]);
    if err > 0 { assert stream[at..][err..] == stream[at + err..]; }
  }

  lemma TakenBeforeChecked(en: HeaderSize, cap: nat, log: seq<Byte>, taken: nat)
    requires taken <= |log| && Consumed(en, cap, log[..taken]) == taken
    ensures Consumed(en, cap, log) == taken + Consumed(en, cap, log[taken..])
    ensures CountFrames(en, cap, log) == CountFrames(en, cap, log[..taken]) + CountFrames(en, cap, log[taken..])
  {
    ScanResumes(en, cap, log[..taken], log[taken..]);
    assert log[..taken] + log[taken..] == log;
    assert log[..taken][taken..] + log[taken..] == log[taken..];
  }

  /** What a scan from the check position finds when `chunk` arrives. */
  lemma FramesGrow(en: HeaderSize, cap: nat, log: seq<Byte>, chunk: seq<Byte>, taken: nat, checked: nat)
    requires OnFrames(en, cap, log, taken, checked)
    ensures taken <= checked <= |log|
    ensures var s := (log + chunk)[checked..];
            && OnFrames(en, cap, log + chunk, taken, checked + Consumed(en, cap, s))
            && CountFrames(en, cap, s) == CountFrames(en, cap, log + chunk) - CountFrames(en, cap, log)
  {
    TakenBeforeChecked(en, cap, log, taken);
    ScanResumes(en, cap, log, chunk);
    assert (log + chunk)[checked..] == log[checked..] + chunk;
    assert (log + chunk)[..taken] == log[..taken];
  }

  /** Reading the frame in front leaves the reader on a frame boundary. */
  lemma NextFrame(en: HeaderSize, cap: nat, log: seq<Byte>, taken: nat, checked: nat)
    requires OnFrames(en, cap, log, taken, checked) && Gain(en, cap, log[taken..]) > 0
    ensures taken + Gain(en, cap, log[taken..]) <= |log|
    ensures OnFrames(en, cap, log, taken + Gain(en, cap, log[taken..]), checked)
  {
    var n := Gain(en, cap, log[taken..]);
    GainBounds(en, cap, log[taken..]);
    var frame := log[taken..taken + n];
    assert frame[..en] == log[taken..][..en];
    assert frame[n..] == [];
    assert log[..taken] + frame == log[..taken + n];
    assert log[..taken][taken..] + frame == frame;
    ScanResumes(en, cap, log[..taken], frame);
  }

  lemma HoldsStream<T>(g: Geometry, blocks: Blocks<T>, lo: nat, log: seq<T>, ahead: seq<T>)
    requires Holds(g, blocks, lo, log + ahead)
    ensures Holds(g, blocks, lo, log)
  {
    HoldsLess(g, blocks, lo, log + ahead, lo, |log|);
    assert (log + ahead)[..|log|] == log;
  }

  lemma CheckedInside(en: HeaderSize, cap: nat, log: seq<Byte>, taken: nat, checked: nat)
    requires OnFrames(en, cap, log, taken, checked)
    ensures taken <= checked <= |log|
  {
    TakenBeforeChecked(en, cap, log, taken);
  }

  lemma ConsumeAnswer(en: HeaderSize, cap: nat, log: seq<Byte>, chunk: seq<Byte>, taken: nat, from: nat, at: nat,
                      ret: int)
    requires OnFrames(en, cap, log, taken, from) && chunk != [] && from <= |log|
    requires at == from + Consumed(en, cap, (log + chunk)[from..]) <= |log + chunk|
    requires var stop := Gain(en, cap, (log + chunk)[at..]);
             ret == if stop < 0 then stop else CountFrames(en, cap, (log + chunk)[from..])
    ensures OnFrames(en, cap, log + chunk, taken, at) && ret == ConsumeResult(en, cap, log, chunk)
  {
    FramesGrow(en, cap, log, chunk, taken, from);
  }

  lemma RoomForNothing<T>(g: Geometry, blocks: Blocks<T>, r: nat, w: nat)
    requires Usable(g) && |blocks| == g.cnt && w <= r + Capacity(g)
    ensures RoomAt(g, blocks, r, w, 0)
  {
    OffsetBelow(g, w);
  }

  /** The answer of `recv_buff_consume_vA` for the bytes `chunk` after `log`. */
  ghost function ConsumeResult(en: HeaderSize, cap: nat, log: seq<Byte>, chunk: seq<Byte>): int
  {
    if chunk == [] then 0
    else if Stop(en, cap, log + chunk) < 0 then Stop(en, cap, log + chunk)
    else CountFrames(en, cap, log + chunk) - CountFrames(en, cap, log)
  }
}
