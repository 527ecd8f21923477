/** The send ring of engine/net/buff.c. */
module SendBuff {
  import opened Options
  import opened Arith
  import opened Ring
  import opened BlockRing
  import opened Framing
  import opened RingSpans

  /** A byte of a length as the source extracts it, by shifting left and back in 32 bits. */
  function ShiftedByte(m: nat, i: nat): Byte
    requires m < 0x1_0000_0000 && i < 4
  {
    var left := if i == 0 then 0x100_0000 else if i == 1 then 0x1_0000 else if i == 2 then 0x100 else 1;
    ((m * left) % 0x1_0000_0000) / 0x100_0000
  }

  lemma ShiftedBytes(m: nat, en: HeaderSize, i: nat)
    requires m < 0x1_0000_0000 && i < en
    ensures LowBytes(m, en)[i] == ShiftedByte(m, i)
  {
    LowByteAt(m, en, i);
    ShiftIsDivision(m);
  }

  lemma LowByteAt(m: nat, n: nat, i: nat)
    requires i < n <= 4
    ensures LowBytes(m, n)[i] == (if i == 0 then m else if i == 1 then m / 256 else if i == 2 then m / 65536
                                  else m / 16777216) % 256
  {
    if i > 0 { LowByteAt(m / 256, n - 1, i - 1); }
  }

  lemma ShiftIsDivision(m: nat)
    requires m < 0x1_0000_0000
    ensures ShiftedByte(m, 0) == m % 256 && ShiftedByte(m, 1) == (m / 256) % 256
    ensures ShiftedByte(m, 2) == (m / 65536) % 256 && ShiftedByte(m, 3) == (m / 16777216) % 256
  {
    ShiftOut(m, 1, 0x100_0000);
    ShiftOut(m, 256, 0x1_0000);
    ShiftOut(m, 65536, 0x100);
    ShiftOut(m, 16777216, 1);
  }

  /** Shifting left until a byte is on top drops what lies above it, shifting back what lies below. */
  lemma ShiftOut(m: nat, below: nat, left: nat)
    requires (below, left) in {(1, 0x100_0000), (256, 0x1_0000), (65536, 0x100), (16777216, 1)}
    ensures ((m * left) % 0x1_0000_0000) / 0x100_0000 == (m / below) % 256
  {
    var q, low := m / below, m % below;
    var high, b := q / 256, q % 256;
    assert m * left == 0x1_0000_0000 * high + (0x100_0000 * b + low * left);
    DivUnique(m * left, 0x1_0000_0000, high, 0x100_0000 * b + low * left);
    DivUnique(0x100_0000 * b + low * left, 0x100_0000, b, low * left);
  }

  class SendRing {
    const ring: BlockArray<Byte>
    const g: Geometry
    const enByte: HeaderSize
    var write: nat
    var read: nat
    var freeH: nat

    /** Everything ever written, and how much of it the sender has taken out. */
    ghost var log: seq<Byte>
    ghost var taken: nat

    ghost function Repr(): set<object>
      reads this, ring
    {
      {this, ring} + ring.repr
    }

    ghost predicate Valid()
      reads this, ring, ring.buffers, ring.repr
    {
      && this !in ring.repr && ring.Valid() && ring.g == g && Usable(g)
      && taken <= |log| <= taken + Capacity(g)
      && write == PackWrite(g, |log|) && read == PackRead(g, taken) && freeH == ReadH(g, taken)
      && Holds(g, ring.Blocks(), taken, log)
    }

    /** The bytes waiting to be sent. */
    ghost function Queued(): seq<Byte>
      requires taken <= |log|
      reads this
    {
      log[taken..]
    }

    constructor (g: Geometry, enByte: HeaderSize)
      requires Usable(g)
      ensures Valid() && fresh(Repr()) && this.g == g && this.enByte == enByte && log == [] && taken == 0
    {
      this.g := g;
      this.enByte := enByte;
      ring := new BlockArray(g);
      write := 0;
      read := g.cnt * 65536;
      freeH := g.cnt;
      log := [];
      taken := 0;
      new;
      StartPositions(g);
    }

    /** `send_buff_prepare`: where the next bytes to send lie, and how many of them are contiguous. */
    method Prepare() returns (size: nat, block: nat, offset: nat)
      requires Valid()
      ensures size == Smaller(|Queued()|, g.size - taken % g.size)
      ensures size > 0 ==>
                && block < g.cnt && ring.Blocks()[block].Some? && offset + size <= g.size
                && ring.Blocks()[block].value[offset..offset + size] == Queued()[..size]
    {
      UnpackPositions(g, taken, |log|);
      var hWrite, lWrite := write / 65536, write % 65536;
      var hRead, lRead := read / 65536, read % 65536;
      BlocksEqual(g, taken, |log|);
      block := hRead % g.cnt;
      offset := lRead;
      if hRead != hWrite && hWrite % g.cnt == block {
        size := lWrite - lRead;
      } else {
        size := g.size - lRead;
      }
      ContiguousQueued(g, taken, |log|, size);
      if size > 0 {
        RunInBlock(g, ring.Blocks(), taken, log, taken, size);
        assert Queued()[..size] == log[taken..taken + size];
      }
    }

    /** `send_buff_consume` of bytes that were sent. */
    method Consume(size: nat)
      requires Valid() && size <= |Queued()|
      modifies this`taken, this`read, this`freeH, ring.buffers
      ensures Valid() && ring.repr == old(ring.repr) && taken == old(taken) + size
      ensures Passed(g, old(ring.Blocks()), old(taken), taken, |log|, ring.Blocks())
    {
      if size == 0 {
        PassedNothing(g, ring.Blocks(), taken, |log|);
        return;
      }
      UnpackPositions(g, taken, |log|);
      var hRead, lRead := Forward(g, read / 65536, read % 65536, size, taken);
      Release(size, hRead, lRead, write / 65536);
    }

    /** Frees the blocks behind the reader and moves the read position. */
    method Release(size: nat, hRead: nat, lRead: nat, hWrite: nat)
      requires Valid() && size <= |Queued()|
      requires hRead == ReadH(g, taken + size) && lRead == (taken + size) % g.size && hWrite == WriteH(g, |log|)
      modifies this`taken, this`read, this`freeH, ring.buffers
      ensures Valid() && ring.repr == old(ring.repr) && taken == old(taken) + size
      ensures Passed(g, old(ring.Blocks()), old(taken), taken, |log|, ring.Blocks())
    {
      BlockOfH(g, |log|);
      OffsetBelow(g, |log|);
      CollectRange(g, taken, taken + size);
      CollectKeeps(g, ring.Blocks(), taken, taken + size, |log|, log);
      ghost var f := taken / g.size;
      freeH := ring.GcHelp(freeH, hRead, hWrite, f, (taken + size) / g.size - f);
      read := Pack(hRead, lRead);
      taken := taken + size;
    }

    /** The header loop of `send_buff_write`. */
    method PutHeader(msgSize: nat, memory: nat) returns (ok: bool, hWrite: nat, lWrite: nat, left: nat)
      requires Valid() && msgSize < 0x1_0000_0000 && |log| + enByte <= taken + Capacity(g)
      modifies ring, ring.buffers, ring.repr
      ensures ring.Valid() && fresh(ring.repr - old(ring.repr))
      ensures Holds(g, ring.Blocks(), taken, if ok then log + LowBytes(msgSize, enByte) else log)
      ensures ok ==> hWrite == WriteH(g, |log| + enByte) && lWrite == (|log| + enByte) % g.size
      ensures Took(old(ring.Blocks()), ring.Blocks(), memory, left, BlocksOf(g, |log|, |log| + enByte), ok)
    {
      UnpackPositions(g, taken, |log|);
      hWrite, lWrite, left := write / 65536, write % 65536, memory;
      ghost var header, before := LowBytes(msgSize, enByte), ring.Blocks();
      assert log + header[..0] == log;
      TookNothing(before, memory);
      assert BlocksOf(g, |log|, |log| + 0) == {};
      for i := 0 to enByte
        invariant ring.Valid() && fresh(ring.repr - old(ring.repr)) && unchanged(this)
        invariant Holds(g, ring.Blocks(), taken, log + header[..i])
        invariant hWrite == WriteH(g, |log| + i) && lWrite == (|log| + i) % g.size
        invariant Took(before, ring.Blocks(), memory, left, BlocksOf(g, |log|, |log| + i), true)
      {
        HeaderStep(log, header, i);
        ok, hWrite, lWrite, left := PutHeaderByte(msgSize, i, hWrite, lWrite, left, log + header[..i], before, memory);
        if !ok {
          HoldsLess(g, ring.Blocks(), taken, log + header[..i], taken, |log|);
          return;
        }
      }
      assert header[..enByte] == header;
      ok := true;
    }

    /** One round of it: the byte is shifted out of the size and stored. */
    method PutHeaderByte(msgSize: nat, i: nat, hAt: nat, lAt: nat, memory: nat, ghost stream: seq<Byte>,
                         ghost before: Blocks<Byte>, ghost granted: nat)
      returns (ok: bool, hWrite: nat, lWrite: nat, left: nat)
      requires ring.Valid() && ring.g == g && Usable(g) && this !in ring.repr
      requires Holds(g, ring.Blocks(), taken, stream) && i < enByte && msgSize < 0x1_0000_0000
      requires taken <= |stream| < taken + Capacity(g) && hAt == WriteH(g, |stream|) && lAt == |stream| % g.size
      requires |stream| == |log| + i
      requires Took(before, ring.Blocks(), granted, memory, BlocksOf(g, |log|, |log| + i), true)
      modifies ring, ring.buffers, ring.repr
      ensures ring.Valid() && fresh(ring.repr - old(ring.repr))
      ensures Holds(g, ring.Blocks(), taken, if ok then stream + [LowBytes(msgSize, enByte)[i]] else stream)
      ensures hWrite == WriteH(g, |stream| + 1) && lWrite == (|stream| + 1) % g.size
      ensures Took(before, ring.Blocks(), granted, left,
                   BlocksOf(g, |log|, |log| + if ok then i + 1 else enByte), ok)
    {
      ghost var mid := ring.Blocks();
      ShiftedBytes(msgSize, enByte, i);
      WriteCell(g, |stream|);
      ok, left := ring.Append(hAt % g.cnt, lAt, [ShiftedByte(msgSize, i)], memory, taken, stream);
      NextTook(g, before, mid, ring.Blocks(), granted, memory, left, |log|, |stream|, 1, |log| + enByte, ok);
      hWrite, lWrite := Forward(g, hAt, lAt, 1, |stream|);
    }

    /** The payload part of `send_buff_write`: the rest of the current block, whole blocks, and what
        is left over. */
    method PutPayload(data: seq<Byte>, hAt: nat, lAt: nat, memory: nat, ghost stream: seq<Byte>)
      returns (ok: bool, hWrite: nat, lWrite: nat, left: nat)
      requires ring.Valid() && ring.g == g && Usable(g) && this !in ring.repr
      requires Holds(g, ring.Blocks(), taken, stream)
      requires taken <= |stream| && |stream| + |data| <= taken + Capacity(g)
      requires hAt == WriteH(g, |stream|) && lAt == |stream| % g.size
      modifies ring, ring.buffers, ring.repr
      ensures ring.Valid() && fresh(ring.repr - old(ring.repr))
      ensures ok ==> Holds(g, ring.Blocks(), taken, stream + data)
      ensures !ok ==> Holds(g, ring.Blocks(), taken, stream)
      ensures ok ==> hWrite == WriteH(g, |stream + data|) && lWrite == |stream + data| % g.size
      ensures Took(old(ring.Blocks()), ring.Blocks(), memory, left,
                   BlocksOf(g, |stream|, Reach(g, |stream|, |data|)), ok)
    {
      WriteCell(g, |stream|);
      if g.size - lAt >= |data| {
        ok, left := ring.Append(hAt % g.cnt, lAt, data, memory, taken, stream);
        OneBlock(g, |stream|);
        AdvanceWrite(g, |stream|, |data|);
        lWrite := lAt + |data|;
        hWrite := (hAt + lWrite / g.size) % (2 * g.cnt);
        lWrite := lWrite % g.size;
      } else {
        ok, hWrite, lWrite, left := PutSpanning(data, hAt, lAt, memory, stream);
      }
    }

    /** The same for a payload that does not fit the rest of the block. */
    method PutSpanning(data: seq<Byte>, hAt: nat, lAt: nat, memory: nat, ghost stream: seq<Byte>)
      returns (ok: bool, hWrite: nat, lWrite: nat, left: nat)
      requires ring.Valid() && ring.g == g && Usable(g) && this !in ring.repr
      requires Holds(g, ring.Blocks(), taken, stream)
      requires taken <= |stream| && |stream| + |data| <= taken + Capacity(g)
      requires hAt == WriteH(g, |stream|) && lAt == |stream| % g.size < g.size && g.size - lAt < |data|
      modifies ring, ring.buffers, ring.repr
      ensures ring.Valid() && fresh(ring.repr - old(ring.repr))
      ensures ok ==> Holds(g, ring.Blocks(), taken, stream + data)
      ensures !ok ==> Holds(g, ring.Blocks(), taken, stream)
      ensures ok ==> hWrite == WriteH(g, |stream + data|) && lWrite == |stream + data| % g.size
      ensures Took(old(ring.Blocks()), ring.Blocks(), memory, left, BlocksOf(g, |stream|, |stream| + |data| + 1), ok)
    {
      var rest := g.size - lAt;
      DivBounds(|data| - rest, g.size);
      var blocks, over := (|data| - rest) / g.size, (|data| - rest) % g.size;
      SpanPlan(g, |stream|, |data|, rest, blocks, over);
      ok, left := PutParts(data, hAt, lAt, blocks, |data| - over, memory, stream);
      hWrite := (hAt + 1 + blocks) % (2 * g.cnt);
      lWrite := over;
    }

    /** Its copies: up to the last whole block, and what is left over. */
    method PutParts(data: seq<Byte>, hAt: nat, lAt: nat, blocks: nat, whole: nat, memory: nat, ghost stream: seq<Byte>)
      returns (ok: bool, left: nat)
      requires ring.Valid() && ring.g == g && Usable(g) && this !in ring.repr
      requires Holds(g, ring.Blocks(), taken, stream)
      requires taken <= |stream| && |stream| + |data| <= taken + Capacity(g)
      requires hAt == WriteH(g, |stream|) && lAt == |stream| % g.size < g.size
      requires hAt % g.cnt == BlockOf(g, |stream|) < g.cnt
      requires whole == g.size - lAt + blocks * g.size && whole <= |data| < whole + g.size
      requires (|stream| + whole) % g.size == 0
      requires (hAt + 1 + blocks) % g.cnt == BlockOf(g, |stream| + whole) < g.cnt
      modifies ring, ring.buffers, ring.repr
      ensures ring.Valid() && fresh(ring.repr - old(ring.repr))
      ensures Holds(g, ring.Blocks(), taken, if ok then stream + data else stream)
      ensures Took(old(ring.Blocks()), ring.Blocks(), memory, left, BlocksOf(g, |stream|, |stream| + |data| + 1), ok)
    {
      ghost var before, at := ring.Blocks(), |stream| + whole;
      ok, left := PutFirst(data, hAt, lAt, blocks, whole, memory, stream);
      if !ok {
        FailedEarly(g, before, ring.Blocks(), memory, left, |stream|, at, |stream| + |data| + 1);
        return;
      }
      ghost var mid, room := ring.Blocks(), left;
      ok, left := PutLast((hAt + 1 + blocks) % g.cnt, data, whole, left, stream);
      NextTook(g, before, mid, ring.Blocks(), memory, room, left, |stream|, at, |data| - whole + 1,
        |stream| + |data| + 1, ok);
    }

    /** The rest of the current block and the whole blocks. */
    method PutFirst(data: seq<Byte>, hAt: nat, lAt: nat, blocks: nat, ghost whole: nat, memory: nat,
                    ghost stream: seq<Byte>)
      returns (ok: bool, left: nat)
      requires ring.Valid() && ring.g == g && Usable(g) && this !in ring.repr
      requires Holds(g, ring.Blocks(), taken, stream)
      requires taken <= |stream| && |stream| + |data| <= taken + Capacity(g)
      requires hAt == WriteH(g, |stream|) && lAt == |stream| % g.size < g.size
      requires hAt % g.cnt == BlockOf(g, |stream|) < g.cnt
      requires whole == g.size - lAt + blocks * g.size && whole <= |data|
      modifies ring, ring.buffers, ring.repr
      ensures ring.Valid() && fresh(ring.repr - old(ring.repr))
      ensures Holds(g, ring.Blocks(), taken, if ok then stream + data[..whole] else stream)
      ensures Took(old(ring.Blocks()), ring.Blocks(), memory, left, BlocksOf(g, |stream|, |stream| + whole), ok)
    {
      var rest := g.size - lAt;
      ghost var before := ring.Blocks();
      ok, left := ring.Append(hAt % g.cnt, lAt, data[..rest], memory, taken, stream);
      FirstTook(g, before, ring.Blocks(), memory, left, |stream|, rest, |stream| + whole, ok);
      if !ok { return; }
      ghost var mid, room := ring.Blocks(), left;
      ok, left := PutBlocks(data, hAt, rest, blocks, left, stream);
      ThenTook(g, before, mid, ring.Blocks(), memory, room, left, |stream|, |stream| + rest, |stream| + whole, ok);
    }

    method PutLast(block: nat, data: seq<Byte>, copied: nat, memory: nat, ghost stream: seq<Byte>)
      returns (ok: bool, left: nat)
      requires ring.Valid() && ring.g == g && this !in ring.repr && copied <= |data|
      requires Holds(g, ring.Blocks(), taken, stream + data[..copied])
      requires taken <= |stream| && |stream| + |data| <= taken + Capacity(g)
      requires block == BlockOf(g, |stream| + copied) < g.cnt
      requires (|stream| + copied) % g.size == 0 && |data| - copied <= g.size
      modifies ring, ring.buffers, ring.repr
      ensures ring.Valid() && fresh(ring.repr - old(ring.repr))
      ensures Holds(g, ring.Blocks(), taken, if ok then stream + data else stream)
      ensures Took(old(ring.Blocks()), ring.Blocks(), memory, left, {block}, ok)
    {
      ok, left := ring.Append(block, 0, data[copied..], memory, taken, stream + data[..copied]);
      assert stream + data[..copied] + data[copied..] == stream + data;
      if !ok {
        HoldsLess(g, ring.Blocks(), taken, stream + data[..copied], taken, |stream|);
        assert (stream + data[..copied])[..|stream|] == stream;
      }
    }

    /** The loop over the whole blocks of a payload. */
    method PutBlocks(data: seq<Byte>, hWrite: nat, rest: nat, blocks: nat, memory: nat, ghost stream: seq<Byte>)
      returns (ok: bool, left: nat)
      requires ring.Valid() && ring.g == g && Usable(g) && this !in ring.repr
      requires rest + blocks * g.size <= |data| && rest == g.size - |stream| % g.size
      requires hWrite == WriteH(g, |stream|)
      requires Holds(g, ring.Blocks(), taken, stream + data[..rest])
      requires taken <= |stream| && |stream| + |data| <= taken + Capacity(g)
      modifies ring, ring.buffers, ring.repr
      ensures ring.Valid() && fresh(ring.repr - old(ring.repr))
      ensures ok ==> Holds(g, ring.Blocks(), taken, stream + data[..rest + blocks * g.size])
      ensures !ok ==> Holds(g, ring.Blocks(), taken, stream)
      ensures Took(old(ring.Blocks()), ring.Blocks(), memory, left,
                   BlocksOf(g, |stream| + rest, |stream| + rest + blocks * g.size), ok)
    {
      var copied := rest;
      left := memory;
      ghost var before, at := ring.Blocks(), |stream| + rest;
      TookNothing(before, memory);
      assert BlocksOf(g, at, at + 0 * g.size) == {};
      for i := 0 to blocks
        invariant ring.Valid() && fresh(ring.repr - old(ring.repr)) && unchanged(this)
        invariant copied == rest + i * g.size
        invariant copied <= |data| && Holds(g, ring.Blocks(), taken, stream + data[..copied])
        invariant Took(before, ring.Blocks(), memory, left, BlocksOf(g, at, at + i * g.size), true)
      {
        RoomForOne(g.size, i, blocks);
        AlignedRun(g, |stream|, i);
        ghost var mid, room := ring.Blocks(), left;
        ok, left := PutBlock((hWrite + 1 + i) % g.cnt, data, copied, left, stream);
        NextTook(g, before, mid, ring.Blocks(), memory, room, left, at, |stream| + copied, g.size,
          at + blocks * g.size, ok);
        if !ok { return; }
        copied := copied + g.size;
      }
      ok := true;
    }

    /** One round of it. */
    method PutBlock(block: nat, data: seq<Byte>, copied: nat, memory: nat, ghost stream: seq<Byte>)
      returns (ok: bool, left: nat)
      requires ring.Valid() && ring.g == g && Usable(g) && this !in ring.repr && copied + g.size <= |data|
      requires Holds(g, ring.Blocks(), taken, stream + data[..copied])
      requires taken <= |stream| && |stream| + |data| <= taken + Capacity(g)
      requires block == BlockOf(g, |stream| + copied) < g.cnt && (|stream| + copied) % g.size == 0
      modifies ring, ring.buffers, ring.repr
      ensures ring.Valid() && fresh(ring.repr - old(ring.repr))
      ensures Holds(g, ring.Blocks(), taken, if ok then stream + data[..copied + g.size] else stream)
      ensures Took(old(ring.Blocks()), ring.Blocks(), memory, left, {block}, ok)
    {
      ok, left := ring.Append(block, 0, data[copied..copied + g.size], memory, taken, stream + data[..copied]);
      assert stream + data[..copied] + data[copied..copied + g.size] == stream + data[..copied + g.size];
      if !ok {
        HoldsLess(g, ring.Blocks(), taken, stream + data[..copied], taken, |stream|);
        assert (stream + data[..copied])[..|stream|] == stream;
      }
    }

    /** The blocks that a frame with a payload of this size comes to. */
    ghost function Touched(size: nat): set<nat>
      requires Usable(g)
      reads this
    {
      BlocksOf(g, |log|, Reach(g, |log| + enByte, size))
    }

    /** How many of them are missing. */
    ghost function Lacks(size: nat): nat
      requires Valid()
      reads this, ring, ring.buffers, ring.repr
    {
      |Gaps(ring.Blocks()) * Touched(size)|
    }

    /** `send_buff_write`.  A refused write leaves the stream as it was; the answer 0 means that the
        payload is too large for the header or the ring has no room, -1 that the allocator had fewer blocks
        to give than are missing of those the frame comes to.  An accepted write appends the whole frame. */
    method Write(data: seq<Byte>, size: int, memory: nat) returns (ret: int, ghost accepted: bool, left: nat)
      requires Valid() && size <= |data| && size < 0x8000_0000
      modifies this, ring, ring.buffers, ring.repr
      ensures Valid() && fresh(ring.repr - old(ring.repr)) && taken == old(taken)
      ensures accepted ==> size >= 0 && ret == size && log == old(log) + Frame(enByte, data[..size])
      ensures !accepted ==> log == old(log) && (ret == 0 || ret == NO_MEMORY)
      ensures ret == NO_MEMORY ==> !accepted
      ensures !accepted && ret == 0 <==>
                size < 0 || size >= Pow256(enByte) || old(|Queued()|) + enByte + size > Capacity(g)
      ensures ret == NO_MEMORY <==>
                && 0 <= size < Pow256(enByte) && old(|Queued()|) + enByte + size <= Capacity(g)
                && old(Lacks(size)) > memory
      ensures if ret == NO_MEMORY then left == 0
              else left == if accepted then memory - old(Lacks(size)) else memory
    {
      left := memory;
      if size < 0 { return 0, false, left; }
      var tooBig := ExceedsHeader(size);
      if tooBig { return 0, false, left; }
      var msgSize := size + enByte;
      UnpackPositions(g, taken, |log|);
      SpaceIsFree(g, taken, |log|);
      var space := GetSpace(g, read / 65536, read % 65536, write / 65536, write % 65536);
      if space < msgSize { return 0, false, left; }
      var ok;
      ok, left := Accept(data[..size], memory);
      accepted := ok;
      ret := if ok then size else NO_MEMORY;
    }

    /** What it does with a frame that there is room for. */
    method Accept(payload: seq<Byte>, memory: nat) returns (ok: bool, left: nat)
      requires Valid() && |payload| < 0x8000_0000 && |log| + enByte + |payload| <= taken + Capacity(g)
      modifies this, ring, ring.buffers, ring.repr
      ensures Valid() && fresh(ring.repr - old(ring.repr)) && taken == old(taken)
      ensures log == if ok then old(log) + Frame(enByte, payload) else old(log)
      ensures ok <==> old(Lacks(|payload|)) <= memory
      ensures left == if ok then memory - old(Lacks(|payload|)) else 0
    {
      var hWrite, lWrite;
      ghost var before := ring.Blocks();
      ok, hWrite, lWrite, left := PutFrame(payload, memory, Reach(g, |log| + enByte, |payload|));
      TookExactly(before, ring.Blocks(), memory, left, Touched(|payload|), ok);
      if ok {
        write := Pack(hWrite, lWrite);
        log := log + Frame(enByte, payload);
      }
    }

    /** The header and the payload, stored behind the write position. */
    method PutFrame(payload: seq<Byte>, memory: nat, ghost reach: nat)
      returns (ok: bool, hWrite: nat, lWrite: nat, left: nat)
      requires Valid() && |payload| < 0x8000_0000 && |log| + enByte + |payload| <= taken + Capacity(g)
      requires reach == Reach(g, |log| + enByte, |payload|)
      modifies ring, ring.buffers, ring.repr
      ensures ring.Valid() && fresh(ring.repr - old(ring.repr))
      ensures Holds(g, ring.Blocks(), taken, if ok then log + Frame(enByte, payload) else log)
      ensures ok ==> Pack(hWrite, lWrite) == PackWrite(g, |log + Frame(enByte, payload)|)
      ensures Took(old(ring.Blocks()), ring.Blocks(), memory, left, BlocksOf(g, |log|, reach), ok)
    {
      ghost var before, behind := ring.Blocks(), |log| + enByte;
      ok, hWrite, lWrite, left := PutHeader(|payload| + enByte, memory);
      if !ok {
        FailedEarly(g, before, ring.Blocks(), memory, left, |log|, behind, reach);
        return;
      }
      ghost var stream := log + LowBytes(|payload| + enByte, enByte);
      HeaderThenPayload(enByte, log, payload);
      ghost var mid, room := ring.Blocks(), left;
      ok, hWrite, lWrite, left := PutPayload(payload, hWrite, lWrite, left, stream);
      ThenTook(g, before, mid, ring.Blocks(), memory, room, left, |log|, behind, reach, ok);
      if !ok { HoldsLess(g, ring.Blocks(), taken, stream, taken, |log|); }
    }

    /** The loop that shifts the size right by one byte for every byte of the header. */
    method ExceedsHeader(size: nat) returns (exceeds: bool)
      ensures exceeds <==> size >= Pow256(enByte)
    {
      var rest := size;
      var i: nat := enByte;
      while i > 0
        invariant i <= enByte && rest == Shifted(size, enByte - i)
      {
        rest := rest / 256;
        i := i - 1;
      }
      ShiftedZero(size, enByte);
      exceeds := rest > 0;
    }
  }

  /** Behind the last cell whose block the payload comes to: a payload that goes over the end of its first block
      allocates the block it ends in even if it ends before the first cell of it. */
  ghost function Reach(g: Geometry, p: nat, size: nat): (q: nat)
    requires Usable(g)
    ensures q > p
  {
    if size > g.size - p % g.size then p + size + 1 else p + 1
  }

  lemma OneBlock(g: Geometry, p: nat)
    requires Usable(g)
    ensures BlocksOf(g, p, p + 1) == {BlockOf(g, p)}
  {
  }

  /** The next block, which the run of cells up to `to` comes to, with `n` cells in it. */
  lemma NextTook(g: Geometry, a: Blocks<Byte>, b: Blocks<Byte>, c: Blocks<Byte>, memory: nat, mid: nat, left: nat,
                 from: nat, at: nat, n: nat, to: nat, ok: bool)
    requires Usable(g) && from <= at && n > 0 && at % g.size + n <= g.size && at + n <= to
    requires Took(a, b, memory, mid, BlocksOf(g, from, at), true) && Took(b, c, mid, left, {BlockOf(g, at)}, ok)
    ensures Took(a, c, memory, left, BlocksOf(g, from, if ok then at + n else to), ok)
  {
    OneMoreBlock(g, from, at, n);
    TookTwice(a, b, c, memory, mid, left, BlocksOf(g, from, at), {BlockOf(g, at)}, ok);
    if !ok { FailedEarly(g, a, c, memory, left, from, at + n, to); }
  }

  lemma FirstTook(g: Geometry, before: Blocks<Byte>, after: Blocks<Byte>, memory: nat, left: nat, p: nat, n: nat,
                  to: nat, ok: bool)
    requires Usable(g) && n > 0 && p % g.size + n <= g.size && p + n <= to
    requires Took(before, after, memory, left, {BlockOf(g, p)}, ok)
    ensures Took(before, after, memory, left, BlocksOf(g, p, if ok then p + n else to), ok)
  {
    TookNothing(before, memory);
    assert BlocksOf(g, p, p) == {};
    NextTook(g, before, before, after, memory, memory, left, p, p, n, to, ok);
  }

  lemma ThenTook(g: Geometry, a: Blocks<Byte>, b: Blocks<Byte>, c: Blocks<Byte>, memory: nat, mid: nat, left: nat,
                 from: nat, at: nat, to: nat, ok: bool)
    requires Usable(g) && from <= at <= to
    requires Took(a, b, memory, mid, BlocksOf(g, from, at), true) && Took(b, c, mid, left, BlocksOf(g, at, to), ok)
    ensures Took(a, c, memory, left, BlocksOf(g, from, to), ok)
  {
    BlocksJoin(g, from, at, to);
    TookTwice(a, b, c, memory, mid, left, BlocksOf(g, from, at), BlocksOf(g, at, to), ok);
  }

  lemma FailedEarly(g: Geometry, a: Blocks<Byte>, b: Blocks<Byte>, memory: nat, left: nat, from: nat, at: nat, to: nat)
    requires Usable(g) && from <= at <= to && Took(a, b, memory, left, BlocksOf(g, from, at), false)
    ensures Took(a, b, memory, left, BlocksOf(g, from, to), false)
  {
    BlocksJoin(g, from, at, to);
    TookPart(a, b, memory, left, BlocksOf(g, from, at), BlocksOf(g, from, to));
  }

  lemma HeaderStep(log: seq<Byte>, header: seq<Byte>, i: nat)
    requires i < |header|
    ensures log + header[..i] + [header[i]] == log + header[..i + 1]
    ensures (log + header[..i])[..|log|] == log
  {
  }

  lemma HeaderThenPayload(en: HeaderSize, log: seq<Byte>, payload: seq<Byte>)
    ensures log + LowBytes(|payload| + en, en) + payload == log + Frame(en, payload)
    ensures (log + LowBytes(|payload| + en, en))[..|log|] == log
  {
  }

  function Shifted(m: nat, k: nat): nat
  {
    if k == 0 then m else Shifted(m, k - 1) / 256
  }

  lemma {:induction false} ShiftedZero(m: nat, k: nat)
    ensures Shifted(m, k) > 0 <==> m >= Pow256(k)
    ensures Pow256(k) > 0 && Shifted(m, k) == m / Pow256(k)
  {
    if k > 0 {
      ShiftedZero(m, k - 1);
      DivideTwice(m, Pow256(k - 1));
    }
  }

  lemma DivideTwice(m: nat, p: nat)
    requires p > 0
    ensures (m / p) / 256 == m / (256 * p)
    ensures (m / p) / 256 > 0 <==> m >= 256 * p
  {
    DivBounds(m, p);
    var q, r := m / p, m % p;
    var a, b := q / 256, q % 256;
    assert m == (256 * p) * a + (p * b + r) by { SplitProduct(m, p, q, r, a, b); }
    MulMonotonic(p, b, 255);
    DivUnique(m, 256 * p, a, p * b + r);
    if a > 0 { MulMonotonic(256 * p, 1, a); } else { assert (256 * p) * a == 0; }
  }

  lemma SplitProduct(m: nat, p: nat, q: nat, r: nat, a: nat, b: nat)
    requires m == p * q + r && q == 256 * a + b
    ensures m == (256 * p) * a + (p * b + r)
  {
  }
}
