/** The message ring of engine/net/buff.c: a bounded first-in first-out queue of fixed-size messages. */
module MsgBuff {
  import opened Options
  import opened Arith
  import opened Ring
  import opened BlockRing
  import opened RingSpans
  import opened Framing

  class MessageRing<T(0)> {
    const ring: BlockArray<T>
    const g: Geometry
    var write: nat
    var read: nat
    var freeH: nat

    /** Every message ever written, and how many of them have been read. */
    ghost var log: seq<T>
    ghost var taken: nat

    ghost function Repr(): set<object>
      reads this, ring
    {
      {this, ring} + ring.repr
    }

    ghost predicate Valid()
      reads this, ring, ring.buffers, ring.repr
    {
      && this !in ring.repr && ring.Valid() && ring.g == g && Usable(g)
      && taken <= |log| <= taken + Capacity(g)
      && write == PackWrite(g, |log|) && read == PackRead(g, taken) && freeH == ReadH(g, taken)
      && Holds(g, ring.Blocks(), taken, log)
    }

    ghost function Queued(): seq<T>
      requires taken <= |log|
      reads this
    {
      log[taken..]
    }

    constructor (g: Geometry)
      requires Usable(g)
      ensures Valid() && fresh(Repr()) && this.g == g && Queued() == []
    {
      this.g := g;
      ring := new BlockArray(g);
      write := 0;
      read := g.cnt * 65536;
      freeH := g.cnt;
      log := [];
      taken := 0;
      new;
      StartPositions(g);
    }

    /** `msg_buff_write`: 1 and the message queued, 0 exactly when the ring is full, -1 when a block is
        missing and the allocator has none to give. */
    method Write(msg: T, memory: nat) returns (ret: int, left: nat)
      requires Valid()
      modifies this, ring, ring.buffers, ring.repr
      ensures Valid() && fresh(ring.repr - old(ring.repr)) && taken == old(taken)
      ensures ret == 0 <==> old(|Queued()|) == Capacity(g)
      ensures ret in {1, 0, NO_MEMORY}
      ensures var missing := old(|Queued()|) < Capacity(g) && old(ring.Blocks())[BlockOf(g, old(|log|))].None?;
              && (ret == NO_MEMORY <==> missing && memory == 0)
              && left == if missing && memory > 0 then memory - 1 else memory
      ensures log == if ret == 1 then old(log) + [msg] else old(log)
    {
      FullIsEqual(g, taken, |log|);
      left := memory;
      if write == read { return 0, left; }
      UnpackPositions(g, taken, |log|);
      BlockOfH(g, |log|);
      BlockOfBounds(g, |log|);
      var hWrite, lWrite := write / 65536, write % 65536;
      ghost var before, block := ring.Blocks(), BlockOf(g, |log|);
      var ok;
      ok, left := ring.Append(hWrite % g.cnt, lWrite, [msg], memory, taken, log);
      TookOne(before, ring.Blocks(), memory, left, block, ok);
      if !ok { return NO_MEMORY, left; }
      hWrite, lWrite := Forward(g, hWrite, lWrite, 1, |log|);
      write := Pack(hWrite, lWrite);
      log := log + [msg];
      ret := 1;
    }

    /** `msg_buff_read`: the oldest messages, as many as are there and asked for. */
    method Read(n: nat) returns (msgs: seq<T>)
      requires Valid()
      modifies this`taken, this`read, this`freeH, ring.buffers
      ensures Valid() && ring.repr == old(ring.repr) && taken == old(taken) + |msgs|
      ensures Passed(g, old(ring.Blocks()), old(taken), taken, |log|, ring.Blocks())
      ensures |msgs| == (if n < old(|Queued()|) then n else old(|Queued()|)) && msgs == old(Queued())[..|msgs|]
    {
      UnpackPositions(g, taken, |log|);
      SpaceIsFree(g, taken, |log|);
      var space := GetSpace(g, read / 65536, read % 65536, write / 65536, write % 65536);
      var writeSize := Capacity(g) - space;
      var count := if writeSize < n then writeSize else n;
      var hRead, lRead;
      msgs, hRead, lRead := CopyOut(count);
      Release(count, hRead, lRead, write / 65536);
    }

    /** The loop over the messages read. */
    method CopyOut(count: nat) returns (msgs: seq<T>, hRead: nat, lRead: nat)
      requires Valid() && count <= |Queued()|
      ensures msgs == Queued()[..count] && hRead == ReadH(g, taken + count) && lRead == (taken + count) % g.size
    {
      UnpackPositions(g, taken, |log|);
      hRead, lRead := read / 65536, read % 65536;
      msgs := [];
      for i := 0 to count
        invariant msgs == Queued()[..i] && hRead == ReadH(g, taken + i) && lRead == (taken + i) % g.size
      {
        BlockOfH(g, taken + i);
        BlockOfBounds(g, taken + i);
        OffsetBelow(g, taken + i);
        RunInBlock(g, ring.Blocks(), taken, log, taken + i, 1);
        var run := ring.Load(hRead % g.cnt, lRead, 1);
        msgs := msgs + run;
        hRead, lRead := Forward(g, hRead, lRead, 1, taken + i);
      }
    }

    method Release(count: nat, hRead: nat, lRead: nat, hWrite: nat)
      requires Valid() && count <= |Queued()|
      requires hRead == ReadH(g, taken + count) && lRead == (taken + count) % g.size && hWrite == WriteH(g, |log|)
      modifies this`taken, this`read, this`freeH, ring.buffers
      ensures Valid() && ring.repr == old(ring.repr) && taken == old(taken) + count
      ensures Passed(g, old(ring.Blocks()), old(taken), taken, |log|, ring.Blocks())
    {
      BlockOfH(g, |log|);
      OffsetBelow(g, |log|);
      CollectRange(g, taken, taken + count);
      CollectKeeps(g, ring.Blocks(), taken, taken + count, |log|, log);
      ghost var f := taken / g.size;
      freeH := ring.GcHelp(freeH, hRead, hWrite, f, (taken + count) / g.size - f);
      read := Pack(hRead, lRead);
      taken := taken + count;
    }

    /** `msg_buff_size` */
    method Size() returns (n: int)
      requires Valid()
      ensures n == |Queued()|
    {
      UnpackPositions(g, taken, |log|);
      SpaceIsFree(g, taken, |log|);
      n := Capacity(g) - GetSpace(g, read / 65536, read % 65536, write / 65536, write % 65536);
    }
  }
}
