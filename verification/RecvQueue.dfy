/** The receive queue (version B) of engine/net/buff.c: every message has a buffer of its own, which is
    handed over whole. */
module RecvQueue {
  import opened Options
  import opened Arith
  import opened Ring
  import opened Framing
  import opened FrameCounts
  import opened RecvBuff

  /** The four bytes of an `int`, read back as an `int`. */
  ghost function IntOf(cell: seq<Byte>): int
  {
    var v := FromBytes(cell);
    if v <= INT_MAX then v else v - 0x1_0000_0000
  }

  lemma IntStored(n: nat)
    requires n <= INT_MAX
    ensures IntOf(LowBytes(n, 4)) == n
  {
    PowValues();
    LowBytesValue(n, 4);
  }

  /** The slots of the finished messages from `lo` on hold them and their lengths. */
  ghost predicate Waiting(cnt: nat, lens: seq<seq<Byte>>, buffers: seq<Option<seq<Byte>>>, lo: nat,
                          done: seq<seq<Byte>>)
  {
    && 0 < cnt == |lens| == |buffers| && (forall i :: 0 <= i < cnt ==> |lens[i]| == 4)
    && forall k {:trigger done[k]} :: lo <= k < |done| ==> SlotHolds(cnt, lens, buffers, k, done[k])
  }

  ghost predicate SlotHolds(cnt: nat, lens: seq<seq<Byte>>, buffers: seq<Option<seq<Byte>>>, k: nat, msg: seq<Byte>)
    requires 0 < cnt == |lens| == |buffers|
  {
    DivBounds(k, cnt);
    buffers[k % cnt] == Some(msg) && IntOf(lens[k % cnt]) == |msg|
  }

  /** The slot being filled: `partial` has been consumed, `ahead` put behind it.  The header goes into
      the length cell itself, the payload into the buffer. */
  ghost predicate Filling(en: HeaderSize, cell: seq<Byte>, buffer: Option<seq<Byte>>, partial: seq<Byte>,
                          ahead: seq<Byte>)
  {
    if |partial| < en then
      |cell| == 4 && |partial| + |ahead| <= en && cell[..|partial| + |ahead|] == partial + ahead
    else
      var n := FromBytes(partial[..en]) - en;
      && 0 <= n && n + en <= INT_MAX && IntOf(cell) == n
      && buffer.Some? && |buffer.value| == n && |partial| + |ahead| <= n + en
      && buffer.value[..|partial| + |ahead| - en] == (partial + ahead)[en..]
      && (|partial| < n + en || n == 0)
  }

  /** A message that completed was not empty, and its length fitted. */
  ghost predicate AllProper(en: HeaderSize, done: seq<seq<Byte>>)
  {
    forall i :: 0 <= i < |done| ==> done[i] != [] && Fits(en, INT_MAX, done[i])
  }

  /** How many bytes the current header or payload still lacks. */
  ghost function Missing(en: HeaderSize, partial: seq<Byte>): int
  {
    if |partial| < en then en - |partial| else FromBytes(partial[..en]) - |partial|
  }

  /** The bytes complete the header of a payload whose length the queue accepts. */
  ghost predicate Begins(en: HeaderSize, partial: seq<Byte>, chunk: seq<Byte>)
  {
    |partial| < en == |partial + chunk| && Gain(en, INT_MAX, partial + chunk) >= 0
  }

  class MessageQueue {
    const cnt: nat
    const enByte: HeaderSize
    const lens: array<seq<Byte>>
    const buffers: array<Option<seq<Byte>>>
    var write: nat
    var read: nat
    var check: nat

    /** All messages ever completed, how many have been read, the bytes that stand for the front of the next one,
        and what was put behind them. */
    ghost var done: seq<seq<Byte>>
    ghost var taken: nat
    ghost var partial: seq<Byte>
    ghost var ahead: seq<Byte>

    /** The finished messages and the two positions. */
    ghost predicate Readable()
      reads this, lens, buffers
    {
      && 1 <= cnt <= 0xefff && lens.Length == cnt && buffers.Length == cnt
      && taken <= |done| <= taken + cnt
      && write == |done| % (2 * cnt) && read == (taken + cnt) % (2 * cnt) && check == |partial|
      && Waiting(cnt, lens[..], buffers[..], taken, done)
      && Slot(|done|) < cnt
      && AllProper(enByte, done) && (Full() ==> partial == [] && ahead == [])
    }

    ghost predicate Valid()
      reads this, lens, buffers
    {
      && Readable()
      && (!Full() ==> Filling(enByte, lens[Slot(|done|)], buffers[Slot(|done|)], partial, ahead))
    }

    ghost function Slot(k: nat): (i: nat)
      reads this
      requires cnt > 0
    {
      DivBounds(k, cnt);
      k % cnt
    }

    ghost predicate Full()
      reads this
    {
      |done| == taken + cnt
    }

    /** Every byte consumed so far. */
    ghost function Log(): seq<Byte>
      reads this
    {
      EncodeAll(enByte, done) + partial
    }

    constructor (cnt: nat, enByte: HeaderSize)
      requires 1 <= cnt <= 0xefff
      ensures Valid() && done == [] && taken == 0 && partial == [] && this.cnt == cnt && this.enByte == enByte
      ensures fresh(lens) && fresh(buffers)
    {
      this.cnt := cnt;
      this.enByte := enByte;
      lens := new seq<Byte>[cnt](i => [0, 0, 0, 0]);
      buffers := new Option<seq<Byte>>[cnt](i => None);
      write := 0;
      read := cnt;
      check := 0;
      done, taken, partial, ahead := [], 0, [], [];
      new;
      StartOfQueue(cnt);
    }

    /** `recv_buff_prepare_vB`: what it offers is exactly what the current header or payload lacks.
        Nothing is offered when the queue is full, and also, for good, once the header of an empty
        payload has been taken in. */
    method Prepare() returns (size: nat)
      requires Valid()
      ensures size == if Full() then 0 else Missing(enByte, partial)
      ensures size == 0 <==> Full() || Gain(enByte, INT_MAX, partial) == enByte
    {
      QueueFull(cnt, taken, |done|);
      CurrentSlot(cnt, |done|);
      if write == read { return 0; }
      var cur := write % cnt;
      if check < enByte {
        size := enByte - check;
      } else {
        var msgSize := CellInt(lens[cur]);
        if msgSize <= 0 { return 0; }
        size := msgSize - (check - enByte);
      }
    }

    /** What is received between `Prepare` and `Consume`. */
    method Fill(data: seq<Byte>)
      requires Valid() && (if Full() then data == [] else |data| <= Missing(enByte, partial))
      modifies this`ahead, lens, buffers
      ensures Valid() && ahead == data
    {
      QueueFull(cnt, taken, |done|);
      if write == read { return; }
      CurrentSlot(cnt, |done|);
      var cur := write % cnt;
      ghost var was, wasBuffers := lens[..], buffers[..];
      FillSlot(cur, data);
      OthersWait(cnt, was, wasBuffers, taken, done, lens[cur], buffers[cur]);
      ahead := data;
    }

    method FillSlot(cur: nat, data: seq<Byte>)
      requires Valid() && !Full() && |data| <= Missing(enByte, partial) && cur == Slot(|done|)
      modifies lens, buffers
      ensures lens[..] == old(lens[..])[cur := lens[cur]] && buffers[..] == old(buffers[..])[cur := buffers[cur]]
      ensures |lens[cur]| == 4 && Filling(enByte, lens[cur], buffers[cur], partial, data)
    {
      if check < enByte {
        var cell := lens[cur];
        FillHeader(enByte, cell, buffers[cur], partial, ahead, data);
        lens[cur] := cell[..check] + data + cell[check + |data|..];
      } else {
        var buffer, at := buffers[cur].value, check - enByte;
        FillPayload(enByte, lens[cur], buffer, partial, ahead, data);
        buffers[cur] := Some(buffer[..at] + data + buffer[at + |data|..]);
      }
    }

    /** `recv_buff_consume_vB`: 1 exactly when the bytes complete the frame of a payload that is not
        empty, a negative error exactly when they complete a header the queue refuses, they go past what
        was offered, or a payload begins and the allocator does not grant a buffer for it. */
    method Consume(size: nat, granted: bool) returns (ret: int, ghost failed: bool)
      requires Valid() && (size <= |ahead| || (!Full() && size > Missing(enByte, partial)))
      modifies this, lens, buffers
      ensures Valid() && taken == old(taken)
      ensures size <= old(|ahead|) ==>
                && Answered(enByte, old(done), old(partial), old(ahead)[..size], ret, done, partial, failed)
                && (failed <==> !granted && old(Begins(enByte, partial, ahead[..size])))
      ensures size > old(|ahead|) ==>
                !failed && ret == (if old(|partial|) < enByte then -1 else MSG_BIG) && done == old(done)
                  && partial == old(partial)
    {
      failed := false;
      Undecided();
      if size == 0 {
        ret := 0;
      } else if check < enByte {
        ret, failed := ConsumeHeader(size, granted);
      } else {
        ret := ConsumePayload(size);
      }
    }

    method ConsumeHeader(size: nat, granted: bool) returns (ret: int, ghost failed: bool)
      requires Valid() && !Full() && |partial| < enByte && size > 0
      requires size <= |ahead| || size > Missing(enByte, partial)
      modifies this, lens, buffers
      ensures Valid() && taken == old(taken)
      ensures size <= old(|ahead|) ==>
                && Answered(enByte, old(done), old(partial), old(ahead)[..size], ret, done, partial, failed)
                && (failed <==> !granted && old(Begins(enByte, partial, ahead[..size])))
      ensures size > old(|ahead|) ==> !failed && ret == -1 && done == old(done) && partial == old(partial)
    {
      CurrentSlot(cnt, |done|);
      var cur := write % cnt;
      if check + size > enByte { return -1, false; }
      if check + size == enByte {
        ret, failed := FinishHeader(size, cur, granted);
      } else {
        PartOfHeader(enByte, lens[cur], buffers[cur], partial, ahead, size);
        partial, ahead := partial + ahead[..size], ahead[size..];
        check := check + size;
        ret, failed := 0, false;
      }
    }

    /** The header is complete: the length is put together, tested and stored, and a buffer taken. */
    method FinishHeader(size: nat, cur: nat, granted: bool) returns (ret: int, ghost failed: bool)
      requires Valid() && !Full() && |partial| < enByte == |partial| + size && size <= |ahead| && cur == Slot(|done|)
      modifies this, lens, buffers
      ensures Valid() && taken == old(taken)
      ensures Answered(enByte, old(done), old(partial), old(ahead)[..size], ret, done, partial, failed)
      ensures failed <==> !granted && old(Begins(enByte, partial, ahead[..size]))
    {
      WholeHeader(enByte, lens[cur], buffers[cur], partial, ahead, size);
      var msgSize := HeaderOf(lens[cur], enByte);
      if msgSize > INT_MAX { return MSG_BIG, false; }
      if msgSize < enByte { return MSG_SMALL, false; }
      StartPayload(msgSize - enByte, cur, granted);
      if !granted {
        partial, ahead := lens[cur][..check], [];
        return NO_MEMORY, true;
      }
      PayloadStarts(enByte, lens[cur], buffers[cur], partial + ahead[..size]);
      check := check + size;
      partial, ahead := partial + ahead[..size], [];
      ret, failed := 0, false;
    }

    /** Stores the length of the payload and takes a buffer for it. */
    method StartPayload(msgSize: nat, cur: nat, granted: bool)
      requires 0 < cnt == lens.Length == buffers.Length && msgSize <= INT_MAX && cur == Slot(|done|) && cur < cnt
      requires taken <= |done| < taken + cnt && Waiting(cnt, lens[..], buffers[..], taken, done)
      modifies lens, buffers
      ensures Waiting(cnt, lens[..], buffers[..], taken, done) && lens[cur] == LowBytes(msgSize, 4)
      ensures granted ==> IntOf(lens[cur]) == msgSize && buffers[cur].Some? && |buffers[cur].value| == msgSize
    {
      ghost var was, wasBuffers := lens[..], buffers[..];
      IntStored(msgSize);
      lens[cur] := LowBytes(msgSize, 4);
      if granted {
        var cells := new Byte[msgSize];
        buffers[cur] := Some(cells[..]);
      }
      OthersWait(cnt, was, wasBuffers, taken, done, lens[cur], buffers[cur]);
      assert lens[..] == was[cur := lens[cur]] && buffers[..] == wasBuffers[cur := buffers[cur]];
    }

    method ConsumePayload(size: nat) returns (ret: int)
      requires Valid() && !Full() && |partial| >= enByte && size > 0
      requires size <= |ahead| || size > Missing(enByte, partial)
      modifies this
      ensures Valid() && taken == old(taken)
      ensures size <= old(|ahead|) ==>
                Answered(enByte, old(done), old(partial), old(ahead)[..size], ret, done, partial, false)
      ensures size > old(|ahead|) ==> ret == MSG_BIG && done == old(done) && partial == old(partial)
    {
      CurrentSlot(cnt, |done|);
      var cur := write % cnt;
      var msgSize := CellInt(lens[cur]);
      if msgSize < check - enByte + size { return MSG_BIG; }
      PartOfPayload(enByte, lens[cur], buffers[cur], partial, ahead, size);
      check := check + size;
      partial, ahead := partial + ahead[..size], ahead[size..];
      ret := 0;
      if check - enByte == msgSize {
        FinishMessage();
        ret := 1;
      }
    }

    /** The last byte of a payload is in: the message joins those waiting. */
    method FinishMessage()
      requires Readable() && !Full() && enByte < |partial| && Fits(enByte, INT_MAX, partial[enByte..])
      requires buffers[Slot(|done|)] == Some(partial[enByte..]) && IntOf(lens[Slot(|done|)]) == |partial| - enByte
      modifies this
      ensures Valid() && taken == old(taken) && done == old(done + [partial[enByte..]]) && partial == []
    {
      MessageDone(cnt, lens[..], buffers[..], taken, done, partial[enByte..]);
      write := (write + 1) % (2 * cnt);
      check := 0;
      done, partial, ahead := done + [partial[enByte..]], [], [];
    }

    /** `recv_buff_read_vB`: hands over the oldest message waiting, and clears its slot.  `fits` says
        that the caller gave room for a pointer. */
    method Read(fits: bool) returns (ret: int, msg: Option<seq<Byte>>)
      requires Valid()
      modifies this`taken, this`read, lens, buffers
      ensures Valid()
      ensures !fits || old(taken) == |done| ==> ret == 0 && msg.None? && taken == old(taken)
      ensures fits && old(taken) < |done| ==>
                taken == old(taken) + 1 && msg == Some(done[old(taken)]) && ret == |done[old(taken)]|
    {
      if !fits { return 0, None; }
      QueueEmpty(cnt, taken, |done|);
      var height := (write + cnt) % (2 * cnt);
      if height == read { return 0, None; }
      CurrentSlot(cnt, taken + cnt);
      ModPlusModulus(taken, cnt);
      ret, msg := TakeMessage(read % cnt);
    }

    method TakeMessage(cur: nat) returns (ret: int, msg: Option<seq<Byte>>)
      requires Valid() && taken < |done| && cur == Slot(taken)
      modifies this`taken, this`read, lens, buffers
      ensures Valid() && taken == old(taken) + 1 && msg == Some(done[old(taken)]) && ret == |done[old(taken)]|
    {
      ghost var was, wasBuffers := lens[..], buffers[..];
      SlotCleared(cnt, was, wasBuffers, taken, done, [0, 0, 0, 0]);
      OneSlotOn(cnt, taken, |done|);
      assert SlotHolds(cnt, was, wasBuffers, taken, done[taken]);
      msg := buffers[cur];
      ret := CellInt(lens[cur]);
      ClearSlot(cur);
      read := (read + 1) % (2 * cnt);
      taken := taken + 1;
    }

    method ClearSlot(cur: nat)
      requires cur < lens.Length && cur < buffers.Length
      modifies lens, buffers
      ensures lens[..] == old(lens[..])[cur := [0, 0, 0, 0]] && buffers[..] == old(buffers[..])[cur := None]
    {
      lens[cur] := [0, 0, 0, 0];
      buffers[cur] := None;
    }

    /** Between two calls nothing is decided about the current message, unless it is empty. */
    lemma Undecided()
      requires Valid()
      ensures Gain(enByte, INT_MAX, partial) == 0 || Gain(enByte, INT_MAX, partial) == enByte == |partial|
      ensures partial + ahead[..0] == partial
    {
      if !Full() { NotDecided(enByte, lens[Slot(|done|)], buffers[Slot(|done|)], partial, ahead); }
    }
  }

  /** What `recv_buff_consume_vB` answers, in terms of the frame the bytes form with those before. */
  ghost predicate Answered(en: HeaderSize, done: seq<seq<Byte>>, partial: seq<Byte>, chunk: seq<Byte>, ret: int,
                           done': seq<seq<Byte>>, partial': seq<Byte>, failed: bool)
  {
    var s := partial + chunk;
    var gain := Gain(en, INT_MAX, s);
    if gain < 0 then !failed && ret == gain && done' == done && partial' == partial
    else if failed then ret == NO_MEMORY && |partial| < en == |s| && done' == done
      && partial' == LeftInCell(en, s, |partial|)
    else if gain > en then ret == 1 && gain == |s| && done' == done + [s[en..]] && partial' == []
    else ret == 0 && done' == done && partial' == s
  }

  /** The first `k` bytes of the cell once the length of the payload has been stored over its header: after a failed
      allocation they stand for what had been taken in of the header before. */
  ghost function LeftInCell(en: HeaderSize, header: seq<Byte>, k: nat): seq<Byte>
    requires k <= 4
  {
    LowBytes(if FromBytes(header) < en then 0 else FromBytes(header) - en, 4)[..k]
  }

  lemma NotDecided(en: HeaderSize, cell: seq<Byte>, buffer: Option<seq<Byte>>, partial: seq<Byte>, ahead: seq<Byte>)
    requires Filling(en, cell, buffer, partial, ahead)
    ensures Gain(en, INT_MAX, partial) == 0 || Gain(en, INT_MAX, partial) == en == |partial|
  {
  }

  /** They are those bytes only if there were none. */
  lemma LengthInHeader(en: HeaderSize, partial: seq<Byte>, chunk: seq<Byte>)
    requires |partial| < en == |partial + chunk| && FromBytes(partial + chunk) >= en
    ensures LeftInCell(en, partial + chunk, |partial|) == partial <==> partial == []
  {
    var header := partial + chunk;
    var left := LeftInCell(en, header, |partial|);
    FirstByteMoved(header, en);
    assert partial != [] ==> partial[0] == header[0] && left[0] == LowBytes(FromBytes(header) - en, 4)[0];
  }

  lemma FirstByteMoved(header: seq<Byte>, d: nat)
    requires header != [] && 0 < d < 256 && FromBytes(header) >= d
    ensures |LowBytes(FromBytes(header) - d, 4)| == 4 && LowBytes(FromBytes(header) - d, 4)[0] != header[0]
  {
  }

  lemma PartOfHeader(en: HeaderSize, cell: seq<Byte>, buffer: Option<seq<Byte>>, partial: seq<Byte>, ahead: seq<Byte>,
                     n: nat)
    requires Filling(en, cell, buffer, partial, ahead) && n <= |ahead| && |partial| + n < en
    ensures Filling(en, cell, buffer, partial + ahead[..n], ahead[n..])
    ensures Gain(en, INT_MAX, partial + ahead[..n]) == 0
  {
    assert partial + ahead[..n] + ahead[n..] == partial + ahead;
  }

  lemma WholeHeader(en: HeaderSize, cell: seq<Byte>, buffer: Option<seq<Byte>>, partial: seq<Byte>, ahead: seq<Byte>,
                    n: nat)
    requires Filling(en, cell, buffer, partial, ahead) && n <= |ahead| && |partial| < en && |partial| + n == en
    ensures n == |ahead| && |cell| == 4 && cell[..en] == partial + ahead[..n]
    ensures var m := FromBytes(cell[..en]);
            Gain(en, INT_MAX, partial + ahead[..n])
            == (if m < en then MSG_SMALL else if m > INT_MAX then MSG_BIG else if m == en then en else 0)
  {
    assert (partial + ahead[..n])[..en] == cell[..en];
  }

  lemma PayloadStarts(en: HeaderSize, cell: seq<Byte>, buffer: Option<seq<Byte>>, header: seq<Byte>)
    requires |header| == en && en <= FromBytes(header) <= INT_MAX
    requires IntOf(cell) == FromBytes(header) - en && buffer.Some? && |buffer.value| == FromBytes(header) - en
    ensures Filling(en, cell, buffer, header, [])
  {
    assert header[..en] == header;
  }

  lemma PartOfPayload(en: HeaderSize, cell: seq<Byte>, buffer: Option<seq<Byte>>, partial: seq<Byte>, ahead: seq<Byte>,
                      n: nat)
    requires Filling(en, cell, buffer, partial, ahead) && n <= |ahead| && |partial| >= en && n > 0
    ensures var s := partial + ahead[..n];
            if |s| - en < IntOf(cell) then Filling(en, cell, buffer, s, ahead[n..]) && Gain(en, INT_MAX, s) == 0
            else buffer == Some(s[en..]) && IntOf(cell) == |s| - en && Gain(en, INT_MAX, s) == |s| > en
                 && Fits(en, INT_MAX, s[en..])
  {
    BytesBelow(partial[..en]);
    var s := partial + ahead[..n];
    assert s + ahead[n..] == partial + ahead;
    assert s[..en] == partial[..en];
    if |s| - en >= IntOf(cell) { assert s == partial + ahead && buffer.value[..|s| - en] == buffer.value; }
  }

  /** No message waits exactly when the positions are half a round apart. */
  lemma QueueEmpty(cnt: nat, taken: nat, done: nat)
    requires cnt > 0 && taken <= done <= taken + cnt
    ensures (done % (2 * cnt) + cnt) % (2 * cnt) == (taken + cnt) % (2 * cnt) <==> done == taken
  {
    ModAdd(done, cnt, 2 * cnt);
    ModDifference(done + cnt, taken + cnt, 2 * cnt);
  }

  lemma OneSlotOn(cnt: nat, taken: nat, done: nat)
    requires cnt > 0 && taken < done <= taken + cnt
    ensures ((taken + cnt) % (2 * cnt) + 1) % (2 * cnt) == (taken + 1 + cnt) % (2 * cnt)
    ensures 0 <= taken % cnt < cnt && (taken % cnt == done % cnt <==> done == taken + cnt)
  {
    ModAdd(taken + cnt, 1, 2 * cnt);
    DivBounds(taken, cnt);
    ModPlusModulus(taken, cnt);
    if done < taken + cnt { ModDifference(done, taken, cnt); }
  }

  /** Clearing the slot of the message that was read leaves the later ones. */
  lemma SlotCleared(cnt: nat, lens: seq<seq<Byte>>, buffers: seq<Option<seq<Byte>>>, lo: nat, done: seq<seq<Byte>>,
                    cell: seq<Byte>)
    requires Waiting(cnt, lens, buffers, lo, done) && lo < |done| <= lo + cnt && |cell| == 4
    ensures 0 <= lo % cnt < cnt
    ensures Waiting(cnt, lens[lo % cnt := cell], buffers[lo % cnt := None], lo + 1, done)
  {
    DivBounds(lo, cnt);
    var lens', buffers' := lens[lo % cnt := cell], buffers[lo % cnt := None];
    forall k {:trigger done[k]} | lo + 1 <= k < |done| ensures SlotHolds(cnt, lens', buffers', k, done[k]) {
      ModDifference(k, lo, cnt);
      DivBounds(k, cnt);
      assert SlotHolds(cnt, lens, buffers, k, done[k]);
    }
  }

  /** A completed message joins those waiting. */
  lemma MessageDone(cnt: nat, lens: seq<seq<Byte>>, buffers: seq<Option<seq<Byte>>>, lo: nat, done: seq<seq<Byte>>,
                    msg: seq<Byte>)
    requires Waiting(cnt, lens, buffers, lo, done) && 0 <= |done| % cnt < cnt
    requires buffers[|done| % cnt] == Some(msg) && IntOf(lens[|done| % cnt]) == |msg|
    ensures Waiting(cnt, lens, buffers, lo, done + [msg])
    ensures 0 <= (|done| + 1) % cnt < cnt && |lens[(|done| + 1) % cnt]| == 4
    ensures (|done| % (2 * cnt) + 1) % (2 * cnt) == (|done| + 1) % (2 * cnt)
  {
    ModAdd(|done|, 1, 2 * cnt);
    DivBounds(|done| + 1, cnt);
    forall k {:trigger done[k]} | lo <= k < |done| ensures SlotHolds(cnt, lens, buffers, k, done[k]) {
    }
    assert SlotHolds(cnt, lens, buffers, |done|, msg);
  }

  lemma FillHeader(en: HeaderSize, cell: seq<Byte>, buffer: Option<seq<Byte>>, partial: seq<Byte>, ahead: seq<Byte>,
                   data: seq<Byte>)
    requires Filling(en, cell, buffer, partial, ahead) && |partial| + |data| <= en && |partial| < en
    ensures Filling(en, cell[..|partial|] + data + cell[|partial| + |data|..], buffer, partial, data)
    ensures |cell[..|partial|] + data + cell[|partial| + |data|..]| == 4
  {
    assert cell[..|partial|] == cell[..|partial| + |ahead|][..|partial|];
  }

  lemma FillPayload(en: HeaderSize, cell: seq<Byte>, buffer: seq<Byte>, partial: seq<Byte>, ahead: seq<Byte>,
                    data: seq<Byte>)
    requires Filling(en, cell, Some(buffer), partial, ahead) && |partial| >= en && |data| <= Missing(en, partial)
    ensures |partial| - en + |data| <= |buffer|
    ensures var at := |partial| - en;
            Filling(en, cell, Some(buffer[..at] + data + buffer[at + |data|..]), partial, data)
  {
    var at := |partial| - en;
    assert buffer[..at] == buffer[..|partial| + |ahead| - en][..at] == partial[en..];
    assert (buffer[..at] + data + buffer[at + |data|..])[..at + |data|] == (partial + data)[en..];
  }

  /** The messages waiting are not touched by what happens in the current slot. */
  lemma OthersWait(cnt: nat, lens: seq<seq<Byte>>, buffers: seq<Option<seq<Byte>>>, lo: nat, done: seq<seq<Byte>>,
                   cell: seq<Byte>, buffer: Option<seq<Byte>>)
    requires Waiting(cnt, lens, buffers, lo, done) && lo <= |done| < lo + cnt && |cell| == 4
    ensures 0 <= |done| % cnt < cnt
    ensures Waiting(cnt, lens[|done| % cnt := cell], buffers[|done| % cnt := buffer], lo, done)
  {
    DivBounds(|done|, cnt);
    var lens', buffers' := lens[|done| % cnt := cell], buffers[|done| % cnt := buffer];
    forall k {:trigger done[k]} | lo <= k < |done| ensures SlotHolds(cnt, lens', buffers', k, done[k]) {
      ModDifference(|done|, k, cnt);
      DivBounds(k, cnt);
      assert SlotHolds(cnt, lens, buffers, k, done[k]);
    }
  }

  /** The loop that puts the length together from the bytes of the cell. */
  method HeaderOf(cell: seq<Byte>, en: HeaderSize) returns (size: nat)
    requires |cell| == 4
    ensures size == FromBytes(cell[..en])
  {
    size := 0;
    var weight: nat := 1;
    for i := 0 to en
      invariant size == FromBytes(cell[..i]) && weight == Pow256(i)
    {
      AppendByte(cell[..i], cell[i]);
      assert cell[..i] + [cell[i]] == cell[..i + 1];
      size := size + cell[i] * weight;
      weight := weight * 256;
    }
  }

  method CellInt(cell: seq<Byte>) returns (n: int)
    requires |cell| == 4
    ensures n == IntOf(cell)
  {
    n := cell[0] as int + 256 * (cell[1] as int) + 65536 * (cell[2] as int) + 16777216 * (cell[3] as int);
    FourBytes(cell);
    if n > INT_MAX { n := n - 0x1_0000_0000; }
  }

  lemma FourBytes(cell: seq<Byte>)
    requires |cell| == 4
    ensures FromBytes(cell) == cell[0] as int + 256 * (cell[1] as int) + 65536 * (cell[2] as int)
            + 16777216 * (cell[3] as int)
  {
    var s1, s2, s3 := cell[1..], cell[2..], cell[3..];
    assert s1[1..] == s2 && s2[1..] == s3 && s3[1..] == [];
    assert FromBytes(s3) == cell[3];
    assert FromBytes(s2) == cell[2] + 256 * FromBytes(s3);
  }

  lemma StartOfQueue(cnt: nat)
    requires cnt > 0
    ensures 0 % (2 * cnt) == 0 && cnt % (2 * cnt) == cnt && 0 % cnt == 0
  {
    DivUnique(cnt, 2 * cnt, 0, cnt);
  }

  /** Equal positions mean a full queue. */
  lemma QueueFull(cnt: nat, taken: nat, done: nat)
    requires cnt > 0 && taken <= done <= taken + cnt
    ensures done % (2 * cnt) == (taken + cnt) % (2 * cnt) <==> done == taken + cnt
  {
    ModDifference(taken + cnt, done, 2 * cnt);
  }

  /** The number of the current slot. */
  lemma CurrentSlot(cnt: nat, k: nat)
    requires cnt > 0
    ensures 0 <= (k % (2 * cnt)) % cnt == k % cnt < cnt
  {
    DivBounds(k, cnt);
    ModOfDouble(k, cnt);
  }

  // ---------------------------------------------------------------- the stream behind the queue

  /** A chunk that is taken in, and no other, extends the stream of frames by its bytes: what completed
      is kept byte for byte, and what did not stays in the partial message. */
  lemma TakenInExactly(en: HeaderSize, done: seq<seq<Byte>>, partial: seq<Byte>, chunk: seq<Byte>, ret: int,
                       done': seq<seq<Byte>>, partial': seq<Byte>)
    requires Answered(en, done, partial, chunk, ret, done', partial', false)
    ensures EncodeAll(en, done') + partial' ==
            if ret >= 0 then EncodeAll(en, done) + partial + chunk else EncodeAll(en, done) + partial
  {
    var s := partial + chunk;
    Associate(EncodeAll(en, done), partial, chunk);
    if ret == 1 {
      BytesOfValue(s[..en]);
      assert Frame(en, s[en..]) == s;
      EncodeAllConcat(en, done, [s[en..]]);
      assert EncodeAll(en, [s[en..]]) == s + EncodeAll(en, [s[en..]][1..]);
    }
  }

  /** The payloads a reader of the byte ring finds in a stream. */
  ghost function Decode(en: HeaderSize, cap: nat, s: seq<Byte>): seq<seq<Byte>>
    decreases |s|
  {
    GainBounds(en, cap, s);
    var g := Gain(en, cap, s);
    if g <= 0 then [] else [s[en..g]] + Decode(en, cap, s[g..])
  }

  lemma DecodeFrame(en: HeaderSize, cap: nat, payload: seq<Byte>, tail: seq<Byte>, s: seq<Byte>)
    requires Fits(en, cap, payload) && s == Frame(en, payload) + tail
    ensures Decode(en, cap, s) == [payload] + Decode(en, cap, tail)
  {
    var n := en + |payload|;
    assert s[..|s|] == s;
    FrameRecognised(en, cap, payload, tail, |s|);
    assert s[en..n] == payload && s[n..] == tail;
  }

  lemma {:induction false} DecodeOfEncoded(en: HeaderSize, cap: nat, payloads: seq<seq<Byte>>, rest: seq<Byte>)
    requires AllFit(en, cap, payloads)
    ensures Decode(en, cap, EncodeAll(en, payloads) + rest) == payloads + Decode(en, cap, rest)
  {
    if payloads == [] {
      assert EncodeAll(en, payloads) + rest == rest;
    } else {
      var s := EncodeAll(en, payloads) + rest;
      DecodeOfEncoded(en, cap, payloads[1..], rest);
      Associate(Frame(en, payloads[0]), EncodeAll(en, payloads[1..]), rest);
      DecodeFrame(en, cap, payloads[0], EncodeAll(en, payloads[1..]) + rest, s);
      FirstOf(payloads, Decode(en, cap, rest));
    }
  }

  lemma FirstOf<T>(a: seq<T>, b: seq<T>)
    requires a != []
    ensures [a[0]] + (a[1..] + b) == a + b
  {
  }

  /** Both receive versions find the same payloads in the same bytes, except that the queue never gives
      out an empty payload whose header it has taken in; from then on it offers no room. */
  lemma VersionsAgree(en: HeaderSize, done: seq<seq<Byte>>, partial: seq<Byte>)
    requires AllProper(en, done) && (Gain(en, INT_MAX, partial) == 0 || (Gain(en, INT_MAX, partial) == en == |partial|))
    ensures var found := Decode(en, INT_MAX, EncodeAll(en, done) + partial);
            if Gain(en, INT_MAX, partial) == 0 then found == done else found == done + [[]]
  {
    DecodeOfEncoded(en, INT_MAX, done, partial);
    if Gain(en, INT_MAX, partial) != 0 {
      assert partial[en..en] == [] && partial[en..] == [];
      assert Decode(en, INT_MAX, partial) == [[]];
    }
  }
}
