/** A connection: what one side writes to its send ring, the transport carries in order, and the other
    side's receive ring takes in and hands out (engine/net/buff.c, as engine/net/net_service.c drives
    it). */
module Channel {
  import opened Ring
  import opened BlockRing
  import opened RingSpans
  import opened Framing
  import opened SendBuff
  import opened RecvBuff

  /** The bytes of all accepted payloads are split between what was read, what waits at the receiver,
      what is under way, and what waits at the sender; what was read are the frames of the first
      payloads. */
  ghost predicate Flow(en: HeaderSize, accepted: seq<seq<Byte>>, sent: seq<Byte>, sentTaken: nat, wire: seq<Byte>,
                       received: seq<Byte>, taken: nat, delivered: seq<seq<Byte>>)
  {
    && sent == EncodeAll(en, accepted) && AllWritable(en, accepted)
    && sentTaken <= |sent| && received + wire == sent[..sentTaken]
    && delivered <= accepted && taken == |EncodeAll(en, delivered)| <= |received|
  }

  /** What `send_buff_write` accepts. */
  ghost predicate AllWritable(en: HeaderSize, payloads: seq<seq<Byte>>)
  {
    forall i :: 0 <= i < |payloads| ==> |payloads[i]| < Pow256(en)
  }

  /** The payloads that have not been delivered. */
  ghost function Pending(accepted: seq<seq<Byte>>, delivered: seq<seq<Byte>>): seq<seq<Byte>>
    requires delivered <= accepted
  {
    accepted[|delivered|..]
  }

  /** What waits at the receiver is a prefix of the frames still to be delivered. */
  lemma QueuedIsPrefix(en: HeaderSize, accepted: seq<seq<Byte>>, sent: seq<Byte>, sentTaken: nat, wire: seq<Byte>,
                       received: seq<Byte>, taken: nat, delivered: seq<seq<Byte>>)
    requires Flow(en, accepted, sent, sentTaken, wire, received, taken, delivered)
    ensures var rest := EncodeAll(en, Pending(accepted, delivered));
            && |received| - taken <= |rest| && received[taken..] == rest[..|received| - taken]
            && rest == received[taken..] + wire + sent[sentTaken..]
  {
    var pending := Pending(accepted, delivered);
    var rest := EncodeAll(en, pending);
    assert accepted == delivered + pending;
    EncodeAllConcat(en, delivered, pending);
    SplitStream(EncodeAll(en, delivered), rest, sent, sentTaken, received, wire, taken);
  }

  lemma SplitStream(front: seq<Byte>, rest: seq<Byte>, sent: seq<Byte>, sentTaken: nat, received: seq<Byte>,
                    wire: seq<Byte>, taken: nat)
    requires sent == front + rest && sentTaken <= |sent| && received + wire == sent[..sentTaken]
    requires taken == |front| <= |received|
    ensures |received| - taken <= |rest| && received[taken..] == rest[..|received| - taken]
    ensures rest == received[taken..] + wire + sent[sentTaken..]
  {
    assert sent == received + wire + sent[sentTaken..];
    assert rest == sent[taken..];
    assert received == sent[..|received|];
  }

  /** The front of a stream of frames that `send_buff_write` accepted: a frame is reported exactly when
      it is complete and fits the receiver, an error exactly when the header of one that does not fit is
      there. */
  lemma GainOfAccepted(en: HeaderSize, cap: nat, payloads: seq<seq<Byte>>, n: nat)
    requires AllWritable(en, payloads) && n <= |EncodeAll(en, payloads)|
    ensures var g := Gain(en, cap, EncodeAll(en, payloads)[..n]);
            && (g > 0 <==> payloads != [] && Fits(en, cap, payloads[0]) && n >= en + |payloads[0]|)
            && (g > 0 ==> g == en + |payloads[0]|)
            && (g < 0 <==> payloads != [] && !Fits(en, cap, payloads[0]) && n >= en)
  {
    if payloads != [] {
      var p := payloads[0];
      var s := EncodeAll(en, payloads)[..n];
      if n >= en {
        assert s[..en] == LowBytes(|p| + en, en);
        HeaderOfAccepted(en, |p|);
      }
    }
  }

  lemma HeaderOfAccepted(en: HeaderSize, n: nat)
    requires n < Pow256(en)
    ensures var m := FromBytes(LowBytes(n + en, en));
            if n + en < Pow256(en) then m == n + en else m < en
  {
    PowValues();
    LowBytesValue(n + en, en);
    if n + en >= Pow256(en) { LowBytesTruncated(n + en, en); }
  }

  /** Whatever is read is the next accepted payload, byte for byte; and once everything sent has
      arrived, a reader that finds no frame has read everything, or is stuck at the first payload that
      does not fit. */
  lemma NextDelivery(en: HeaderSize, cap: nat, accepted: seq<seq<Byte>>, sent: seq<Byte>, sentTaken: nat,
                     wire: seq<Byte>, received: seq<Byte>, taken: nat, delivered: seq<seq<Byte>>)
    requires Flow(en, accepted, sent, sentTaken, wire, received, taken, delivered)
    ensures var g := Gain(en, cap, received[taken..]);
            && (g > 0 ==> && |delivered| < |accepted| && Fits(en, cap, accepted[|delivered|])
                          && g == en + |accepted[|delivered|]| <= |received| - taken
                          && received[taken..][en..g] == accepted[|delivered|]
                          && Flow(en, accepted, sent, sentTaken, wire, received, taken + g,
                             delivered + [accepted[|delivered|]]))
            && (g < 0 ==> |delivered| < |accepted| && !Fits(en, cap, accepted[|delivered|]))
            && (g == 0 && sentTaken == |sent| && wire == [] ==> delivered == accepted)
  {
    var g := Gain(en, cap, received[taken..]);
    NextAnswer(en, cap, accepted, sent, sentTaken, wire, received, taken, delivered, g);
    if g > 0 { NextTaken(en, accepted, sent, sentTaken, wire, received, taken, delivered, g); }
  }

  lemma NextAnswer(en: HeaderSize, cap: nat, accepted: seq<seq<Byte>>, sent: seq<Byte>, sentTaken: nat,
                   wire: seq<Byte>, received: seq<Byte>, taken: nat, delivered: seq<seq<Byte>>, g: int)
    requires Flow(en, accepted, sent, sentTaken, wire, received, taken, delivered)
    requires g == Gain(en, cap, received[taken..])
    ensures g > 0 ==> && |delivered| < |accepted| && Fits(en, cap, accepted[|delivered|])
                      && g == en + |accepted[|delivered|]| <= |received| - taken
    ensures g < 0 ==> |delivered| < |accepted| && !Fits(en, cap, accepted[|delivered|])
    ensures g == 0 && sentTaken == |sent| && wire == [] ==> delivered == accepted
  {
    QueuedIsPrefix(en, accepted, sent, sentTaken, wire, received, taken, delivered);
    var pending := Pending(accepted, delivered);
    GainOfAccepted(en, cap, pending, |received| - taken);
    if g == 0 && sentTaken == |sent| && wire == [] { AllArrived(en, cap, pending); }
  }

  lemma NextTaken(en: HeaderSize, accepted: seq<seq<Byte>>, sent: seq<Byte>, sentTaken: nat,
                  wire: seq<Byte>, received: seq<Byte>, taken: nat, delivered: seq<seq<Byte>>, g: nat)
    requires Flow(en, accepted, sent, sentTaken, wire, received, taken, delivered)
    requires |delivered| < |accepted| && g == en + |accepted[|delivered|]| <= |received| - taken
    ensures received[taken..][en..g] == accepted[|delivered|]
    ensures Flow(en, accepted, sent, sentTaken, wire, received, taken + g, delivered + [accepted[|delivered|]])
  {
    QueuedIsPrefix(en, accepted, sent, sentTaken, wire, received, taken, delivered);
    FrontPayload(en, Pending(accepted, delivered), received[taken..], g);
    Delivered(en, accepted, delivered);
  }

  lemma FrontPayload(en: HeaderSize, pending: seq<seq<Byte>>, queued: seq<Byte>, g: nat)
    requires pending != [] && queued <= EncodeAll(en, pending) && g == en + |pending[0]| <= |queued|
    ensures queued[en..g] == pending[0]
  {
    var frame := Frame(en, pending[0]);
    assert EncodeAll(en, pending) == frame + EncodeAll(en, pending[1..]);
    assert queued[..g] == frame;
    assert queued[en..g] == frame[en..];
  }

  lemma Delivered(en: HeaderSize, accepted: seq<seq<Byte>>, delivered: seq<seq<Byte>>)
    requires delivered <= accepted && |delivered| < |accepted|
    ensures delivered + [accepted[|delivered|]] <= accepted
    ensures |EncodeAll(en, delivered + [accepted[|delivered|]])| == |EncodeAll(en, delivered)| + en
            + |accepted[|delivered|]|
  {
    var p := accepted[|delivered|];
    EncodeAllConcat(en, delivered, [p]);
    assert EncodeAll(en, [p]) == Frame(en, p) + EncodeAll(en, [p][1..]);
  }

  lemma AllArrived(en: HeaderSize, cap: nat, pending: seq<seq<Byte>>)
    requires AllWritable(en, pending) && Gain(en, cap, EncodeAll(en, pending)) == 0
    ensures pending == []
  {
    var all := EncodeAll(en, pending);
    assert all[..|all|] == all;
    GainOfAccepted(en, cap, pending, |all|);
  }

  /** No deadlock: when the next payload fits and nothing can be read, the receive ring has room. */
  lemma RoomToProgress(en: HeaderSize, cap: nat, accepted: seq<seq<Byte>>, sent: seq<Byte>, sentTaken: nat,
                       wire: seq<Byte>, received: seq<Byte>, taken: nat, delivered: seq<seq<Byte>>)
    requires Flow(en, accepted, sent, sentTaken, wire, received, taken, delivered)
    requires |delivered| < |accepted| && Fits(en, cap, accepted[|delivered|])
    requires Gain(en, cap, received[taken..]) <= 0
    ensures |received| - taken < cap && (wire != [] || sentTaken < |sent|)
  {
    QueuedIsPrefix(en, accepted, sent, sentTaken, wire, received, taken, delivered);
    NextDelivery(en, cap, accepted, sent, sentTaken, wire, received, taken, delivered);
    GainOfAccepted(en, cap, Pending(accepted, delivered), |received| - taken);
  }

  lemma StartFlow(en: HeaderSize)
    ensures Flow(en, [], [], 0, [], [], 0, [])
  {
  }

  /** Writing another payload. */
  lemma FlowAccept(en: HeaderSize, accepted: seq<seq<Byte>>, sent: seq<Byte>, sentTaken: nat, wire: seq<Byte>,
                   received: seq<Byte>, taken: nat, delivered: seq<seq<Byte>>, p: seq<Byte>)
    requires Flow(en, accepted, sent, sentTaken, wire, received, taken, delivered) && |p| < Pow256(en)
    ensures Flow(en, accepted + [p], sent + Frame(en, p), sentTaken, wire, received, taken, delivered)
  {
    EncodeAllConcat(en, accepted, [p]);
    assert EncodeAll(en, [p]) == Frame(en, p) + EncodeAll(en, [p][1..]);
    assert (sent + Frame(en, p))[..sentTaken] == sent[..sentTaken];
  }

  /** Moving bytes from the sender to the transport. */
  lemma FlowSend(en: HeaderSize, accepted: seq<seq<Byte>>, sent: seq<Byte>, sentTaken: nat, wire: seq<Byte>,
                 received: seq<Byte>, taken: nat, delivered: seq<seq<Byte>>, n: nat)
    requires Flow(en, accepted, sent, sentTaken, wire, received, taken, delivered) && sentTaken + n <= |sent|
    ensures Flow(en, accepted, sent, sentTaken + n, wire + sent[sentTaken..][..n], received, taken, delivered)
  {
    assert received + (wire + sent[sentTaken..][..n]) == sent[..sentTaken + n];
  }

  /** Moving bytes from the transport to the receiver. */
  lemma FlowReceive(en: HeaderSize, accepted: seq<seq<Byte>>, sent: seq<Byte>, sentTaken: nat, wire: seq<Byte>,
                    received: seq<Byte>, taken: nat, delivered: seq<seq<Byte>>, n: nat)
    requires Flow(en, accepted, sent, sentTaken, wire, received, taken, delivered) && n <= |wire|
    ensures Flow(en, accepted, sent, sentTaken, wire[n..], received + wire[..n], taken, delivered)
  {
    assert received + wire[..n] + wire[n..] == received + wire;
  }

  lemma PartOfRun<T>(cells: seq<T>, queued: seq<T>, at: nat, size: nat, n: nat)
    requires at + size <= |cells| && n <= size <= |queued| && cells[at..at + size] == queued[..size]
    ensures cells[at..at + n] == queued[..n]
  {
    assert cells[at..at + n] == cells[at..at + size][..n];
  }

  /** Prepares, hands whatever part of the run the transport takes to it, and consumes that. */
  method TakeRun(send: SendRing, limit: nat) returns (bytes: seq<Byte>)
    requires send.Valid()
    modifies send.Repr()
    ensures send.Valid() && send.ring.repr == old(send.ring.repr) && send.log == old(send.log)
    ensures |bytes| == old(Least(limit, |send.Queued()|, send.g.size - send.taken % send.g.size))
    ensures send.taken == old(send.taken) + |bytes| <= |send.log|
    ensures bytes == old(send.Queued())[..|bytes|]
  {
    var size, block, offset := send.Prepare();
    var n := if size < limit then size else limit;
    OffsetBelow(send.g, send.taken);
    if n == 0 { return []; }
    PartOfRun(send.ring.Blocks()[block].value, send.Queued(), offset, size, n);
    bytes := send.ring.Load(block, offset, n);
    send.Consume(n);
  }

  function Least(a: int, b: int, c: int): int
  {
    Smaller(a, Smaller(b, c))
  }

  /** What a receiver with its block at hand offers. */
  ghost function Room(recv: RecvRing): int
    requires recv.Valid()
    reads recv, recv.ring, recv.ring.buffers, recv.ring.repr
  {
    Smaller(Capacity(recv.g) - |recv.Queued()|, recv.g.size - |recv.log| % recv.g.size)
  }

  /** The block of the receiver's write position is missing, and the allocator has none to give. */
  ghost predicate NoBlock(recv: RecvRing, memory: nat)
    requires recv.Valid()
    reads recv, recv.ring, recv.ring.buffers, recv.ring.repr
  {
    BlockOfBounds(recv.g, |recv.log|);
    |recv.Queued()| < Capacity(recv.g) && recv.ring.Blocks()[BlockOf(recv.g, |recv.log|)].None? && memory == 0
  }

  /** Prepares, receives whatever part of the transported bytes fits the run, and consumes that. */
  method PutRun(recv: RecvRing, data: seq<Byte>, limit: nat, memory: nat) returns (n: nat, ret: int, left: nat)
    requires recv.Valid()
    modifies recv.Repr()
    ensures recv.Valid() && fresh(recv.ring.repr - old(recv.ring.repr)) && recv.taken == old(recv.taken)
    ensures n <= limit && n <= |data| && recv.log == old(recv.log) + data[..n]
    ensures n == if old(NoBlock(recv, memory)) then 0 else Least(limit, |data|, old(Room(recv)))
    ensures ret == ConsumeResult(recv.enByte, Capacity(recv.g), old(recv.log), data[..n])
  {
    OffsetBelow(recv.g, |recv.log|);
    var size, block, offset;
    ghost var failed;
    size, block, offset, left, failed := recv.Prepare(memory);
    n := if size < limit then size else limit;
    if n > |data| { n := |data|; }
    if n == 0 { return 0, 0, left; }
    recv.Fill(block, offset, data[..n]);
    ret := recv.Consume(n);
  }

  /** Reads, and tells whether a frame was removed. */
  method TakePayload(recv: RecvRing, room: int) returns (ret: int, payload: seq<Byte>, ghost got: bool)
    requires recv.Valid() && -0x8000_0000 <= room < 0x8000_0000
    modifies recv.Repr()
    ensures recv.Valid() && recv.ring.repr == old(recv.ring.repr) && recv.log == old(recv.log)
    ensures var gain := Gain(recv.enByte, Capacity(recv.g), old(recv.Queued()));
            && (got <==> gain > 0 && gain - recv.enByte <= Unsigned(room))
            && recv.taken == old(recv.taken) + (if got then gain else 0)
            && (!got ==> recv.ring.Blocks() == old(recv.ring.Blocks()))
            && ret == (if gain <= 0 then gain else gain - recv.enByte)
            && if got then ret == |payload| && gain <= old(|recv.Queued()|)
               && payload == old(recv.Queued())[recv.enByte..gain]
               else payload == []
  {
    ghost var gain := Gain(recv.enByte, Capacity(recv.g), recv.Queued());
    GainBounds(recv.enByte, Capacity(recv.g), recv.Queued());
    ret, payload := recv.Read(room);
    got := gain > 0 && gain - recv.enByte <= Unsigned(room);
  }

  method NewEnds(en: HeaderSize, sendGeometry: Geometry, recvGeometry: Geometry)
    returns (send: SendRing, recv: RecvRing)
    requires Usable(sendGeometry) && Usable(recvGeometry)
    ensures send.Valid() && fresh(send.Repr()) && send.g == sendGeometry && send.enByte == en && send.log == []
            && send.taken == 0
    ensures recv.Valid() && fresh(recv.Repr()) && recv.g == recvGeometry && recv.enByte == en && recv.log == []
            && recv.taken == 0
    ensures send.Repr() !! recv.Repr()
  {
    send := new SendRing(sendGeometry, en);
    recv := new RecvRing(recvGeometry, en);
  }

  /** The steps, those that may allocate with the number of blocks the allocator has to give. */
  datatype Step = Write(payload: seq<Byte>, memory: nat) | Transmit(limit: nat) | Receive(limit: nat, memory: nat)
                | Read(room: int)

  /** The arguments are `int`s. */
  predicate Sensible(step: Step)
  {
    match step
    case Write(payload, _) => |payload| < 0x8000_0000
    case Read(room) => -0x8000_0000 <= room < 0x8000_0000
    case _ => true
  }

  class Connection {
    const send: SendRing
    const recv: RecvRing
    var wire: seq<Byte>
    ghost var accepted: seq<seq<Byte>>
    ghost var delivered: seq<seq<Byte>>

    ghost predicate Valid()
      reads this, send, recv, send.Repr(), recv.Repr(), send.ring.buffers, recv.ring.buffers
    {
      && send.Valid() && recv.Valid() && send.enByte == recv.enByte
      && this !in send.Repr() && this !in recv.Repr() && send.Repr() !! recv.Repr()
      && Flow(send.enByte, accepted, send.log, send.taken, wire, recv.log, recv.taken, delivered)
    }

    constructor (en: HeaderSize, sendGeometry: Geometry, recvGeometry: Geometry)
      requires Usable(sendGeometry) && Usable(recvGeometry)
      ensures Valid() && accepted == [] && delivered == []
      ensures send.g == sendGeometry && recv.g == recvGeometry && send.enByte == en
    {
      var s, r := NewEnds(en, sendGeometry, recvGeometry);
      send, recv := s, r;
      wire, accepted, delivered := [], [], [];
      StartFlow(en);
    }

    ghost function Now(): Link
      requires send.ring.Valid() && recv.ring.Valid()
      reads this, send, recv, send.ring, recv.ring, send.ring.buffers, recv.ring.buffers
      reads send.ring.repr, recv.ring.repr
    {
      Link(accepted, send.log, send.taken, Gaps(send.ring.Blocks()), wire, recv.log, recv.taken,
           Gaps(recv.ring.Blocks()), delivered)
    }

    /** `send_buff_write` by the session's owner. */
    method Write(payload: seq<Byte>, memory: nat) returns (ret: int, ghost ok: bool)
      requires Valid() && |payload| < 0x8000_0000
      modifies this`accepted, send.Repr()
      ensures Valid() && fresh(send.Repr() - old(send.Repr()))
      ensures Follows(send.enByte, send.g, recv.g, old(Now()), Step.Write(payload, memory), Now())
      ensures accepted == if ok then old(accepted) + [payload] else old(accepted)
      ensures ret == if ok then |payload|
                     else if Admissible(send.enByte, send.g, old(|send.Queued()|), |payload|) then NO_MEMORY else 0
    {
      ghost var a, missing := Now(), send.Lacks(|payload|);
      LacksIs(|payload|);
      ret, ok := Enqueue(payload, memory, missing);
      WriteFollows(send.enByte, send.g, recv.g, a, payload, memory, missing, ok, Now());
    }

    lemma LacksIs(size: nat)
      requires Valid()
      ensures send.Lacks(size) == MissingFor(send.enByte, send.g, Now(), size)
    {
    }

    method Enqueue(payload: seq<Byte>, memory: nat, ghost missing: nat) returns (ret: int, ghost ok: bool)
      requires Valid() && |payload| < 0x8000_0000
      requires missing == send.Lacks(|payload|)
      modifies this`accepted, send.Repr()
      ensures Valid() && fresh(send.Repr() - old(send.Repr())) && recv.ring.Blocks() == old(recv.ring.Blocks())
      ensures accepted == if ok then old(accepted) + [payload] else old(accepted)
      ensures send.log == (if ok then old(send.log) + Frame(send.enByte, payload) else old(send.log))
              && send.taken == old(send.taken)
      ensures var fits := Admissible(send.enByte, send.g, old(|send.Queued()|), |payload|);
              (ok <==> fits && missing <= memory) && ret == if ok then |payload| else if fits then NO_MEMORY else 0
    {
      var left;
      ret, ok, left := send.Write(payload, |payload|, memory);
      assert payload[..|payload|] == payload;
      if ok {
        FlowAccept(send.enByte, accepted, old(send.log), send.taken, wire, recv.log, recv.taken, delivered, payload);
        accepted := accepted + [payload];
      }
    }

    /** One round of the sender. */
    method Transmit(limit: nat) returns (n: nat)
      requires Valid()
      modifies this`wire, send.Repr()
      ensures Valid() && send.Repr() == old(send.Repr())
      ensures Follows(send.enByte, send.g, recv.g, old(Now()), Step.Transmit(limit), Now())
      ensures n == old(Least(limit, |send.Queued()|, send.g.size - send.taken % send.g.size))
    {
      var bytes := TakeRun(send, limit);
      n := |bytes|;
      FlowSend(send.enByte, accepted, send.log, old(send.taken), wire, recv.log, recv.taken, delivered, n);
      wire := wire + bytes;
    }

    /** One round of the receiver. */
    method Receive(limit: nat, memory: nat) returns (n: nat, ret: int, left: nat)
      requires Valid()
      modifies this`wire, recv.Repr()
      ensures Valid() && fresh(recv.Repr() - old(recv.Repr()))
      ensures Follows(send.enByte, send.g, recv.g, old(Now()), Step.Receive(limit, memory), Now())
      ensures n == if old(NoBlock(recv, memory)) then 0 else old(Least(limit, |wire|, Room(recv)))
      ensures n <= old(|wire|) && ret == ConsumeResult(recv.enByte, Capacity(recv.g), old(recv.log), old(wire)[..n])
    {
      ghost var a := Now();
      n, ret, left := Deposit(limit, memory);
      ReceiveFollows(send.enByte, send.g, recv.g, a, limit, memory, n, Now());
    }

    method Deposit(limit: nat, memory: nat) returns (n: nat, ret: int, left: nat)
      requires Valid()
      modifies this`wire, recv.Repr()
      ensures Valid() && fresh(recv.Repr() - old(recv.Repr())) && recv.taken == old(recv.taken)
      ensures n == if old(NoBlock(recv, memory)) then 0 else old(Least(limit, |wire|, Room(recv)))
      ensures n <= old(|wire|) && wire == old(wire)[n..] && recv.log == old(recv.log) + old(wire)[..n]
      ensures ret == ConsumeResult(recv.enByte, Capacity(recv.g), old(recv.log), old(wire)[..n])
    {
      ghost var received := recv.log;
      n, ret, left := PutRun(recv, wire, limit, memory);
      FlowReceive(send.enByte, accepted, send.log, send.taken, wire, received, recv.taken, delivered, n);
      wire := wire[n..];
    }

    /** `recv_buff_read`: what it hands out is the next payload that was accepted at the other end. */
    method Read(room: int) returns (ret: int, payload: seq<Byte>, ghost got: bool)
      requires Valid() && -0x8000_0000 <= room < 0x8000_0000
      modifies this`delivered, recv.Repr()
      ensures Valid() && recv.Repr() == old(recv.Repr())
      ensures Follows(send.enByte, send.g, recv.g, old(Now()), Step.Read(room), Now())
      ensures delivered == if got then old(delivered) + [payload] else old(delivered)
      ensures var gain := Gain(recv.enByte, Capacity(recv.g), old(recv.Queued()));
              && (got <==> gain > 0 && gain - recv.enByte <= Unsigned(room))
              && ret == (if gain <= 0 then gain else gain - recv.enByte)
      ensures if got then ret == |payload| else payload == []
      ensures !got && ret > 0 ==> |delivered| < |accepted| && ret == |accepted[|delivered|]| > Unsigned(room)
      ensures !got && ret < 0 ==>
                |delivered| < |accepted| && !Fits(recv.enByte, Capacity(recv.g), accepted[|delivered|])
      ensures !got && ret == 0 && send.Queued() == [] && wire == [] ==> delivered == accepted
    {
      ghost var a := Now();
      ret, payload, got := HandOut(room);
      ReadFollows(send.enByte, send.g, recv.g, a, room, got, payload, Now());
    }

    method HandOut(room: int) returns (ret: int, payload: seq<Byte>, ghost got: bool)
      requires Valid() && -0x8000_0000 <= room < 0x8000_0000
      modifies this`delivered, recv.Repr()
      ensures Valid() && recv.Repr() == old(recv.Repr()) && recv.log == old(recv.log)
      ensures delivered == if got then old(delivered) + [payload] else old(delivered)
      ensures var gain := Gain(recv.enByte, Capacity(recv.g), old(recv.Queued()));
              && (got <==> gain > 0 && gain - recv.enByte <= Unsigned(room))
              && ret == (if gain <= 0 then gain else gain - recv.enByte)
              && recv.taken == old(recv.taken) + (if got then gain else 0)
              && (got ==> recv.enByte <= gain <= old(|recv.Queued()|)
                          && payload == old(recv.Queued())[recv.enByte..gain])
      ensures if got then ret == |payload| else payload == [] && recv.ring.Blocks() == old(recv.ring.Blocks())
      ensures !got && ret > 0 ==> |delivered| < |accepted| && ret == |accepted[|delivered|]| > Unsigned(room)
      ensures !got && ret < 0 ==>
                |delivered| < |accepted| && !Fits(recv.enByte, Capacity(recv.g), accepted[|delivered|])
      ensures !got && ret == 0 && send.Queued() == [] && wire == [] ==> delivered == accepted
    {
      NextDelivery(send.enByte, Capacity(recv.g), accepted, send.log, send.taken, wire, recv.log, recv.taken,
        delivered);
      GainBounds(recv.enByte, Capacity(recv.g), recv.Queued());
      ret, payload, got := TakePayload(recv, room);
      if got { delivered := delivered + [payload]; }
    }

    /** Any run of the four operations, in any order and with chunks of any size: each does what it should, and what
        has been read is always an initial part of what was accepted, payload for payload. */
    method Run(steps: seq<Step>) returns (ghost states: seq<Link>)
      requires Valid() && forall i :: 0 <= i < |steps| ==> Sensible(steps[i])
      modifies this, send.Repr(), recv.Repr()
      ensures Valid() && old(accepted) <= accepted && old(delivered) <= delivered <= accepted
      ensures IsRun(send.enByte, send.g, recv.g, states, steps) && states[0] == old(Now()) && states[|steps|] == Now()
    {
      states := [Now()];
      for i := 0 to |steps|
        invariant Valid() && old(accepted) <= accepted && old(delivered) <= delivered
        invariant fresh(send.Repr() - old(send.Repr())) && fresh(recv.Repr() - old(recv.Repr()))
        invariant IsRun(send.enByte, send.g, recv.g, states, steps[..i])
        invariant states[0] == old(Now()) && states[i] == Now()
      {
        Perform(steps[i]);
        RunGrows(send.enByte, send.g, recv.g, states, steps, i, Now());
        states := states + [Now()];
      }
      assert steps[..|steps|] == steps;
    }

    method Perform(step: Step)
      requires Valid() && Sensible(step)
      modifies this, send.Repr(), recv.Repr()
      ensures Valid() && old(accepted) <= accepted && old(delivered) <= delivered
      ensures fresh(send.Repr() - old(send.Repr())) && fresh(recv.Repr() - old(recv.Repr()))
      ensures Follows(send.enByte, send.g, recv.g, old(Now()), step, Now())
    {
      match step
      case Write(payload, memory) => var _, _ := Write(payload, memory);
      case Transmit(limit) => var _ := Transmit(limit);
      case Receive(limit, memory) => var _, _, _ := Receive(limit, memory);
      case Read(room) => var _, _, _ := Read(room);
    }
  }

  /** What a connection has accepted, sent, carried, received and delivered, and the blocks missing at its ends. */
  datatype Link = Link(accepted: seq<seq<Byte>>, sent: seq<Byte>, sentTaken: nat, sendGaps: set<nat>, wire: seq<Byte>,
                       received: seq<Byte>, taken: nat, recvGaps: set<nat>, delivered: seq<seq<Byte>>)

  /** How many blocks the sender lacks for a frame with a payload of this size. */
  ghost function MissingFor(en: HeaderSize, g: Geometry, a: Link, size: nat): nat
    requires Usable(g)
  {
    |a.sendGaps * BlocksOf(g, |a.sent|, Reach(g, |a.sent| + en, size))|
  }

  /** What a step does: a write is accepted exactly if it fits and the allocator has the blocks for it; bytes move as
      many at once as limit, queue and block allow; a read hands out the frame in front if it is there and fits. */
  ghost predicate Follows(en: HeaderSize, gs: Geometry, gr: Geometry, a: Link, step: Step, b: Link)
    requires Usable(gs) && Usable(gr)
  {
    && a.sentTaken <= |a.sent| && a.taken <= |a.received| && Sensible(step)
    && match step
       case Write(payload, memory) =>
         var ok := && Admissible(en, gs, |a.sent| - a.sentTaken, |payload|)
                   && MissingFor(en, gs, a, |payload|) <= memory;
         b == if ok then a.(accepted := a.accepted + [payload], sent := a.sent + Frame(en, payload),
                            sendGaps := b.sendGaps)
              else a.(sendGaps := b.sendGaps)
       case Transmit(limit) =>
         var n := Least(limit, |a.sent| - a.sentTaken, gs.size - a.sentTaken % gs.size);
         && 0 <= n <= |a.sent| - a.sentTaken
         && b == a.(sentTaken := a.sentTaken + n, wire := a.wire + a.sent[a.sentTaken..][..n], sendGaps := b.sendGaps)
       case Receive(limit, memory) =>
         var space := Capacity(gr) - (|a.received| - a.taken);
         var n := if space > 0 && BlockOf(gr, |a.received|) in a.recvGaps && memory == 0 then 0
                  else Least(limit, |a.wire|, Smaller(space, gr.size - |a.received| % gr.size));
         && 0 <= n <= |a.wire|
         && b == a.(wire := a.wire[n..], received := a.received + a.wire[..n], recvGaps := b.recvGaps)
       case Read(room) =>
         var front := a.received[a.taken..];
         var gain := Gain(en, Capacity(gr), front);
         if gain > 0 && gain - en <= Unsigned(room) then
           && en <= gain <= |front|
           && b == a.(taken := a.taken + gain, delivered := a.delivered + [front[en..gain]], recvGaps := b.recvGaps)
         else b == a
  }

  /** The payload fits the header and its frame the free space. */
  ghost predicate Admissible(en: HeaderSize, g: Geometry, queued: nat, size: nat)
  {
    size < Pow256(en) && queued + en + size <= Capacity(g)
  }

  lemma WriteFollows(en: HeaderSize, gs: Geometry, gr: Geometry, a: Link, payload: seq<Byte>, memory: nat,
                     missing: nat, ok: bool, b: Link)
    requires Usable(gs) && Usable(gr) && Sensible(Write(payload, memory))
    requires a.sentTaken <= |a.sent| && a.taken <= |a.received|
    requires missing == MissingFor(en, gs, a, |payload|)
    requires ok <==> Admissible(en, gs, |a.sent| - a.sentTaken, |payload|) && missing <= memory
    requires b.accepted == if ok then a.accepted + [payload] else a.accepted
    requires b.sent == if ok then a.sent + Frame(en, payload) else a.sent
    requires b == a.(accepted := b.accepted, sent := b.sent, sendGaps := b.sendGaps)
    ensures Follows(en, gs, gr, a, Write(payload, memory), b)
  {
  }

  lemma ReceiveFollows(en: HeaderSize, gs: Geometry, gr: Geometry, a: Link, limit: nat, memory: nat, n: nat, b: Link)
    requires Usable(gs) && Usable(gr) && a.sentTaken <= |a.sent| && a.taken <= |a.received| && n <= |a.wire|
    requires var space := Capacity(gr) - (|a.received| - a.taken);
             n == if space > 0 && BlockOf(gr, |a.received|) in a.recvGaps && memory == 0 then 0
                  else Least(limit, |a.wire|, Smaller(space, gr.size - |a.received| % gr.size))
    requires b.wire == a.wire[n..] && b.received == a.received + a.wire[..n]
    requires b == a.(wire := b.wire, received := b.received, recvGaps := b.recvGaps)
    ensures Follows(en, gs, gr, a, Receive(limit, memory), b)
  {
  }

  lemma ReadFollows(en: HeaderSize, gs: Geometry, gr: Geometry, a: Link, room: int, got: bool, payload: seq<Byte>,
                    b: Link)
    requires Usable(gs) && Usable(gr) && a.sentTaken <= |a.sent| && a.taken <= |a.received| && Sensible(Read(room))
    requires var gain := Gain(en, Capacity(gr), a.received[a.taken..]);
             && (got <==> gain > 0 && gain - en <= Unsigned(room)) && b.taken == a.taken + (if got then gain else 0)
             && (got ==> en <= gain <= |a.received| - a.taken && payload == a.received[a.taken..][en..gain])
    requires b.delivered == if got then a.delivered + [payload] else a.delivered
    requires b == a.(taken := b.taken, delivered := b.delivered, recvGaps := b.recvGaps)
    requires !got ==> b.recvGaps == a.recvGaps
    ensures Follows(en, gs, gr, a, Read(room), b)
  {
  }

  ghost predicate IsRun(en: HeaderSize, gs: Geometry, gr: Geometry, states: seq<Link>, steps: seq<Step>)
  {
    && Usable(gs) && Usable(gr) && |states| == |steps| + 1
    && forall i :: 0 <= i < |steps| ==> Follows(en, gs, gr, states[i], steps[i], states[i + 1])
  }

  lemma RunGrows(en: HeaderSize, gs: Geometry, gr: Geometry, states: seq<Link>, steps: seq<Step>, i: nat, next: Link)
    requires i < |steps| && IsRun(en, gs, gr, states, steps[..i]) && Follows(en, gs, gr, states[i], steps[i], next)
    ensures IsRun(en, gs, gr, states + [next], steps[..i + 1])
  {
    var more := states + [next];
    forall k | 0 <= k < i + 1 ensures Follows(en, gs, gr, more[k], steps[..i + 1][k], more[k + 1]) {
      if k < i { assert Follows(en, gs, gr, states[k], steps[..i][k], states[k + 1]); }
    }
  }
}
