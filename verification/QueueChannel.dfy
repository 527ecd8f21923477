/** A connection whose receiver is the queue of messages (version B): frames arrive in chunks of any size and
    messages are read between them.  A reception that is answered with an error is followed by further ones whenever
    the session's owner reads again. */
module QueueChannel {
  import opened Arith
  import opened Options
  import opened Ring
  import opened Framing
  import opened FrameCounts
  import opened RecvQueue
  import Channel

  /** The payloads sent, the messages the queue completed and how many of them were handed out, what it holds of the
      next one, and the bytes still under way. */
  datatype Conn = Conn(accepted: seq<seq<Byte>>, done: seq<seq<Byte>>, taken: nat, partial: seq<Byte>, wire: seq<Byte>)

  datatype Event =
    | Sent(payload: seq<Byte>)
    | Received(n: nat, ret: int, failed: bool)
    | Handed(msg: Option<seq<Byte>>)

  /** What one operation makes of a connection whose queue has `cnt` slots. */
  ghost predicate Follows(en: HeaderSize, cnt: nat, a: Conn, e: Event, b: Conn)
  {
    match e
    case Sent(p) => |p| < Pow256(en) && b == a.(accepted := a.accepted + [p], wire := a.wire + Frame(en, p))
    case Received(n, ret, failed) =>
      && n <= |a.wire| && n <= (if |a.done| == a.taken + cnt then 0 else Missing(en, a.partial))
      && b.accepted == a.accepted && b.taken == a.taken && b.wire == a.wire[n..]
      && Answered(en, a.done, a.partial, a.wire[..n], ret, b.done, b.partial, failed)
    case Handed(msg) =>
      if msg.None? then b == a else a.taken < |a.done| && msg.value == a.done[a.taken] && b == a.(taken := a.taken + 1)
  }

  ghost predicate IsRun(en: HeaderSize, cnt: nat, states: seq<Conn>, events: seq<Event>)
  {
    |states| == |events| + 1 && forall i :: 0 <= i < |events| ==> Follows(en, cnt, states[i], events[i], states[i + 1])
  }

  ghost function Log(en: HeaderSize, c: Conn): seq<Byte>
  {
    EncodeAll(en, c.done) + c.partial
  }

  /** What was taken in, and what is under way, are the frames of the payloads sent. */
  ghost predicate InStep(en: HeaderSize, c: Conn)
  {
    Log(en, c) + c.wire == EncodeAll(en, c.accepted)
  }

  /** What holds whether or not bytes were lost. */
  ghost predicate Sane(en: HeaderSize, c: Conn)
  {
    && Channel.AllWritable(en, c.accepted) && AllProper(en, c.done) && c.taken <= |c.done|
    && (Gain(en, INT_MAX, c.partial) == 0 || Gain(en, INT_MAX, c.partial) == en == |c.partial|)
  }

  const START: Conn := Conn([], [], 0, [], [])

  lemma StartInStep(en: HeaderSize)
    ensures Sane(en, START) && InStep(en, START)
  {
  }

  // ---------------------------------------------------------------- when the stream survives

  lemma StaysSane(en: HeaderSize, cnt: nat, a: Conn, e: Event, b: Conn)
    requires Sane(en, a) && Follows(en, cnt, a, e, b)
    ensures Sane(en, b)
  {
    if e.Received? { ReceptionSane(en, a.done, a.partial, a.wire[..e.n], e.ret, b.done, b.partial, e.failed); }
  }

  lemma ReceptionSane(en: HeaderSize, done: seq<seq<Byte>>, partial: seq<Byte>, chunk: seq<Byte>, ret: int,
                      done': seq<seq<Byte>>, partial': seq<Byte>, failed: bool)
    requires AllProper(en, done) && Answered(en, done, partial, chunk, ret, done', partial', failed)
    requires Gain(en, INT_MAX, partial) == 0 || Gain(en, INT_MAX, partial) == en == |partial|
    requires |chunk| <= Missing(en, partial) || chunk == []
    ensures AllProper(en, done') && |done'| >= |done|
    ensures Gain(en, INT_MAX, partial') == 0 || Gain(en, INT_MAX, partial') == en == |partial'|
  {
    var s := partial + chunk;
    if |s| >= en { BytesBelow(s[..en]); }
    if |partial| >= en { assert s[..en] == partial[..en]; }
  }

  /** What was sent of the stream and is neither taken in nor under way. */
  ghost function Lost(en: HeaderSize, c: Conn): int
  {
    |EncodeAll(en, c.accepted)| - |Log(en, c)| - |c.wire|
  }

  /** A reception keeps the stream exactly when its answer is not negative: otherwise the bytes it has taken from
      the socket are gone. */
  lemma ReceptionKeepsStream(en: HeaderSize, cnt: nat, a: Conn, n: nat, ret: int, failed: bool, b: Conn)
    requires Sane(en, a) && InStep(en, a) && Follows(en, cnt, a, Received(n, ret, failed), b)
    ensures InStep(en, b) <==> ret >= 0
  {
    ReceptionLoses(en, cnt, a, n, ret, failed, b);
    if ret >= 0 { ChunkTaken(en, a.accepted, a.done, a.partial, a.wire[..n], a.wire, ret, b.done, b.partial); }
  }

  lemma ReceptionLoses(en: HeaderSize, cnt: nat, a: Conn, n: nat, ret: int, failed: bool, b: Conn)
    requires Sane(en, a) && Follows(en, cnt, a, Received(n, ret, failed), b)
    ensures ret < 0 ==> n > 0 && Lost(en, b) == Lost(en, a) + n
    ensures ret >= 0 ==> Lost(en, b) == Lost(en, a)
  {
    var chunk := a.wire[..n];
    assert n == 0 ==> a.partial + chunk == a.partial;
    if ret >= 0 { TakenInExactly(en, a.done, a.partial, chunk, ret, b.done, b.partial); }
  }

  lemma StepLoses(en: HeaderSize, cnt: nat, a: Conn, e: Event, b: Conn)
    requires Sane(en, a) && Follows(en, cnt, a, e, b)
    ensures if e.Received? && e.ret < 0 then Lost(en, b) > Lost(en, a) else Lost(en, b) == Lost(en, a)
    ensures InStep(en, a) && !(e.Received? && e.ret < 0) ==> InStep(en, b)
  {
    match e
    case Sent(p) => SentOn(en, a.accepted, Log(en, a), a.wire, p);
    case Received(n, ret, failed) =>
      ReceptionLoses(en, cnt, a, n, ret, failed, b);
      if InStep(en, a) { ReceptionKeepsStream(en, cnt, a, n, ret, failed, b); }
    case Handed(_) =>
  }

  ghost predicate Refusal(e: Event)
  {
    e.Received? && e.ret < 0
  }

  /** Over whole runs: the stream is in step at the end exactly when no reception was answered with an error. */
  lemma {:induction false} StreamKeptExactly(en: HeaderSize, cnt: nat, states: seq<Conn>, events: seq<Event>)
    requires IsRun(en, cnt, states, events) && Sane(en, states[0]) && InStep(en, states[0])
    ensures InStep(en, states[|events|]) <==> forall i :: 0 <= i < |events| ==> !Refusal(events[i])
    ensures Sane(en, states[|events|]) && Lost(en, states[|events|]) >= 0
    ensures Lost(en, states[|events|]) == 0 ==> InStep(en, states[|events|])
    decreases |events|
  {
    if events != [] {
      var k := |events| - 1;
      StreamKeptExactly(en, cnt, states[..k + 1], events[..k]);
      StaysSane(en, cnt, states[k], events[k], states[k + 1]);
      StepLoses(en, cnt, states[k], events[k], states[k + 1]);
      assert forall i :: 0 <= i < k ==> events[..k][i] == events[i];
      assert InStep(en, states[k + 1]) ==> Lost(en, states[k + 1]) == 0;
    }
  }

  // ---------------------------------------------------------------- what is handed out

  /** The duty of the session's owner: once a reception was answered with an error, nothing more is received. */
  ghost predicate Dutiful(events: seq<Event>)
  {
    forall i, j :: 0 <= i < j < |events| && Refusal(events[i]) && events[j].Received? ==> events[j].n == 0
  }

  /** In every such run the messages completed, and so those handed out, are an initial part of the payloads sent. */
  lemma {:induction false} DutifulRunsDeliver(en: HeaderSize, cnt: nat, states: seq<Conn>, events: seq<Event>)
    requires IsRun(en, cnt, states, events) && Sane(en, states[0]) && InStep(en, states[0]) && Dutiful(events)
    ensures var c := states[|events|]; c.taken <= |c.done| && c.done <= c.accepted
    decreases |events|
  {
    StreamKeptExactly(en, cnt, states, events);
    if forall i :: 0 <= i < |events| ==> !Refusal(events[i]) {
      InStepDelivers(en, states[|events|]);
    } else {
      var k := |events| - 1;
      var before, earlier := ShorterRun(en, cnt, states, events, k);
      DutifulRunsDeliver(en, cnt, before, earlier);
      LastStepDelivers(en, cnt, before, earlier, events, states[k + 1]);
    }
  }

  lemma LastStepDelivers(en: HeaderSize, cnt: nat, before: seq<Conn>, earlier: seq<Event>, events: seq<Event>, c: Conn)
    requires IsRun(en, cnt, before, earlier) && Sane(en, before[0]) && InStep(en, before[0])
    requires |events| == |earlier| + 1 && Follows(en, cnt, before[|earlier|], events[|earlier|], c) && Dutiful(events)
    requires exists i :: 0 <= i < |events| && Refusal(events[i])
    requires before[|earlier|].done <= before[|earlier|].accepted
    ensures c.done <= c.accepted
  {
    StreamKeptExactly(en, cnt, before, earlier);
    AfterRefusal(en, cnt, before[|earlier|], events, c);
  }

  lemma InStepDelivers(en: HeaderSize, c: Conn)
    requires Sane(en, c) && InStep(en, c)
    ensures c.done <= c.accepted
  {
    Associate(EncodeAll(en, c.done), c.partial, c.wire);
    FramesMatch(en, c.accepted, c.done, c.partial + c.wire);
  }

  lemma ShorterRun(en: HeaderSize, cnt: nat, states: seq<Conn>, events: seq<Event>, k: nat)
    returns (before: seq<Conn>, earlier: seq<Event>)
    requires IsRun(en, cnt, states, events) && k < |events|
    ensures IsRun(en, cnt, before, earlier) && |earlier| == k && (Dutiful(events) ==> Dutiful(earlier))
    ensures before[0] == states[0] && before[k] == states[k] && Follows(en, cnt, states[k], events[k], states[k + 1])
  {
    before, earlier := states[..k + 1], events[..k];
    forall i | 0 <= i < k ensures Follows(en, cnt, before[i], earlier[i], before[i + 1]) {
      assert Follows(en, cnt, states[i], events[i], states[i + 1]);
    }
  }

  lemma AfterRefusal(en: HeaderSize, cnt: nat, a: Conn, events: seq<Event>, b: Conn)
    requires events != [] && Sane(en, a) && Follows(en, cnt, a, events[|events| - 1], b) && Dutiful(events)
    requires exists i :: 0 <= i < |events| && Refusal(events[i])
    requires a.done <= a.accepted
    ensures b.done <= b.accepted
  {
    var e := events[|events| - 1];
    var i :| 0 <= i < |events| && Refusal(events[i]);
    if e.Received? && !Refusal(e) { assert a.partial + a.wire[..0] == a.partial; }
  }

  /** Without that duty a payload that was never sent can be handed out: the header of the only one is refused for
      want of memory, and its own bytes are then taken for a frame. */
  lemma NeverSent(cnt: nat) returns (states: seq<Conn>, events: seq<Event>)
    requires cnt > 0
    ensures IsRun(1, cnt, states, events) && states[0] == START
    ensures var c := states[|events|];
            c.accepted == [[3, 7, 7]] && c.taken == 1 && c.done == [[7, 7]] && Handed(Some(c.done[0])) in events
  {
    var p: seq<Byte> := [3, 7, 7];
    events := [Sent(p), Received(1, NO_MEMORY, true), Received(1, 0, false), Received(2, 1, false),
      Handed(Some([7, 7]))];
    states := [START, Conn([p], [], 0, [], [4, 3, 7, 7]), Conn([p], [], 0, [], [3, 7, 7]),
      Conn([p], [], 0, [3], [7, 7]),
               Conn([p], [[7, 7]], 0, [], []), Conn([p], [[7, 7]], 1, [], [])];
    SentFrame();
    HeaderRefused(cnt, states[1], states[2]);
    PayloadAsHeader(cnt, states[2], states[3]);
    PayloadAsPayload(cnt, states[3], states[4]);
    assert events[4] == Handed(Some([7, 7]));
  }

  lemma SentFrame()
    ensures Pow256(1) == 256 && Frame(1, [3, 7, 7]) == [4, 3, 7, 7]
  {
    assert LowBytes(4, 1) == [4] + LowBytes(0, 0);
  }

  lemma OneByte(b: Byte)
    ensures FromBytes([b]) == b
  {
    assert [b][1..] == [];
  }

  lemma HeaderRefused(cnt: nat, a: Conn, b: Conn)
    requires cnt > 0 && a.done == [] && a.taken == 0 && a.partial == [] && a.wire == [4, 3, 7, 7]
             && b == a.(wire := [3, 7, 7])
    ensures Follows(1, cnt, a, Received(1, NO_MEMORY, true), b)
  {
    OneByte(4);
    assert a.wire[..1] == [4] && [] + [4] == [4] && [4][..1] == [4];
  }

  lemma PayloadAsHeader(cnt: nat, a: Conn, b: Conn)
    requires cnt > 0 && a.done == [] && a.taken == 0 && a.partial == [] && a.wire == [3, 7, 7]
    requires b == a.(partial := [3], wire := [7, 7])
    ensures Follows(1, cnt, a, Received(1, 0, false), b)
  {
    OneByte(3);
    assert a.wire[..1] == [3] && [] + [3] == [3] && [3][..1] == [3];
  }

  lemma PayloadAsPayload(cnt: nat, a: Conn, b: Conn)
    requires cnt > 0 && a.done == [] && a.taken == 0 && a.partial == [3] && a.wire == [7, 7]
    requires b == a.(done := [[7, 7]], partial := [], wire := [])
    ensures Follows(1, cnt, a, Received(2, 1, false), b)
  {
    OneByte(3);
    assert a.wire[..2] == [7, 7] && [3] + [7, 7] == [3, 7, 7];
    assert [3, 7, 7][..1] == [3] && [3][..1] == [3] && [3, 7, 7][1..] == [7, 7];
  }

  // ---------------------------------------------------------------- the operations

  datatype Step = Send(payload: seq<Byte>) | Receive(limit: nat, granted: bool) | Read(fits: bool)

  predicate Sensible(en: HeaderSize, step: Step)
  {
    step.Send? ==> |step.payload| < Pow256(en)
  }

  class Receiver {
    const queue: MessageQueue
    var wire: seq<Byte>
    ghost var accepted: seq<seq<Byte>>

    ghost predicate Valid()
      reads this, queue, queue.lens, queue.buffers
    {
      queue.Valid() && Channel.AllWritable(queue.enByte, accepted)
    }

    ghost function Now(): Conn
      reads this, queue
    {
      Conn(accepted, queue.done, queue.taken, queue.partial, wire)
    }

    /** What has been handed out. */
    ghost function Delivered(): seq<seq<Byte>>
      requires Valid()
      reads this, queue, queue.lens, queue.buffers
    {
      queue.done[..queue.taken]
    }

    constructor (cnt: nat, en: HeaderSize)
      requires 1 <= cnt <= 0xefff
      ensures Valid() && Now() == START && InStep(en, Now()) && queue.enByte == en && queue.cnt == cnt
      ensures fresh(queue) && fresh(queue.lens) && fresh(queue.buffers)
    {
      queue := new MessageQueue(cnt, en);
      wire, accepted := [], [];
      StartInStep(en);
    }

    /** The other end writes a payload. */
    method Send(payload: seq<Byte>)
      requires Valid() && |payload| < Pow256(queue.enByte)
      modifies this`wire, this`accepted
      ensures Valid() && Follows(queue.enByte, queue.cnt, old(Now()), Sent(payload), Now())
    {
      wire := wire + Frame(queue.enByte, payload);
      accepted := accepted + [payload];
    }

    /** One round of the receiver: `Prepare`, what arrives of the bytes offered, and `Consume`.  While the stream is
        in step, it stays so exactly unless the answer is an error. */
    method Receive(limit: nat, granted: bool) returns (n: nat, ret: int, ghost failed: bool)
      requires Valid()
      modifies this`wire, queue, queue.lens, queue.buffers
      ensures Valid() && Follows(queue.enByte, queue.cnt, old(Now()), Received(n, ret, failed), Now())
      ensures n == if old(queue.Full()) then 0
                   else Channel.Least(limit, old(|wire|), Missing(queue.enByte, old(queue.partial)))
      ensures failed <==> !granted && old(Begins(queue.enByte, queue.partial, wire[..n]))
      ensures InStep(queue.enByte, old(Now())) ==> (InStep(queue.enByte, Now()) <==> ret >= 0)
      ensures InStep(queue.enByte, old(Now())) && ret < 0 && ret != NO_MEMORY ==>
                |queue.done| < |accepted| && !Fits(queue.enByte, INT_MAX, accepted[|queue.done|])
    {
      ghost var a := Now();
      NowSane();
      n := queue.Prepare();
      if n > limit { n := limit; }
      if n > |wire| { n := |wire|; }
      ret, failed := FillAndConsume(queue, wire[..n], granted);
      wire := wire[n..];
      if InStep(queue.enByte, a) { ReceptionInStep(queue.enByte, queue.cnt, a, n, ret, failed, Now()); }
    }

    lemma NowSane()
      requires Valid()
      ensures Sane(queue.enByte, Now())
    {
      queue.Undecided();
    }

    /** `recv_buff_read_vB`: while the stream is in step, once all bytes have arrived and nothing is read, all payloads
        have been handed out or the next one is empty, which the queue never gives out. */
    method Read(fits: bool) returns (ret: int, msg: Option<seq<Byte>>)
      requires Valid()
      modifies queue`taken, queue`read, queue.lens, queue.buffers
      ensures Valid() && Follows(queue.enByte, queue.cnt, old(Now()), Handed(msg), Now())
      ensures msg.Some? ==> fits && ret == |msg.value| > 0
      ensures msg.None? && fits && wire == [] && InStep(queue.enByte, Now()) ==>
                Delivered() == accepted || (|Delivered()| < |accepted| && accepted[|Delivered()|] == [])
    {
      ret, msg := queue.Read(fits);
      if msg.None? && fits && wire == [] && InStep(queue.enByte, Now()) {
        NowSane();
        AllHanded(queue.enByte, Now());
      }
    }

    /** Any run of the three operations.  If nothing is received after an error, what has been handed out is an initial
        part of what was sent. */
    method Run(steps: seq<Step>) returns (ghost events: seq<Event>, ghost states: seq<Conn>)
      requires Valid() && forall i :: 0 <= i < |steps| ==> Sensible(queue.enByte, steps[i])
      modifies this, queue, queue.lens, queue.buffers
      ensures Valid() && IsRun(queue.enByte, queue.cnt, states, events) && |events| == |steps|
      ensures states[0] == old(Now()) && states[|events|] == Now()
      ensures InStep(queue.enByte, old(Now())) && Dutiful(events) ==> Delivered() <= accepted
    {
      NowSane();
      events, states := [], [Now()];
      for i := 0 to |steps|
        invariant Valid() && |events| == i && IsRun(queue.enByte, queue.cnt, states, events)
        invariant states[0] == old(Now()) && states[i] == Now()
      {
        ghost var e := Perform(steps[i]);
        RunGrows(queue.enByte, queue.cnt, states, events, e, Now());
        events, states := events + [e], states + [Now()];
      }
      if InStep(queue.enByte, states[0]) && Dutiful(events) {
        DutifulRunsDeliver(queue.enByte, queue.cnt, states, events);
      }
    }

    method Perform(step: Step) returns (ghost e: Event)
      requires Valid() && Sensible(queue.enByte, step)
      modifies this, queue, queue.lens, queue.buffers
      ensures Valid() && Follows(queue.enByte, queue.cnt, old(Now()), e, Now())
    {
      match step
      case Send(payload) =>
        Send(payload);
        e := Sent(payload);
      case Receive(limit, granted) =>
        var n, ret; ghost var failed;
        n, ret, failed := Receive(limit, granted);
        e := Received(n, ret, failed);
      case Read(fits) =>
        var _, msg := Read(fits);
        e := Handed(msg);
    }
  }

  lemma RunGrows(en: HeaderSize, cnt: nat, states: seq<Conn>, events: seq<Event>, e: Event, c: Conn)
    requires IsRun(en, cnt, states, events) && Follows(en, cnt, states[|events|], e, c)
    ensures IsRun(en, cnt, states + [c], events + [e])
  {
    var states', events' := states + [c], events + [e];
    forall i | 0 <= i < |events'| ensures Follows(en, cnt, states'[i], events'[i], states'[i + 1]) {
      if i < |events| { assert Follows(en, cnt, states[i], events[i], states[i + 1]); }
    }
  }

  /** What a reception that keeps, or loses, the stream means for the payloads. */
  lemma ReceptionInStep(en: HeaderSize, cnt: nat, a: Conn, n: nat, ret: int, failed: bool, b: Conn)
    requires Sane(en, a) && InStep(en, a) && Follows(en, cnt, a, Received(n, ret, failed), b)
    ensures InStep(en, b) <==> ret >= 0
    ensures ret < 0 && ret != NO_MEMORY ==> |b.done| < |b.accepted| && !Fits(en, INT_MAX, b.accepted[|b.done|])
  {
    ReceptionKeepsStream(en, cnt, a, n, ret, failed, b);
    if ret < 0 && ret != NO_MEMORY {
      var chunk := a.wire[..n];
      Associate(EncodeAll(en, a.done), a.partial, a.wire);
      FramesMatch(en, a.accepted, a.done, a.partial + a.wire);
      FrontOf(a.partial, chunk, a.wire);
      Refused(en, a.accepted, a.done, a.partial + a.wire, a.partial + chunk);
    }
  }

  lemma AllHanded(en: HeaderSize, c: Conn)
    requires Sane(en, c) && InStep(en, c) && c.wire == [] && c.taken == |c.done|
    ensures c.done == c.accepted || (|c.done| < |c.accepted| && c.accepted[|c.done|] == [])
  {
    assert Log(en, c) + c.wire == Log(en, c);
    FramesMatch(en, c.accepted, c.done, c.partial);
    Drained(en, c.accepted, c.done, c.partial);
  }

  method FillAndConsume(queue: MessageQueue, chunk: seq<Byte>, granted: bool) returns (ret: int, ghost failed: bool)
    requires queue.Valid() && (if queue.Full() then chunk == [] else |chunk| <= Missing(queue.enByte, queue.partial))
    modifies queue, queue.lens, queue.buffers
    ensures queue.Valid() && queue.taken == old(queue.taken)
    ensures Answered(queue.enByte, old(queue.done), old(queue.partial), chunk, ret, queue.done, queue.partial, failed)
    ensures failed <==> !granted && Begins(queue.enByte, old(queue.partial), chunk)
  {
    queue.Fill(chunk);
    assert chunk[..|chunk|] == chunk;
    ret, failed := queue.Consume(|chunk|, granted);
  }

  lemma ChunkTaken(en: HeaderSize, accepted: seq<seq<Byte>>, done: seq<seq<Byte>>, partial: seq<Byte>, chunk: seq<Byte>,
                   wire: seq<Byte>, ret: int, done': seq<seq<Byte>>, partial': seq<Byte>)
    requires chunk <= wire && ret >= 0 && EncodeAll(en, done) + partial + wire == EncodeAll(en, accepted)
    requires Answered(en, done, partial, chunk, ret, done', partial', false)
    ensures EncodeAll(en, done') + partial' + wire[|chunk|..] == EncodeAll(en, accepted)
  {
    var later := wire[|chunk|..];
    TakenInExactly(en, done, partial, chunk, ret, done', partial');
    assert wire == chunk + later;
    Associate(EncodeAll(en, done) + partial, chunk, later);
  }

  lemma SentOn(en: HeaderSize, accepted: seq<seq<Byte>>, log: seq<Byte>, wire: seq<Byte>, p: seq<Byte>)
    ensures EncodeAll(en, accepted + [p]) == EncodeAll(en, accepted) + Frame(en, p)
    ensures log + wire == EncodeAll(en, accepted) ==> log + (wire + Frame(en, p)) == EncodeAll(en, accepted + [p])
  {
    EncodeAllConcat(en, accepted, [p]);
    assert EncodeAll(en, [p]) == Frame(en, p) + EncodeAll(en, [p][1..]);
    Associate(log, wire, Frame(en, p));
  }

  /** The queue refuses only a payload that does not fit. */
  lemma Refused(en: HeaderSize, accepted: seq<seq<Byte>>, done: seq<seq<Byte>>, tail: seq<Byte>, front: seq<Byte>)
    requires Channel.AllWritable(en, accepted) && done <= accepted
             && EncodeAll(en, done) + tail == EncodeAll(en, accepted)
    requires front <= tail && Gain(en, INT_MAX, front) < 0
    ensures |done| < |accepted| && !Fits(en, INT_MAX, accepted[|done|])
  {
    var rest := NotDone(en, accepted, done, tail);
    FrontRefused(en, rest, tail, front);
  }

  lemma FrontRefused(en: HeaderSize, rest: seq<seq<Byte>>, all: seq<Byte>, front: seq<Byte>)
    requires Channel.AllWritable(en, rest) && EncodeAll(en, rest) == all && front <= all && Gain(en, INT_MAX, front) < 0
    ensures rest != [] && !Fits(en, INT_MAX, rest[0])
  {
    assert all[..|front|] == front;
    Channel.GainOfAccepted(en, INT_MAX, rest, |front|);
  }

  lemma FrontOf(a: seq<Byte>, b: seq<Byte>, c: seq<Byte>)
    requires b <= c
    ensures a + b <= a + c
  {
  }

  /** The payloads that are not finished, and their frames. */
  lemma NotDone(en: HeaderSize, accepted: seq<seq<Byte>>, done: seq<seq<Byte>>, tail: seq<Byte>)
    returns (rest: seq<seq<Byte>>)
    requires Channel.AllWritable(en, accepted) && done <= accepted
             && EncodeAll(en, done) + tail == EncodeAll(en, accepted)
    ensures Channel.AllWritable(en, rest) && EncodeAll(en, rest) == tail
    ensures rest == [] ==> done == accepted
    ensures rest != [] ==> |done| < |accepted| && rest[0] == accepted[|done|]
  {
    rest := accepted[|done|..];
    TailOf(accepted, done, rest);
    RestOfStream(en, accepted, done, rest, tail);
  }

  lemma RestOfStream(en: HeaderSize, accepted: seq<seq<Byte>>, done: seq<seq<Byte>>, rest: seq<seq<Byte>>,
                     tail: seq<Byte>)
    requires accepted == done + rest && EncodeAll(en, done) + tail == EncodeAll(en, accepted)
    ensures EncodeAll(en, rest) == tail
  {
    EncodeAllConcat(en, done, rest);
    SameTail(EncodeAll(en, done), tail, EncodeAll(en, rest));
  }

  /** Whole frames in front of what was sent are the frames of the first payloads. */
  lemma {:induction false} FramesMatch(en: HeaderSize, accepted: seq<seq<Byte>>, done: seq<seq<Byte>>, rest: seq<Byte>)
    requires Channel.AllWritable(en, accepted) && AllProper(en, done)
    requires EncodeAll(en, done) + rest == EncodeAll(en, accepted)
    ensures done <= accepted
  {
    if done != [] {
      var tail := EncodeAll(en, done[1..]) + rest;
      Associate(Frame(en, done[0]), EncodeAll(en, done[1..]), rest);
      SamePayload(en, accepted, done[0], tail);
      FramesMatch(en, accepted[1..], done[1..], rest);
      assert done == [done[0]] + done[1..] && accepted == [done[0]] + accepted[1..];
    }
  }

  lemma SamePayload(en: HeaderSize, accepted: seq<seq<Byte>>, d: seq<Byte>, tail: seq<Byte>)
    requires Channel.AllWritable(en, accepted) && Fits(en, INT_MAX, d)
    requires Frame(en, d) + tail == EncodeAll(en, accepted)
    ensures accepted != [] && accepted[0] == d && EncodeAll(en, accepted[1..]) == tail
  {
    var all := EncodeAll(en, accepted);
    assert all[..|all|] == all;
    Channel.GainOfAccepted(en, INT_MAX, accepted, |all|);
    FrameRecognised(en, INT_MAX, d, tail, |all|);
    var p := accepted[0];
    assert all == Frame(en, p) + EncodeAll(en, accepted[1..]);
    assert all[en..en + |p|] == p && all[en..en + |d|] == d;
    assert all[en + |p|..] == EncodeAll(en, accepted[1..]) && all[en + |d|..] == tail;
  }

  /** Once every byte has been taken in, what is not finished is the header of an empty payload. */
  lemma Drained(en: HeaderSize, accepted: seq<seq<Byte>>, done: seq<seq<Byte>>, partial: seq<Byte>)
    requires Channel.AllWritable(en, accepted) && done <= accepted
    requires EncodeAll(en, done) + partial == EncodeAll(en, accepted)
    requires Gain(en, INT_MAX, partial) == 0 || Gain(en, INT_MAX, partial) == en == |partial|
    ensures done == accepted || (|done| < |accepted| && accepted[|done|] == [])
  {
    var rest := NotDone(en, accepted, done, partial);
    NothingDecided(en, rest, partial);
  }

  lemma TailOf<T>(all: seq<T>, front: seq<T>, rest: seq<T>)
    requires front <= all && rest == all[|front|..]
    ensures all == front + rest && (rest == [] <==> front == all) && (rest != [] ==> rest[0] == all[|front|])
  {
  }

  lemma NothingDecided(en: HeaderSize, rest: seq<seq<Byte>>, partial: seq<Byte>)
    requires Channel.AllWritable(en, rest) && partial == EncodeAll(en, rest)
    requires Gain(en, INT_MAX, partial) == 0 || Gain(en, INT_MAX, partial) == en == |partial|
    ensures rest == [] || rest[0] == []
  {
    assert partial[..|partial|] == partial;
    Channel.GainOfAccepted(en, INT_MAX, rest, |partial|);
  }

  lemma SameTail(a: seq<Byte>, b: seq<Byte>, c: seq<Byte>)
    requires a + b == a + c
    ensures b == c
  {
    assert b == (a + b)[|a|..];
    assert c == (a + c)[|a|..];
  }
}
