/** What the answers of `recv_buff_consume_vA` add up to over a whole run, for every way of cutting the
    bytes into chunks. */
module FrameCounts {
  import opened Framing
  import opened RecvBuff

  ghost function Concat(chunks: seq<seq<Byte>>): seq<Byte>
  {
    if chunks == [] then [] else chunks[0] + Concat(chunks[1..])
  }

  /** The sum of the positive answers for the chunks, received in this order after `log`. */
  ghost function Reported(en: HeaderSize, cap: nat, log: seq<Byte>, chunks: seq<seq<Byte>>): int
    decreases |chunks|
  {
    if chunks == [] then 0
    else
      var answer := ConsumeResult(en, cap, log, chunks[0]);
      (if answer > 0 then answer else 0) + Reported(en, cap, log + chunks[0], chunks[1..])
  }

  /** Some chunk completes frames and also shows the malformed header behind them. */
  ghost predicate ErrorHidesFrames(en: HeaderSize, cap: nat, log: seq<Byte>, chunks: seq<seq<Byte>>)
    decreases |chunks|
  {
    chunks != [] &&
    ( (Stop(en, cap, log + chunks[0]) < 0 && CountFrames(en, cap, log + chunks[0]) > CountFrames(en, cap, log))
      || ErrorHidesFrames(en, cap, log + chunks[0], chunks[1..]))
  }

  /** The reported counts add up to the number of complete frames, exactly when no chunk holds both
      completed frames and the malformed header after them; otherwise frames go unreported. */
  lemma {:induction false} CountsAddUp(en: HeaderSize, cap: nat, log: seq<Byte>, chunks: seq<seq<Byte>>)
    ensures Reported(en, cap, log, chunks) <= CountFrames(en, cap, log + Concat(chunks)) - CountFrames(en, cap, log)
    ensures Reported(en, cap, log, chunks) == CountFrames(en, cap, log + Concat(chunks)) - CountFrames(en, cap, log)
            <==> !ErrorHidesFrames(en, cap, log, chunks)
    decreases |chunks|
  {
    if chunks == [] {
      assert log + Concat(chunks) == log;
    } else {
      CountsAddUp(en, cap, log + chunks[0], chunks[1..]);
      Associate(log, chunks[0], Concat(chunks[1..]));
      OneAnswer(en, cap, log, chunks[0]);
    }
  }

  lemma OneAnswer(en: HeaderSize, cap: nat, log: seq<Byte>, chunk: seq<Byte>)
    ensures CountFrames(en, cap, log + chunk) >= CountFrames(en, cap, log)
    ensures chunk == [] ==> CountFrames(en, cap, log + chunk) == CountFrames(en, cap, log)
    ensures chunk != [] && Stop(en, cap, log + chunk) >= 0 ==>
              ConsumeResult(en, cap, log, chunk) == CountFrames(en, cap, log + chunk) - CountFrames(en, cap, log)
  {
    ScanResumes(en, cap, log, chunk);
    if chunk == [] { assert log + chunk == log; }
  }

  /** In a stream without a malformed header nothing goes unreported. */
  lemma {:induction false} WellFormedCounts(en: HeaderSize, cap: nat, log: seq<Byte>, chunks: seq<seq<Byte>>)
    requires Stop(en, cap, log + Concat(chunks)) == 0
    ensures Reported(en, cap, log, chunks) == CountFrames(en, cap, log + Concat(chunks)) - CountFrames(en, cap, log)
  {
    NothingHidden(en, cap, log, chunks);
    CountsAddUp(en, cap, log, chunks);
  }

  lemma {:induction false} NothingHidden(en: HeaderSize, cap: nat, log: seq<Byte>, chunks: seq<seq<Byte>>)
    requires Stop(en, cap, log + Concat(chunks)) == 0
    ensures !ErrorHidesFrames(en, cap, log, chunks)
    decreases |chunks|
  {
    if chunks != [] {
      Associate(log, chunks[0], Concat(chunks[1..]));
      NothingHidden(en, cap, log + chunks[0], chunks[1..]);
      if Stop(en, cap, log + chunks[0]) < 0 { ErrorStays(en, cap, log + chunks[0], Concat(chunks[1..])); }
    }
  }

  /** Once a malformed header stops the scan, it stops every later scan at the same place. */
  lemma ErrorStays(en: HeaderSize, cap: nat, s: seq<Byte>, t: seq<Byte>)
    requires Stop(en, cap, s) < 0
    ensures Stop(en, cap, s + t) == Stop(en, cap, s) && Consumed(en, cap, s + t) == Consumed(en, cap, s)
  {
    var c := Consumed(en, cap, s);
    ScanResumes(en, cap, s, t);
    GainStable(en, cap, s[c..], t);
    assert (s + t)[c..] == s[c..] + t;
  }

  /** Such a chunk: a whole frame followed by a header below its own size is answered with the error
      alone. */
  lemma FramesHidden()
    ensures ConsumeResult(2, 16, [], [2, 0, 1, 0]) == MSG_SMALL
    ensures CountFrames(2, 16, [2, 0, 1, 0]) == 1
    ensures ErrorHidesFrames(2, 16, [], [[2, 0, 1, 0]])
  {
    var s: seq<Byte> := [2, 0, 1, 0];
    HiddenFrame(2, 16, s);
    assert [] + s == s;
    assert CountFrames(2, 16, []) == 0;
    assert [s][0] == s;
  }

  lemma HiddenFrame(en: HeaderSize, cap: nat, s: seq<Byte>)
    requires en == 2 && cap == 16 && s == [2, 0, 1, 0]
    ensures CountFrames(en, cap, s) == 1 && Stop(en, cap, s) == MSG_SMALL
  {
    TwoBytes(s[..2]);
    TwoBytes(s[2..]);
    assert s[2..][..2] == s[2..];
    assert Gain(en, cap, s) == 2;
    assert Consumed(en, cap, s) == 2;
  }

  lemma TwoBytes(s: seq<Byte>)
    requires |s| == 2
    ensures FromBytes(s) == 256 * (s[1] as int) + s[0]
  {
    assert FromBytes(s[1..]) == s[1] + 256 * FromBytes(s[1..][1..]);
  }

  /** The counts mean payloads: a stream of frames that fit holds exactly one frame per payload. */
  lemma {:induction false} OneFramePerPayload(en: HeaderSize, cap: nat, payloads: seq<seq<Byte>>)
    requires AllFit(en, cap, payloads)
    ensures CountFrames(en, cap, EncodeAll(en, payloads)) == |payloads|
    ensures Stop(en, cap, EncodeAll(en, payloads)) == 0
  {
    var s := EncodeAll(en, payloads);
    if payloads == [] {
      assert s[0..] == s;
    } else {
      var rest := EncodeAll(en, payloads[1..]);
      OneFramePerPayload(en, cap, payloads[1..]);
      assert s[..|s|] == s;
      GainOfEncoded(en, cap, payloads, |s|);
      var n := en + |payloads[0]|;
      assert s[n..] == rest;
      assert rest[Consumed(en, cap, rest)..] == s[Consumed(en, cap, s)..];
    }
  }
}
