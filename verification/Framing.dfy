/** Length-prefixed frames, as engine/net/buff.c writes and recognises them: a little-endian length of
    `en` bytes that counts itself, then the payload. */
module Framing {

  type Byte = b: int | 0 <= b < 256

  /** `enum EnByteSize` */
  type HeaderSize = n: nat | 1 <= n <= 4 witness 1

  const MSG_SMALL: int := -2
  const MSG_BIG: int := -3
  const NO_MEMORY: int := -1

  const INT_MAX: nat := 0x7fff_ffff

  function Pow256(n: nat): nat
  {
    if n == 0 then 1 else 256 * Pow256(n - 1)
  }

  lemma PowValues()
    ensures Pow256(1) == 256 && Pow256(2) == 65536 && Pow256(3) == 16777216 && Pow256(4) == 0x1_0000_0000
  {
    assert Pow256(0) == 1;
    assert Pow256(1) == 256;
    assert Pow256(2) == 65536;
    assert Pow256(3) == 16777216;
  }

  /** The `n` low bytes of a number, lowest first. */
  function LowBytes(m: nat, n: nat): (s: seq<Byte>)
    ensures |s| == n
  {
    if n == 0 then [] else [m % 256] + LowBytes(m / 256, n - 1)
  }

  /** The number whose bytes these are, lowest first. */
  function FromBytes(s: seq<Byte>): nat
  {
    if s == [] then 0 else s[0] + 256 * FromBytes(s[1..])
  }

  /** A length survives the header exactly when it fits. */
  lemma {:induction false} LowBytesValue(m: nat, n: nat)
    ensures FromBytes(LowBytes(m, n)) < Pow256(n)
    ensures FromBytes(LowBytes(m, n)) == m <==> m < Pow256(n)
  {
    if n > 0 {
      LowBytesValue(m / 256, n - 1);
      assert LowBytes(m, n)[1..] == LowBytes(m / 256, n - 1);
    }
  }

  lemma {:induction false} BytesBelow(s: seq<Byte>)
    ensures FromBytes(s) < Pow256(|s|)
  {
    if s != [] { BytesBelow(s[1..]); }
  }

  /** A length read from a header is written back as the same bytes. */
  lemma {:induction false} BytesOfValue(s: seq<Byte>)
    ensures LowBytes(FromBytes(s), |s|) == s
  {
    if s != [] {
      BytesOfValue(s[1..]);
      assert FromBytes(s) % 256 == s[0] && FromBytes(s) / 256 == FromBytes(s[1..]);
      assert s == [s[0]] + s[1..];
    }
  }

  /** What is lost of a length up to twice too large is exactly one modulus. */
  lemma {:induction false} LowBytesTruncated(m: nat, n: nat)
    requires Pow256(n) <= m < 2 * Pow256(n)
    ensures FromBytes(LowBytes(m, n)) == m - Pow256(n)
  {
    if n > 0 {
      LowBytesTruncated(m / 256, n - 1);
      assert LowBytes(m, n)[1..] == LowBytes(m / 256, n - 1);
    }
  }

  function Frame(en: HeaderSize, payload: seq<Byte>): (f: seq<Byte>)
    ensures |f| == en + |payload|
  {
    LowBytes(|payload| + en, en) + payload
  }

  /** `buff_gain_msg_size` on the bytes that are queued: the size of the complete frame in front, 0 if
      there is none yet, or a negative error. */
  ghost function Gain(en: HeaderSize, cap: nat, s: seq<Byte>): int
  {
    if |s| < en then 0
    else
      var m := FromBytes(s[..en]);
      if m < en then MSG_SMALL
      else if m > cap then MSG_BIG
      else if m > |s| then 0
      else m
  }

  lemma GainBounds(en: HeaderSize, cap: nat, s: seq<Byte>)
    ensures Gain(en, cap, s) > 0 ==> en <= Gain(en, cap, s) <= |s| && Gain(en, cap, s) <= cap
  {
  }

  /** Once decided, the answer does not change when more bytes arrive. */
  lemma GainStable(en: HeaderSize, cap: nat, s: seq<Byte>, t: seq<Byte>)
    requires Gain(en, cap, s) != 0
    ensures Gain(en, cap, s + t) == Gain(en, cap, s)
  {
    assert (s + t)[..en] == s[..en];
  }

  /** A frame is recognised whatever follows it, and only once it is there in full. */
  lemma FrameRecognised(en: HeaderSize, cap: nat, payload: seq<Byte>, rest: seq<Byte>, n: nat)
    requires |payload| + en < Pow256(en) && |payload| + en <= cap
    requires n <= |Frame(en, payload) + rest|
    ensures Gain(en, cap, (Frame(en, payload) + rest)[..n]) == if n < |payload| + en then 0 else |payload| + en
  {
    LowBytesValue(|payload| + en, en);
    var s := (Frame(en, payload) + rest)[..n];
    if n >= en { assert s[..en] == LowBytes(|payload| + en, en); }
  }

  /** The writer accepts payloads below 256^en bytes; the reader recognises their frames exactly when
      the length with the header still fits the header.  Otherwise the header wraps to a length below
      its own size, and the reader reports a malformed message. */
  lemma AcceptedReadable(en: HeaderSize, cap: nat, payload: seq<Byte>, rest: seq<Byte>)
    requires |payload| < Pow256(en) && |payload| + en <= cap
    ensures Gain(en, cap, Frame(en, payload) + rest) == |payload| + en <==> |payload| + en < Pow256(en)
    ensures |payload| + en >= Pow256(en) ==> Gain(en, cap, Frame(en, payload) + rest) == MSG_SMALL
  {
    PowValues();
    var s := Frame(en, payload) + rest;
    assert s[..en] == LowBytes(|payload| + en, en);
    LowBytesValue(|payload| + en, en);
    if |payload| + en >= Pow256(en) { LowBytesTruncated(|payload| + en, en); }
  }

  // ---------------------------------------------------------------- streams of frames

  ghost function EncodeAll(en: HeaderSize, payloads: seq<seq<Byte>>): seq<Byte>
  {
    if payloads == [] then [] else Frame(en, payloads[0]) + EncodeAll(en, payloads[1..])
  }

  lemma {:induction false} EncodeAllConcat(en: HeaderSize, a: seq<seq<Byte>>, b: seq<seq<Byte>>)
    ensures EncodeAll(en, a + b) == EncodeAll(en, a) + EncodeAll(en, b)
  {
    if a == [] {
      assert a + b == b;
    } else {
      EncodeAllConcat(en, a[1..], b);
      EncodeAllSplit(en, a, b);
      Associate(Frame(en, a[0]), EncodeAll(en, a[1..]), EncodeAll(en, b));
    }
  }

  lemma EncodeAllSplit(en: HeaderSize, a: seq<seq<Byte>>, b: seq<seq<Byte>>)
    requires a != []
    ensures EncodeAll(en, a + b) == Frame(en, a[0]) + EncodeAll(en, a[1..] + b)
    ensures EncodeAll(en, a) == Frame(en, a[0]) + EncodeAll(en, a[1..])
  {
    assert (a + b)[1..] == a[1..] + b;
  }

  lemma Associate<T>(a: seq<T>, b: seq<T>, c: seq<T>)
    ensures (a + b) + c == a + (b + c)
  {
  }

  /** How many bytes the complete frames in front of a stream take. */
  ghost function Consumed(en: HeaderSize, cap: nat, s: seq<Byte>): (n: nat)
    ensures n <= |s|
    decreases |s|
  {
    GainBounds(en, cap, s);
    var g := Gain(en, cap, s);
    if g <= 0 then 0 else g + Consumed(en, cap, s[g..])
  }

  /** How many complete frames a stream starts with. */
  ghost function CountFrames(en: HeaderSize, cap: nat, s: seq<Byte>): nat
    decreases |s|
  {
    GainBounds(en, cap, s);
    var g := Gain(en, cap, s);
    if g <= 0 then 0 else 1 + CountFrames(en, cap, s[g..])
  }

  /** What stops the scan: 0 for an incomplete frame, else an error. */
  ghost function Stop(en: HeaderSize, cap: nat, s: seq<Byte>): int
  {
    Gain(en, cap, s[Consumed(en, cap, s)..])
  }

  lemma {:induction false} StopIsFinal(en: HeaderSize, cap: nat, s: seq<Byte>)
    ensures Stop(en, cap, s) <= 0
    decreases |s|
  {
    GainBounds(en, cap, s);
    var g := Gain(en, cap, s);
    if g > 0 {
      StopIsFinal(en, cap, s[g..]);
      assert s[g..][Consumed(en, cap, s[g..])..] == s[Consumed(en, cap, s)..];
    }
  }

  /** Scanning can be resumed where an earlier scan of a shorter stream stopped. */
  lemma {:induction false} ScanResumes(en: HeaderSize, cap: nat, s: seq<Byte>, t: seq<Byte>)
    ensures var c := Consumed(en, cap, s);
            && Consumed(en, cap, s + t) == c + Consumed(en, cap, s[c..] + t)
            && CountFrames(en, cap, s + t) == CountFrames(en, cap, s) + CountFrames(en, cap, s[c..] + t)
    decreases |s|
  {
    GainBounds(en, cap, s);
    var g := Gain(en, cap, s);
    if g <= 0 {
      assert s[0..] == s;
    } else {
      ScanResumes(en, cap, s[g..], t);
      FirstScanned(en, cap, s, t, g);
      var c := Consumed(en, cap, s[g..]);
      assert s[g..][c..] == s[g + c..];
    }
  }

  lemma FirstScanned(en: HeaderSize, cap: nat, s: seq<Byte>, t: seq<Byte>, g: nat)
    requires g > 0 && g == Gain(en, cap, s) <= |s|
    ensures Consumed(en, cap, s + t) == g + Consumed(en, cap, s[g..] + t)
    ensures CountFrames(en, cap, s + t) == 1 + CountFrames(en, cap, s[g..] + t)
  {
    GainStable(en, cap, s, t);
    assert (s + t)[g..] == s[g..] + t;
  }

  /** Frames no larger than the receiver's capacity. */
  ghost predicate Fits(en: HeaderSize, cap: nat, payload: seq<Byte>)
  {
    |payload| + en < Pow256(en) && |payload| + en <= cap
  }

  ghost predicate AllFit(en: HeaderSize, cap: nat, payloads: seq<seq<Byte>>)
  {
    forall i :: 0 <= i < |payloads| ==> Fits(en, cap, payloads[i])
  }

  /** On a prefix of an encoded list the reader sees the first payload when its frame is complete,
      nothing otherwise, and never an error. */
  lemma GainOfEncoded(en: HeaderSize, cap: nat, payloads: seq<seq<Byte>>, n: nat)
    requires AllFit(en, cap, payloads) && n <= |EncodeAll(en, payloads)|
    ensures var g := Gain(en, cap, EncodeAll(en, payloads)[..n]);
            && (g == 0 || (payloads != [] && g == |payloads[0]| + en <= n))
            && (payloads != [] && n >= |payloads[0]| + en ==> g == |payloads[0]| + en)
  {
    if payloads != [] { FrameRecognised(en, cap, payloads[0], EncodeAll(en, payloads[1..]), n); }
  }
}
