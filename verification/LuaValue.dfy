/** The Lua values engine/lualib/serialize.c packs, and the tables they refer to. */
module LuaValue {
  import opened Arith
  import opened Framing

  const MIN_INTEGER: int := -0x8000_0000_0000_0000
  const MAX_INTEGER: int := 0x7fff_ffff_ffff_ffff

  /** Doubles are eight opaque bytes, light user data is a pointer's bytes, tables are named. */
  datatype Value = Nil | Bool(b: bool) | Integer(i: int) | Double(bits: seq<Byte>) | Str(s: seq<Byte>)
                 | Pointer(address: seq<Byte>) | Table(id: nat)

  datatype Entry = Entry(key: Value, value: Value)

  /** The content of a table, in the order `lua_next` visits it. */
  type Entries = seq<Entry>

  type Heap = map<nat, Entries>

  // ---------------------------------------------------------------- keys

  function Pow2(n: nat): (p: nat)
    ensures p > 0
  {
    if n == 0 then 1 else 2 * Pow2(n - 1)
  }

  datatype KeyClass = NotAKey | Key(value: Value)

  /** What `lua_rawset` makes of a key: nil and NaN are refused, a float with an integral value that fits
      an integer becomes that integer. */
  function KeyOf(k: Value): KeyClass
  {
    match k
    case Nil => NotAKey
    case Double(bits) => if |bits| == 8 then FloatKey(bits) else Key(k)
    case _ => Key(k)
  }

  /** The same for a double in the binary64 format. */
  function FloatKey(bits: seq<Byte>): KeyClass
  {
    KeyOfParts(Negative(bits), Exponent(bits), Fraction(bits), bits)
  }

  function Negative(bits: seq<Byte>): bool
  {
    FromBytes(bits) / 0x8000_0000_0000_0000 % 2 == 1
  }

  function Exponent(bits: seq<Byte>): nat
  {
    FromBytes(bits) / 0x10_0000_0000_0000 % 2048
  }

  function Fraction(bits: seq<Byte>): (f: nat)
    ensures f < 0x10_0000_0000_0000
  {
    FromBytes(bits) % 0x10_0000_0000_0000
  }

  function Signed(negative: bool, magnitude: nat): int
  {
    if negative then 0 - magnitude else magnitude
  }

  function KeyOfParts(negative: bool, exponent: nat, fraction: nat, bits: seq<Byte>): KeyClass
  {
    if exponent == 2047 then (if fraction != 0 then NotAKey else Key(Double(bits)))
    else if exponent == 0 then (if fraction == 0 then Key(Integer(0)) else Key(Double(bits)))
    else
      var m := 0x10_0000_0000_0000 + fraction;
      if exponent > 1086 then Key(Double(bits))
      else if exponent >= 1075 then
        var i := Signed(negative, m * Pow2(exponent - 1075));
        if MIN_INTEGER <= i <= MAX_INTEGER then Key(Integer(i)) else Key(Double(bits))
      else if m % Pow2(1075 - exponent) == 0 then
        DivBounds(m, Pow2(1075 - exponent));
        Key(Integer(Signed(negative, m / Pow2(1075 - exponent))))
      else Key(Double(bits))
  }

  /** The double has exactly this integral value: its significand times its power of two, without any
      rounding. */
  ghost predicate DoubleIs(bits: seq<Byte>, i: int)
  {
    PartsAre(Negative(bits), Exponent(bits), Fraction(bits), i)
  }

  ghost predicate PartsAre(negative: bool, exponent: nat, fraction: nat, i: int)
  {
    var significand := if exponent == 0 then fraction else 0x10_0000_0000_0000 + fraction;
    var scale := if exponent == 0 then 1 else exponent;
    var magnitude := if i < 0 then -i else i;
    && exponent != 2047 && (i != 0 ==> (negative <==> i < 0))
    && (if scale >= 1075 then significand * Pow2(scale - 1075) == magnitude
        else significand == magnitude * Pow2(1075 - scale))
  }

  lemma {:induction false} Pow2Grows(a: nat, b: nat)
    requires a <= b
    ensures Pow2(a) <= Pow2(b)
  {
    if a < b { Pow2Grows(a, b - 1); }
  }

  lemma Pow2Values()
    ensures Pow2(12) == 4096 && Pow2(53) == 0x20_0000_0000_0000
  {
    assert Pow2(6) == 64 && Pow2(12) == 4096;
    assert Pow2(18) == 0x4_0000 && Pow2(24) == 0x100_0000;
    assert Pow2(30) == 0x4000_0000 && Pow2(36) == 0x10_0000_0000;
    assert Pow2(42) == 0x400_0000_0000 && Pow2(48) == 0x1_0000_0000_0000;
  }

  /** A float key becomes an integer key exactly when its value is that integer. */
  lemma FloatKeyMeaning(bits: seq<Byte>, i: int)
    ensures FloatKey(bits) == Key(Integer(i)) <==> MIN_INTEGER <= i <= MAX_INTEGER && DoubleIs(bits, i)
  {
    PartsMeaning(Negative(bits), Exponent(bits), Fraction(bits), bits, i);
  }

  lemma PartsMeaning(negative: bool, exponent: nat, fraction: nat, bits: seq<Byte>, i: int)
    requires fraction < 0x10_0000_0000_0000
    ensures KeyOfParts(negative, exponent, fraction, bits) == Key(Integer(i))
            <==> MIN_INTEGER <= i <= MAX_INTEGER && PartsAre(negative, exponent, fraction, i)
  {
    if exponent == 0 || exponent > 1086 {
      NoIntegerKey(negative, exponent, fraction, bits, i);
    } else {
      NormalMeaning(negative, exponent, fraction, bits, i);
    }
  }

  /** Zero aside, the numbers below the normal ones are no integers, and those from 2^64 on too large. */
  lemma NoIntegerKey(negative: bool, exponent: nat, fraction: nat, bits: seq<Byte>, i: int)
    requires fraction < 0x10_0000_0000_0000 && (exponent == 0 || exponent > 1086)
    ensures KeyOfParts(negative, exponent, fraction, bits) == Key(Integer(i))
            <==> MIN_INTEGER <= i <= MAX_INTEGER && PartsAre(negative, exponent, fraction, i)
  {
    Pow2Values();
    if exponent == 0 {
      Pow2Grows(53, 1074);
      TooSmall(fraction, if i < 0 then -i else i, Pow2(1074));
    } else {
      Pow2Grows(12, exponent - 1075);
      TooLarge(0x10_0000_0000_0000 + fraction, Pow2(exponent - 1075));
    }
  }

  lemma NormalMeaning(negative: bool, exponent: nat, fraction: nat, bits: seq<Byte>, i: int)
    requires fraction < 0x10_0000_0000_0000 && 0 < exponent <= 1086
    ensures KeyOfParts(negative, exponent, fraction, bits) == Key(Integer(i))
            <==> MIN_INTEGER <= i <= MAX_INTEGER && PartsAre(negative, exponent, fraction, i)
  {
    var m := 0x10_0000_0000_0000 + fraction;
    if exponent >= 1075 {
      ScaledUp(negative, m, Pow2(exponent - 1075), i);
    } else {
      ScaledDown(negative, m, Pow2(1075 - exponent), i);
    }
  }

  lemma ScaledUp(negative: bool, m: nat, p: nat, i: int)
    requires m > 0 && p > 0
    ensures Signed(negative, m * p) == i <==> (i != 0 ==> (negative <==> i < 0)) && m * p == if i < 0 then -i else i
  {
    MulMonotonic(m, 1, p);
  }

  lemma ScaledDown(negative: bool, m: nat, p: nat, i: int)
    requires 0 < m < 0x20_0000_0000_0000 && p > 0
    ensures 0 <= m / p <= m
    ensures m % p == 0 && Signed(negative, m / p) == i
            <==> (i != 0 ==> (negative <==> i < 0)) && m == (if i < 0 then -i else i) * p
  {
    Quotient(m, p, if i < 0 then -i else i);
  }

  lemma TooSmall(fraction: nat, a: nat, p: nat)
    requires fraction < p
    ensures fraction == a * p <==> fraction == 0 && a == 0
  {
    if a > 0 { MulMonotonic(p, 1, a); }
  }

  lemma TooLarge(m: nat, p: nat)
    requires m >= 0x10_0000_0000_0000 && p >= 4096
    ensures m * p >= 0x1_0000_0000_0000_0000
  {
    MulMonotonic(p, 0x10_0000_0000_0000, m);
  }

  lemma Quotient(m: nat, p: nat, a: nat)
    requires p > 0
    ensures 0 <= m / p <= m && 0 <= m % p
    ensures m == a * p <==> m % p == 0 && m / p == a
  {
    DivBounds(m, p);
    if m == a * p { DivUnique(m, p, a, 0); }
    MulMonotonic(m / p, 1, p);
  }

  /** A binary64 number is its sign, its exponent and its fraction, from the top. */
  lemma PartsOfDouble(bits: seq<Byte>)
    requires |bits| == 8
    ensures Exponent(bits) < 2048
    ensures FromBytes(bits) == (if Negative(bits) then 0x8000_0000_0000_0000 else 0)
                               + 0x10_0000_0000_0000 * Exponent(bits) + Fraction(bits)
  {
    BytesBelow(bits);
    assert Pow256(8) == 0x1_0000_0000_0000_0000 by {
      PowValues();
      assert Pow256(6) == 256 * Pow256(5) && Pow256(8) == 256 * Pow256(7);
    }
  }

  /** The all-ones exponent with a fraction. */
  ghost predicate NotANumber(v: Value)
  {
    v.Double? && |v.bits| == 8 && Exponent(v.bits) == 2047 && Fraction(v.bits) != 0
  }

  /** The keys that `lua_rawset` raises an error for. */
  ghost predicate RefusedKey(v: Value)
  {
    v.Nil? || NotANumber(v)
  }

  /** A float that has the value of a 64-bit integer. */
  ghost predicate FloatOf(v: Value, i: int)
  {
    v.Double? && |v.bits| == 8 && MIN_INTEGER <= i <= MAX_INTEGER && DoubleIs(v.bits, i)
  }

  /** The key under which a value's entry stands. */
  ghost predicate StandsUnder(v: Value, key: Value)
  {
    && !RefusedKey(v)
    && ((exists i :: FloatOf(v, i) && key == Integer(i)) || ((forall i :: !FloatOf(v, i)) && key == v))
  }

  /** Exactly nil and the doubles that are no number are refused; a float of an integral value stands under that
      integer, and every other value under itself. */
  lemma KeyMeaning(v: Value, key: Value)
    ensures KeyOf(v) == NotAKey <==> RefusedKey(v)
    ensures KeyOf(v) == Key(key) <==> StandsUnder(v, key)
  {
    if v.Double? && |v.bits| == 8 {
      FloatKeyCases(v.bits);
      if KeyOf(v).Key? && KeyOf(v).value.Integer? { FloatKeyMeaning(v.bits, KeyOf(v).value.i); }
      forall i ensures FloatOf(v, i) <==> KeyOf(v) == Key(Integer(i)) {
        FloatKeyMeaning(v.bits, i);
      }
    }
  }

  lemma FloatKeyCases(bits: seq<Byte>)
    ensures FloatKey(bits).Key? ==> FloatKey(bits).value.Integer? || FloatKey(bits).value == Double(bits)
    ensures FloatKey(bits) == NotAKey <==> Exponent(bits) == 2047 && Fraction(bits) != 0
  {
  }

  /** A key as it stands in a table: no nil, no double that is no number, no float of an integral value. */
  ghost predicate IsKey(k: Value)
  {
    !RefusedKey(k) && forall i :: !FloatOf(k, i)
  }

  /** `lua_rawset` into a table; setting nil removes. */
  function RawSet(t: Entries, k: Value, v: Value): Entries
  {
    var rest := Without(t, k);
    if v.Nil? then rest else rest + [Entry(k, v)]
  }

  function Without(t: Entries, k: Value): Entries
  {
    if t == [] then []
    else if t[0].key == k then Without(t[1..], k)
    else [t[0]] + Without(t[1..], k)
  }

  /** What a table has for a key, nil if nothing. */
  function Get(t: Entries, k: Value): Value
  {
    if t == [] then Nil else if t[0].key == k then t[0].value else Get(t[1..], k)
  }

  /** After setting, the key has the value, and every other key what it had. */
  lemma {:induction false} GetAfterSet(t: Entries, k: Value, v: Value, other: Value)
    ensures Get(RawSet(t, k, v), other) == if other == k then v else Get(t, other)
  {
    GetWithout(t, k, other);
    WithoutHasNot(t, k);
    if !v.Nil? { GetBehind(Without(t, k), Entry(k, v), other); }
  }

  lemma {:induction false} GetWithout(t: Entries, k: Value, other: Value)
    ensures Get(Without(t, k), other) == if other == k then Nil else Get(t, other)
  {
    if t != [] { GetWithout(t[1..], k, other); }
  }

  lemma {:induction false} GetBehind(t: Entries, e: Entry, other: Value)
    ensures Get(t + [e], other) == if HasKey(t, other) then Get(t, other) else if e.key == other then e.value else Nil
    ensures !HasKey(t, other) ==> Get(t, other) == Nil
  {
    if t != [] {
      assert (t + [e])[1..] == t[1..] + [e];
      GetBehind(t[1..], e, other);
      assert HasKey(t, other) <==> t[0].key == other || HasKey(t[1..], other) by { KeyInFront(t, other); }
    }
  }

  lemma KeyInFront(t: Entries, k: Value)
    requires t != []
    ensures HasKey(t, k) <==> t[0].key == k || HasKey(t[1..], k)
  {
    if HasKey(t[1..], k) {
      var i :| 0 <= i < |t[1..]| && t[1..][i].key == k;
      assert t[i + 1].key == k;
    }
    if HasKey(t, k) && t[0].key != k {
      var i :| 0 <= i < |t| && t[i].key == k;
      assert t[1..][i - 1].key == k;
    }
  }

  lemma {:induction false} WithoutHasNot(t: Entries, k: Value)
    ensures !HasKey(Without(t, k), k)
  {
    if t != [] {
      WithoutHasNot(t[1..], k);
      if t[0].key != k { KeyInFront([t[0]] + Without(t[1..], k), k); }
    }
  }

  ghost predicate HasKey(t: Entries, k: Value)
  {
    exists i :: 0 <= i < |t| && t[i].key == k
  }

  /** Setting a new key puts its entry behind those that are there; setting it to nil changes nothing. */
  lemma NewKeyAppends(t: Entries, k: Value, v: Value)
    requires !HasKey(t, k)
    ensures RawSet(t, k, v) == if v.Nil? then t else t + [Entry(k, v)]
  {
    NothingToRemove(t, k);
  }

  lemma {:induction false} NothingToRemove(t: Entries, k: Value)
    requires !HasKey(t, k)
    ensures Without(t, k) == t
  {
    if t != [] {
      assert t[0].key != k;
      assert forall i :: 0 <= i < |t[1..]| ==> t[1..][i] == t[i + 1];
      NothingToRemove(t[1..], k);
    }
  }

  // ---------------------------------------------------------------- heaps

  /** Bytes of a machine word, which both a pointer and `size_t` occupy. */
  type WordSize = w: nat | w == 4 || w == 8 witness 8

  /** What can be packed so that it comes back: every integer but the smallest, strings whose length
      both sides write and read in the same number of bytes, no user data. */
  ghost predicate Packable(h: Heap, w: WordSize, pointers: bool, v: Value)
  {
    match v
    case Integer(i) => MIN_INTEGER < i <= MAX_INTEGER
    case Double(bits) => |bits| == 8
    case Str(s) => |s| < 32768 || (w == 4 && |s| < 0x1_0000_0000)
    case Pointer(a) => pointers && |a| == w
    case Table(id) => id in h
    case _ => true
  }

  ghost predicate PackableEntries(h: Heap, w: WordSize, pointers: bool, t: Entries)
  {
    && (forall i :: 0 <= i < |t| ==> Packable(h, w, pointers, t[i].key) && Packable(h, w, pointers, t[i].value)
                                     && IsKey(t[i].key) && !t[i].value.Nil?)
    && (forall i, j :: 0 <= i < j < |t| ==> t[i].key != t[j].key)
  }

  ghost predicate WellFormed(h: Heap, w: WordSize, pointers: bool)
  {
    forall id :: id in h ==> PackableEntries(h, w, pointers, h[id])
  }

  /** The tables a value or a table's content refers to are all in the list. */
  ghost predicate Knows(order: seq<nat>, v: Value)
  {
    v.Table? ==> v.id in order
  }

  ghost predicate KnowsEntries(order: seq<nat>, t: Entries)
  {
    forall i :: 0 <= i < |t| ==> Knows(order, t[i].key) && Knows(order, t[i].value)
  }

  // ---------------------------------------------------------------- renaming

  /** The number of a table: its place, from one, in the order of visiting. */
  function Number(order: seq<nat>, id: nat): (n: nat)
    ensures id in order ==> 1 <= n <= |order| && order[n - 1] == id
    ensures id !in order ==> n == 0
  {
    if order == [] then 0
    else if order[|order| - 1] == id then
      var earlier := Number(order[..|order| - 1], id);
      if earlier > 0 then earlier else |order|
    else Number(order[..|order| - 1], id)
  }

  /** A number stays when more tables are visited. */
  lemma {:induction false} NumberStable(order: seq<nat>, more: seq<nat>, id: nat)
    requires id in order
    ensures Number(order + more, id) == Number(order, id)
  {
    if more == [] {
      assert order + more == order;
    } else {
      var longer := order + more;
      NumberStable(order, more[..|more| - 1], id);
      assert longer[..|longer| - 1] == order + more[..|more| - 1];
    }
  }

  ghost function Rename(order: seq<nat>, v: Value): Value
  {
    if v.Table? then Table(Number(order, v.id)) else v
  }

  ghost function RenameEntries(order: seq<nat>, t: Entries): (r: Entries)
    ensures |r| == |t|
    ensures forall i :: 0 <= i < |t| ==> r[i] == Entry(Rename(order, t[i].key), Rename(order, t[i].value))
  {
    seq(|t|, i requires 0 <= i < |t| => Entry(Rename(order, t[i].key), Rename(order, t[i].value)))
  }

  /** Different values stay different. */
  lemma RenameInjective(order: seq<nat>, a: Value, b: Value)
    requires Knows(order, a) && Knows(order, b)
    ensures Rename(order, a) == Rename(order, b) <==> a == b
  {
  }

  lemma RenameStable(order: seq<nat>, more: seq<nat>, v: Value)
    requires Knows(order, v)
    ensures Rename(order + more, v) == Rename(order, v)
  {
    if v.Table? { NumberStable(order, more, v.id); }
  }
}
