/** Unpacking what was packed gives the same values and an isomorphic heap
    (engine/lualib/serialize.c). */
module RoundTrip {
  import opened Framing
  import opened LuaValue
  import opened Pack
  import opened Unpack
  import opened Arith

  /** The bytes lie at the position. */
  ghost predicate At(data: seq<Byte>, pos: nat, bytes: seq<Byte>)
  {
    pos + |bytes| <= |data| && data[pos..pos + |bytes|] == bytes
  }

  lemma AtSplit(data: seq<Byte>, pos: nat, a: seq<Byte>, b: seq<Byte>)
    requires At(data, pos, a + b)
    ensures At(data, pos, a) && At(data, pos + |a|, b)
  {
    var run := data[pos..pos + |a + b|];
    assert run[..|a|] == a && run[|a|..] == b;
  }

  lemma AtFirst(data: seq<Byte>, pos: nat, tag: Byte, b: seq<Byte>)
    requires At(data, pos, [tag] + b)
    ensures pos < |data| && data[pos] == tag && At(data, pos + 1, b)
  {
    AtSplit(data, pos, [tag], b);
    assert data[pos..pos + 1][0] == tag;
  }

  /** The object at a position is this value and nothing else. */
  ghost predicate Yields(o: Outcome, v: Value, pos: nat, tables: Tables)
  {
    o.Got? && o.values == [v] && o.pos == pos && o.tables == tables && o.tag != NONE && o.tag != TABLE_END
  }

  // ---------------------------------------------------------------- integers, strings and the rest

  lemma IntegerBack(i: int, n: nat)
    requires 0 <= 2 * i + Pow256(n) < 2 * Pow256(n)
    ensures SignedValue(IntegerBytes(i, n)) == i
  {
    var m := Pow256(n);
    PowPositive(n);
    WrapAround(i, m);
    LowBytesValue(i % m, n);
  }

  lemma WrapAround(i: int, m: nat)
    requires m > 0 && -(m as int) <= i < m
    ensures i % m == if i >= 0 then i else i + m
  {
    if i >= 0 { DivUnique(i, m, 0, i); } else { DivUnique(i + m, m, 0, i + m); ShiftedMod(i, m); }
  }

  lemma ShiftedMod(i: int, m: nat)
    requires m > 0 && -(m as int) <= i < 0
    ensures i % m == (i + m) % m
  {
    var q, r := i / m, i % m;
    assert i == m * q + r && 0 <= r < m;
    if q < -1 { MulMonotonic(m, q, -2); MulMonotonic(m, -2, -2); assert false; }
    if q >= 0 { MulMonotonic(m, 0, q); assert false; }
    DivUnique(i + m, m, 0, r);
  }

  lemma EightBytes()
    ensures Pow256(8) == 0x1_0000_0000_0000_0000
  {
    PowValues();
    assert Pow256(5) == 256 * Pow256(4);
    assert Pow256(6) == 256 * Pow256(5);
    assert Pow256(7) == 256 * Pow256(6);
  }

  /** An integer comes back exactly when it is not the smallest, whose negation wraps to itself. */
  lemma IntegerRoundTrip(w: WordSize, i: int, data: seq<Byte>, pos: nat, tables: Tables)
    requires MIN_INTEGER <= i <= MAX_INTEGER && At(data, pos, PackInteger(i))
    ensures Yields(UnpackObject(w, data, pos, tables), Integer(i), pos + |PackInteger(i)|, tables) <==> i != MIN_INTEGER
    ensures i == MIN_INTEGER ==> Yields(UnpackObject(w, data, pos, tables), Integer(0), pos + 2, tables)
  {
    PowValues();
    EightBytes();
    if i == MIN_INTEGER {
      SmallestBack(w, data, pos, tables);
    } else {
      var n := IntegerWidth(i);
      var tag := PackInteger(i)[0];
      assert PackInteger(i) == [tag] + IntegerBytes(i, n);
      AtFirst(data, pos, tag, IntegerBytes(i, n));
      IntegerBack(i, n);
    }
  }

  ghost function IntegerWidth(i: int): nat
  {
    var magnitude := if i < 0 then -i else i;
    if magnitude < 128 then 1 else if magnitude < 32768 then 2 else if magnitude <= 2147483647 then 4 else 8
  }

  lemma SmallestBack(w: WordSize, data: seq<Byte>, pos: nat, tables: Tables)
    requires At(data, pos, PackInteger(MIN_INTEGER))
    ensures Yields(UnpackObject(w, data, pos, tables), Integer(0), pos + 2, tables)
  {
    PowValues();
    var zero := IntegerBytes(MIN_INTEGER, 1);
    assert MIN_INTEGER % 256 == 0;
    assert zero == LowBytes(0, 1);
    LowBytesValue(0, 1);
    AtFirst(data, pos, INT8, zero);
  }

  lemma StringBack(n: nat, tag: Byte, s: seq<Byte>, data: seq<Byte>, pos: nat, tables: Tables, noSize: int, noData: int)
    requires |s| < Pow256(n) && tag != NONE && tag != TABLE_END && noSize < 0 && noData < 0
    requires At(data, pos, [tag] + LowBytes(|s|, n) + s)
    ensures pos < |data| && data[pos] == tag
    ensures Yields(UnpackString(data, pos + 1, tables, tag, n, noSize, noData), Str(s), pos + 1 + n + |s|, tables)
  {
    AtThree(data, pos, tag, LowBytes(|s|, n), s);
    LowBytesValue(|s|, n);
    SizeThenData(LowBytes(|s|, n), n, |s|, s, data, pos + 1, pos + 1 + n, tables, tag, noSize, noData);
  }

  lemma AtThree(data: seq<Byte>, pos: nat, tag: Byte, a: seq<Byte>, b: seq<Byte>)
    requires At(data, pos, [tag] + a + b)
    ensures pos < |data| && data[pos] == tag && At(data, pos + 1, a) && At(data, pos + 1 + |a|, b)
  {
    assert [tag] + a + b == [tag] + (a + b);
    AtFirst(data, pos, tag, a + b);
    AtSplit(data, pos + 1, a, b);
  }

  lemma SizeThenData(size: seq<Byte>, n: nat, m: nat, s: seq<Byte>, data: seq<Byte>, pos: nat, at: nat, tables: Tables,
                     tag: Byte, noSize: int, noData: int)
    requires At(data, pos, size) && n == |size| && FromBytes(size) == m
    requires at == pos + n && At(data, at, s) && m == |s|
    requires tag != NONE && tag != TABLE_END && noSize < 0 && noData < 0
    ensures Yields(UnpackString(data, pos, tables, tag, n, noSize, noData), Str(s), at + m, tables)
  {
    SizeRead(size, n, data, pos, tables, tag, noSize, noData, m);
    StringOfBack(s, data, at, tables, tag, noData);
  }

  lemma SizeRead(size: seq<Byte>, n: nat, data: seq<Byte>, pos: nat, tables: Tables, tag: Byte, noSize: int,
                 noData: int, m: nat)
    requires At(data, pos, size) && n == |size| && FromBytes(size) == m
    requires tag != NONE && tag != TABLE_END && noSize < 0 && noData < 0
    ensures UnpackString(data, pos, tables, tag, n, noSize, noData) == StringOf(data, pos + n, m, tables, tag, noData)
  {
    var run := data[pos..pos + n];
    assert run == size;
  }

  lemma StringOfBack(s: seq<Byte>, data: seq<Byte>, pos: nat, tables: Tables, tag: Byte, noData: int)
    requires At(data, pos, s)
    ensures StringOf(data, pos, |s|, tables, tag, noData) == Got(tag, [Str(s)], pos + |s|, tables)
  {
  }

  /** A string comes back if both sides use as many bytes for its length. */
  lemma StringRoundTrip(w: WordSize, s: seq<Byte>, data: seq<Byte>, pos: nat, tables: Tables)
    requires |s| < 32768 || (w == 4 && |s| < 0x1_0000_0000)
    requires At(data, pos, PackString(w, s))
    ensures Yields(UnpackObject(w, data, pos, tables), Str(s), pos + |PackString(w, s)|, tables)
  {
    PowValues();
    if |s| < 128 {
      StringBack(1, STRING8, s, data, pos, tables, ERR_STRING8_SIZE, ERR_STRING8_DATA);
    } else if |s| < 32768 {
      StringBack(2, STRING16, s, data, pos, tables, ERR_STRING16_SIZE, ERR_STRING16_DATA);
    } else {
      StringBack(4, STRING32, s, data, pos, tables, ERR_STRING32_SIZE, ERR_STRING32_DATA);
    }
  }

  /** On a machine with 8-byte words a longer string never comes back: the reader takes the low half of its length
      for the length, and the high half for the start of the string. */
  lemma LongStringLost(s: seq<Byte>, data: seq<Byte>, pos: nat, tables: Tables)
    requires 32768 <= |s| && At(data, pos, PackString(8, s))
    ensures !Yields(UnpackObject(8, data, pos, tables), Str(s), pos + |PackString(8, s)|, tables)
    ensures var o, low, high := UnpackObject(8, data, pos, tables), |s| % 0x1_0000_0000, |s| / 0x1_0000_0000;
            && 0 <= low <= |s| && high >= 0
            && o.Got? && o.values == [Str((LowBytes(high, 4) + s)[..low])] && o.pos == pos + 5 + low
  {
    PowValues();
    var low, high := |s| % 0x1_0000_0000, |s| / 0x1_0000_0000;
    DivBounds(|s|, 0x1_0000_0000);
    HalvesOfLength(s, low, high);
    var size, tail := LowBytes(|s|, 4), LowBytes(high, 4) + s;
    AtThree(data, pos, STRING32, size, tail);
    SizeRead(size, 4, data, pos + 1, tables, STRING32, ERR_STRING32_SIZE, ERR_STRING32_DATA, low);
    FrontOfRun(data, pos + 5, tail, low);
  }

  lemma FrontOfRun(data: seq<Byte>, pos: nat, run: seq<Byte>, n: nat)
    requires At(data, pos, run) && n <= |run|
    ensures pos + n <= |data| && data[pos..pos + n] == run[..n]
  {
    assert data[pos..pos + |run|] == run;
  }

  lemma HalvesOfLength(s: seq<Byte>, low: nat, high: nat)
    requires |s| >= 32768 && low == |s| % 0x1_0000_0000 && high == |s| / 0x1_0000_0000
    ensures PackString(8, s) == [STRING32] + LowBytes(|s|, 4) + (LowBytes(high, 4) + s)
    ensures FromBytes(LowBytes(|s|, 4)) == low
  {
    PowValues();
    LowBytesSplit(|s|, 4, 4);
    LowBytesMod(|s|, 4);
    assert PackString(8, s) == [STRING32] + (LowBytes(|s|, 4) + LowBytes(high, 4)) + s;
  }

  /** The lower bytes of a number, and those above. */
  lemma {:induction false} LowBytesSplit(m: nat, n: nat, k: nat)
    ensures Pow256(n) > 0 && m / Pow256(n) >= 0
    ensures LowBytes(m, n + k) == LowBytes(m, n) + LowBytes(m / Pow256(n), k)
  {
    if n > 0 {
      LowBytesSplit(m / 256, n - 1, k);
      DivByParts(m, Pow256(n - 1));
    }
  }

  /** Any number is read back from its lower bytes but for the multiples that they cannot hold. */
  lemma {:induction false} LowBytesMod(m: nat, n: nat)
    ensures Pow256(n) > 0 && FromBytes(LowBytes(m, n)) == m % Pow256(n)
  {
    if n > 0 {
      LowBytesMod(m / 256, n - 1);
      DivByParts(m, Pow256(n - 1));
      assert LowBytes(m, n)[1..] == LowBytes(m / 256, n - 1);
    }
  }

  lemma DivByParts(m: nat, p: nat)
    requires p > 0
    ensures 256 * p > 0 && 0 <= (m / 256) / p == m / (256 * p)
    ensures 0 <= (m / 256) % p && m % (256 * p) == m % 256 + 256 * ((m / 256) % p)
  {
    var a, b := (m / 256) / p, (m / 256) % p;
    DivBounds(m / 256, p);
    ThreeFactors(256, p, a);
    DivUnique(m, 256 * p, a, 256 * b + m % 256);
  }

  /** Of the strings a word can count, exactly those come back that are shorter than 2^15, or all if words have four
      bytes. */
  lemma StringBackExactly(w: WordSize, s: seq<Byte>, data: seq<Byte>, pos: nat, tables: Tables)
    requires (w == 4 ==> |s| < 0x1_0000_0000) && At(data, pos, PackString(w, s))
    ensures Yields(UnpackObject(w, data, pos, tables), Str(s), pos + |PackString(w, s)|, tables) <==>
              |s| < 32768 || w == 4
  {
    if |s| < 32768 || w == 4 {
      StringRoundTrip(w, s, data, pos, tables);
    } else {
      LongStringLost(s, data, pos, tables);
    }
  }

  lemma ScalarBack(h: Heap, w: WordSize, pointers: bool, v: Value, data: seq<Byte>, pos: nat, tables: Tables)
    requires InRange(v) && !v.Table? && Packable(h, w, pointers, v)
    requires At(data, pos, PackScalar(w, pointers, v))
    ensures Yields(UnpackObject(w, data, pos, tables), v, pos + |PackScalar(w, pointers, v)|, tables)
  {
    match v
    case Nil => AtFirst(data, pos, NIL, []);
    case Bool(b) => AtFirst(data, pos, if b then TRUE else FALSE, []);
    case Integer(i) => IntegerRoundTrip(w, i, data, pos, tables);
    case Double(bits) => AtFirst(data, pos, DOUBLE, bits);
    case Str(s) => StringRoundTrip(w, s, data, pos, tables);
    case Pointer(a) => AtFirst(data, pos, LIGHT_USER_DATA, a);
    case Table(_) =>
  }
}
