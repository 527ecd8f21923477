/** What any bytes mean to the unpacker of engine/lualib/serialize.c: an object without a content as a relation
    between values and bytes, and a content as a run over its entries. */
module WireFormat {
  import opened Framing
  import opened LuaValue
  import opened Pack
  import opened Unpack
  import opened RoundTrip

  // ---------------------------------------------------------------- objects

  /** The integer in `n` bytes of two's complement. */
  ghost predicate IntegerIn(body: seq<Byte>, n: nat, i: int)
  {
    -(Pow256(n) as int) <= 2 * i < Pow256(n) && body == IntegerBytes(i, n)
  }

  /** The string behind its length in `n` bytes. */
  ghost predicate StringIn(body: seq<Byte>, n: nat, s: seq<Byte>)
  {
    |s| < Pow256(n) && body == LowBytes(|s|, n) + s
  }

  /** The bytes behind a tag are this value; a reference leads to one of the tables made so far. */
  ghost predicate Means(w: WordSize, made: nat, tag: Byte, body: seq<Byte>, v: Value)
  {
    match v
    case Nil => tag == NIL && body == []
    case Bool(b) => tag == (if b then TRUE else FALSE) && body == []
    case Integer(i) =>
      || (tag == INT8 && IntegerIn(body, 1, i)) || (tag == INT16 && IntegerIn(body, 2, i))
      || (tag == INT32 && IntegerIn(body, 4, i)) || (tag == INT64 && IntegerIn(body, 8, i))
    case Double(bits) => tag == DOUBLE && |bits| == 8 && body == bits
    case Str(s) =>
      || (tag == STRING8 && StringIn(body, 1, s)) || (tag == STRING16 && StringIn(body, 2, s))
      || (tag == STRING32 && StringIn(body, 4, s))
    case Pointer(a) => tag == LIGHT_USER_DATA && |a| == w && body == a
    case Table(id) => tag == TABLE_REF && 1 <= id <= made && id <= INT_MAX && body == LowBytes(id, 4)
  }

  /** The bytes from a position to another are a tag and this value. */
  ghost predicate Spells(w: WordSize, made: nat, data: seq<Byte>, pos: nat, end: nat, v: Value)
  {
    pos < end <= |data| && Means(w, made, data[pos], data[pos + 1..end], v)
  }

  lemma SignedMeaning(s: seq<Byte>, i: int)
    ensures SignedValue(s) == i <==> IntegerIn(s, |s|, i)
  {
    var n, m := |s|, Pow256(|s|);
    BytesBelow(s);
    if SignedValue(s) == i {
      WrapAround(i, m);
      BytesOfValue(s);
    }
    if IntegerIn(s, n, i) { IntegerBack(i, n); }
  }

  lemma StringMeaning(data: seq<Byte>, at: nat, n: nat, end: nat, s: seq<Byte>)
    requires at + n <= |data|
    ensures var size := FromBytes(data[at..at + n]);
            at + n + size == end <= |data| && s == data[at + n..end]
            <==> at <= end <= |data| && StringIn(data[at..end], n, s)
  {
    var head := data[at..at + n];
    BytesBelow(head);
    BytesOfValue(head);
    if at + n + FromBytes(head) == end <= |data| && s == data[at + n..end] {
      assert data[at..end] == head + s;
    }
    if at <= end <= |data| && StringIn(data[at..end], n, s) {
      LowBytesValue(|s|, n);
      FrontIs(data, at, n, end, LowBytes(|s|, n), s);
    }
  }

  lemma FrontIs(data: seq<Byte>, at: nat, n: nat, end: nat, a: seq<Byte>, b: seq<Byte>)
    requires at <= end <= |data| && data[at..end] == a + b && |a| == n
    ensures at + n <= end && data[at..at + n] == a && data[at + n..end] == b
  {
    assert |a + b| == end - at;
    assert data[at..end][..n] == (a + b)[..n] == a;
    assert data[at..end][n..] == (a + b)[n..] == b;
  }

  lemma RefMeaning(s: seq<Byte>, made: nat, id: nat)
    requires |s| == 4
    ensures 1 <= SignedValue(s) <= made && SignedValue(s) == id
            <==> 1 <= id <= made && id <= INT_MAX && s == LowBytes(id, 4)
  {
    PowValues();
    BytesBelow(s);
    BytesOfValue(s);
    if id <= INT_MAX { LowBytesValue(id, 4); }
  }

  /** An object other than a new table is read as a value exactly when the bytes spell that value; the packed forms
      that the packer does not choose are read all the same. */
  lemma ObjectMeaning(w: WordSize, data: seq<Byte>, pos: nat, tables: Tables, v: Value, end: nat)
    requires pos < |data| && data[pos] != TABLE_BEGIN
    ensures UnpackObject(w, data, pos, tables) == Got(data[pos], [v], end, tables)
            <==> Spells(w, |tables|, data, pos, end, v)
  {
    var tag, at := data[pos], pos + 1;
    if STRING8 <= tag <= STRING32 {
      StringTag(w, data, pos, tables, v, end);
    } else if tag == TABLE_REF {
      if |data| >= at + 4 && v.Table? { RefMeaning(data[at..at + 4], |tables|, v.id); }
    } else if INT8 <= tag <= INT64 {
      var n := if tag == INT8 then 1 else if tag == INT16 then 2 else if tag == INT32 then 4 else 8;
      IntegerTag(w, data, pos, tables, v, end, n);
    } else {
      PlainTag(w, data, pos, tables, v, end);
    }
  }

  lemma StringTag(w: WordSize, data: seq<Byte>, pos: nat, tables: Tables, v: Value, end: nat)
    requires pos < |data| && STRING8 <= data[pos] <= STRING32
    ensures UnpackObject(w, data, pos, tables) == Got(data[pos], [v], end, tables)
            <==> Spells(w, |tables|, data, pos, end, v)
  {
    if v.Str? {
      StringRead(data, pos + 1, tables, STRING8, 1, ERR_STRING8_SIZE, ERR_STRING8_DATA, v.s, end);
      StringRead(data, pos + 1, tables, STRING16, 2, ERR_STRING16_SIZE, ERR_STRING16_DATA, v.s, end);
      StringRead(data, pos + 1, tables, STRING32, 4, ERR_STRING32_SIZE, ERR_STRING32_DATA, v.s, end);
    }
  }

  lemma StringRead(data: seq<Byte>, at: nat, tables: Tables, tag: Byte, n: nat, noSize: int, noData: int, s: seq<Byte>,
                   end: nat)
    requires tag != NONE && tag != TABLE_END && noSize < 0 && noData < 0
    ensures UnpackString(data, at, tables, tag, n, noSize, noData) == Got(tag, [Str(s)], end, tables)
            <==> at <= end <= |data| && StringIn(data[at..end], n, s)
  {
    if |data| >= at + n { StringMeaning(data, at, n, end, s); }
  }

  lemma IntegerTag(w: WordSize, data: seq<Byte>, pos: nat, tables: Tables, v: Value, end: nat, n: nat)
    requires pos < |data|
    requires (data[pos] == INT8 && n == 1) || (data[pos] == INT16 && n == 2) || (data[pos] == INT32 && n == 4)
             || (data[pos] == INT64 && n == 8)
    ensures UnpackObject(w, data, pos, tables) == Got(data[pos], [v], end, tables)
            <==> Spells(w, |tables|, data, pos, end, v)
  {
    if v.Integer? && |data| >= pos + 1 + n { SignedMeaning(data[pos + 1..pos + 1 + n], v.i); }
  }

  lemma PlainTag(w: WordSize, data: seq<Byte>, pos: nat, tables: Tables, v: Value, end: nat)
    requires pos < |data| && (data[pos] < INT8 || data[pos] == DOUBLE || data[pos] > STRING32)
    requires data[pos] != TABLE_BEGIN && data[pos] != TABLE_REF
    ensures UnpackObject(w, data, pos, tables) == Got(data[pos], [v], end, tables)
            <==> Spells(w, |tables|, data, pos, end, v)
  {
  }

  /** Any other object ends a table, is user data, or is an error: none of the three spells a value. */
  lemma NoMeaning(w: WordSize, data: seq<Byte>, pos: nat, tables: Tables)
    requires pos < |data| && data[pos] != TABLE_BEGIN
    ensures var o := UnpackObject(w, data, pos, tables);
            && (o == Got(TABLE_END, [], pos + 1, tables) <==> data[pos] == TABLE_END)
            && (o == Foreign <==> data[pos] == USER_DATA)
            && (o.Failed? <==> data[pos] != TABLE_END && data[pos] != USER_DATA
                               && forall v, end :: !Spells(w, |tables|, data, pos, end, v))
  {
    var o := UnpackObject(w, data, pos, tables);
    if o.Got? && data[pos] != TABLE_END { ObjectMeaning(w, data, pos, tables, o.values[0], o.pos); }
    forall v, end | Spells(w, |tables|, data, pos, end, v) ensures o.Got? {
      ObjectMeaning(w, data, pos, tables, v, end);
    }
  }

  // ---------------------------------------------------------------- contents

  /** Where the loop over a content is, with the tables made so far. */
  datatype Reading = Reading(pos: nat, tables: Tables)

  /** A value was read. */
  ghost predicate Item(o: Outcome)
  {
    o.Got? && o.tag != NONE && o.tag != TABLE_END
  }

  /** A key and a value follow, the key is not refused, and the entry is set under what the key stands for. */
  ghost predicate EntrySet(w: WordSize, data: seq<Byte>, n: nat, a: Reading, b: Reading)
  {
    && a.pos <= |data| && 1 <= n <= |a.tables|
    && var k := UnpackObject(w, data, a.pos, a.tables);
    && k.Got? && Item(k) && Sound(k, a.pos, |data|, a.tables)
    && var v := UnpackObject(w, data, k.pos, k.tables);
    && v.Got? && Item(v) && Sound(v, k.pos, |data|, k.tables)
    && exists key :: StandsUnder(k.values[0], key)
                     && b == Reading(v.pos, v.tables[n - 1 := RawSet(v.tables[n - 1], key, v.values[0])])
  }

  /** What follows is the end tag, the end of the bytes, what stops the reading of a key or a value, or an entry with a
      refused key. */
  ghost predicate ContentStops(w: WordSize, data: seq<Byte>, n: nat, a: Reading, o: Outcome)
  {
    && a.pos <= |data|
    && var k := UnpackObject(w, data, a.pos, a.tables);
    if !k.Got? then o == k
    else if k.tag == TABLE_END then o == Got(TABLE_BEGIN, [Table(n)], k.pos, k.tables)
    else if k.tag == NONE then o == Failed(ERR_TABLE_KEY)
    else
      var v := UnpackObject(w, data, k.pos, k.tables);
      if !v.Got? then o == v
      else if !Item(v) then o == Failed(ERR_TABLE_VALUE)
      else RefusedKey(k.values[0]) && o == Raised
  }

  ghost predicate EntriesSet(w: WordSize, data: seq<Byte>, n: nat, run: seq<Reading>)
  {
    forall i :: 0 <= i < |run| - 1 ==> EntrySet(w, data, n, run[i], run[i + 1])
  }

  /** A run over the entries, and how the content ends behind it. */
  ghost predicate ReadTo(w: WordSize, data: seq<Byte>, n: nat, start: Reading, run: seq<Reading>, o: Outcome)
  {
    run != [] && run[0] == start && EntriesSet(w, data, n, run) && ContentStops(w, data, n, run[|run| - 1], o)
  }

  lemma OneEntry(w: WordSize, data: seq<Byte>, n: nat, a: Reading, b: Reading)
    requires EntrySet(w, data, n, a, b)
    ensures b.pos <= |data| && a.pos < b.pos && n <= |b.tables|
    ensures UnpackEntries(w, data, a.pos, a.tables, n) == UnpackEntries(w, data, b.pos, b.tables, n)
  {
    var k := UnpackObject(w, data, a.pos, a.tables);
    var v := UnpackObject(w, data, k.pos, k.tables);
    var key :| StandsUnder(k.values[0], key)
      && b == Reading(v.pos, v.tables[n - 1 := RawSet(v.tables[n - 1], key, v.values[0])]);
    KeyMeaning(k.values[0], key);
  }

  /** Either the content stops here, or an entry is set. */
  lemma StopOrEntry(w: WordSize, data: seq<Byte>, n: nat, a: Reading) returns (b: Reading, o: Outcome)
    requires a.pos <= |data| && 1 <= n <= |a.tables|
    ensures ContentStops(w, data, n, a, o) || EntrySet(w, data, n, a, b)
  {
    b, o := a, UnpackEntries(w, data, a.pos, a.tables, n);
    var k := UnpackObject(w, data, a.pos, a.tables);
    if k.Got? && Item(k) {
      var v := UnpackObject(w, data, k.pos, k.tables);
      if v.Got? && Item(v) {
        KeyMeaning(k.values[0], k.values[0]);
        if KeyOf(k.values[0]).Key? {
          var key := KeyOf(k.values[0]).value;
          KeyMeaning(k.values[0], key);
          b := Reading(v.pos, v.tables[n - 1 := RawSet(v.tables[n - 1], key, v.values[0])]);
        }
      }
    }
  }

  lemma StopTells(w: WordSize, data: seq<Byte>, n: nat, a: Reading, o: Outcome)
    requires ContentStops(w, data, n, a, o) && 1 <= n <= |a.tables|
    ensures UnpackEntries(w, data, a.pos, a.tables, n) == o
  {
    var k := UnpackObject(w, data, a.pos, a.tables);
    if k.Got? && Item(k) { KeyMeaning(k.values[0], k.values[0]); }
  }

  /** There is a run to where the content stops. */
  lemma {:induction false} RunExists(w: WordSize, data: seq<Byte>, n: nat, a: Reading)
    returns (run: seq<Reading>, o: Outcome)
    requires a.pos <= |data| && 1 <= n <= |a.tables|
    ensures ReadTo(w, data, n, a, run, o)
    decreases |data| - a.pos
  {
    var b;
    b, o := StopOrEntry(w, data, n, a);
    run := [a];
    if !ContentStops(w, data, n, a, o) {
      OneEntry(w, data, n, a, b);
      var rest;
      rest, o := RunExists(w, data, n, b);
      run := run + rest;
    }
  }

  lemma {:induction false} RunTells(w: WordSize, data: seq<Byte>, n: nat, a: Reading, run: seq<Reading>, o: Outcome)
    requires a.pos <= |data| && 1 <= n <= |a.tables| && ReadTo(w, data, n, a, run, o)
    ensures UnpackEntries(w, data, a.pos, a.tables, n) == o
    decreases |run|
  {
    if |run| == 1 {
      StopTells(w, data, n, a, o);
    } else {
      assert EntrySet(w, data, n, run[0], run[1]);
      OneEntry(w, data, n, a, run[1]);
      assert forall i :: 0 <= i < |run[1..]| ==> run[1..][i] == run[i + 1];
      RunTells(w, data, n, run[1], run[1..], o);
    }
  }

  /** A content is read as this outcome exactly when its entries lead to where it stops so; every entry on the way
      has been set under what its key stands for. */
  lemma ContentExactly(w: WordSize, data: seq<Byte>, pos: nat, tables: Tables, n: nat, o: Outcome)
    requires pos <= |data| && 1 <= n <= |tables|
    ensures UnpackEntries(w, data, pos, tables, n) == o
            <==> exists run :: ReadTo(w, data, n, Reading(pos, tables), run, o)
  {
    var a := Reading(pos, tables);
    var run, stop := RunExists(w, data, n, a);
    RunTells(w, data, n, a, run, stop);
    forall other | ReadTo(w, data, n, a, other, o) ensures UnpackEntries(w, data, pos, tables, n) == o {
      RunTells(w, data, n, a, other, o);
    }
  }

  /** Where reading an entry raises: in its key, in its value, or because the key that was read is refused. */
  ghost predicate RaisesAt(w: WordSize, data: seq<Byte>, a: Reading)
  {
    && a.pos <= |data|
    && var k := UnpackObject(w, data, a.pos, a.tables);
    || k == Raised
    || (k.Got? && Item(k)
        && var v := UnpackObject(w, data, k.pos, k.tables);
        v == Raised || (v.Got? && Item(v) && RefusedKey(k.values[0])))
  }

  /** An object raises a Lua error exactly when it is a new table and its entries lead to one that raises: at the
      bottom of the nesting there is always an entry that was read whole and whose key is nil or not a number. */
  lemma RaisedExactly(w: WordSize, data: seq<Byte>, pos: nat, tables: Tables)
    requires pos <= |data|
    ensures UnpackObject(w, data, pos, tables) == Raised
            <==> pos < |data| && data[pos] == TABLE_BEGIN
                 && exists run :: && run != [] && run[0] == Reading(pos + 1, tables + [[]])
                                  && EntriesSet(w, data, |tables| + 1, run) && RaisesAt(w, data, run[|run| - 1])
  {
    if pos < |data| && data[pos] == TABLE_BEGIN {
      var n, start := |tables| + 1, Reading(pos + 1, tables + [[]]);
      ContentExactly(w, data, pos + 1, tables + [[]], n, Raised);
      forall run | run != [] && run[0] == start && EntriesSet(w, data, n, run)
        ensures RaisesAt(w, data, run[|run| - 1]) <==> ReadTo(w, data, n, start, run, Raised)
      {
      }
    }
  }
}
