/** What engine/lualib/serialize.c unpacks, as a function of the bytes. */
module Unpack {
  import opened Framing
  import opened LuaValue
  import opened Pack

  const NONE: Byte := 0

  const ERR_UNPACK: int := -250
  const ERR_STRING8_SIZE: int := -249
  const ERR_STRING8_DATA: int := -248
  const ERR_STRING16_SIZE: int := -247
  const ERR_STRING16_DATA: int := -246
  const ERR_STRING32_SIZE: int := -245
  const ERR_STRING32_DATA: int := -244
  const ERR_DOUBLE: int := -243
  const ERR_INT8: int := -242
  const ERR_INT16: int := -241
  const ERR_INT32: int := -240
  const ERR_INT64: int := -239
  const ERR_TABLE_KEY: int := -238
  const ERR_TABLE_VALUE: int := -237
  const ERR_REF_INDEX: int := -236
  const ERR_REF_TABLE: int := -235
  const ERR_OP_TYPE: int := -234
  const ERR_LIGHT_USER_DATA: int := -232

  /** The tables made so far; table number `n` is at `n - 1`. */
  type Tables = seq<Entries>

  /** What unpacking one object does: it yields a tag with at most one value and moves on, stops with an
      error code, raises a Lua error, or meets user data, which depends on the host. */
  datatype Outcome = Got(tag: Byte, values: seq<Value>, pos: nat, tables: Tables)
                   | Failed(error: int)
                   | Raised
                   | Foreign

  /** An object makes progress; only the end of the bytes and the end of a table yield no value. */
  ghost predicate Sound(o: Outcome, pos: nat, size: nat, tables: Tables)
  {
    && (o.Failed? ==> o.error < 0)
    && (o.Got? ==>
      && pos <= o.pos <= size && |tables| <= |o.tables|
      && (o.tag == NONE ==> o.pos == pos == size) && (o.tag != NONE ==> pos < o.pos)
      && |o.values| == (if o.tag == NONE || o.tag == TABLE_END then 0 else 1))
  }

  /** The integer whose two's complement bytes these are. */
  function SignedValue(s: seq<Byte>): int
  {
    if 2 * FromBytes(s) < Pow256(|s|) then FromBytes(s) else FromBytes(s) - Pow256(|s|)
  }

  /** A value that takes `n` bytes. */
  function UnpackFixed(data: seq<Byte>, pos: nat, tables: Tables, tag: Byte, n: nat, error: int,
                       value: seq<Byte> -> Value): (o: Outcome)
    requires tag != NONE && tag != TABLE_END && error < 0
    ensures o.Got? ==> pos + n <= |data| && o.pos == pos + n && o.tag == tag && |o.values| == 1 && o.tables == tables
    ensures o.Got? || (o.Failed? && o.error < 0)
  {
    if |data| < pos + n then Failed(error) else Got(tag, [value(data[pos..pos + n])], pos + n, tables)
  }

  /** A string whose length takes `n` bytes. */
  function UnpackString(data: seq<Byte>, pos: nat, tables: Tables, tag: Byte, n: nat, noSize: int,
                        noData: int): (o: Outcome)
    requires tag != NONE && tag != TABLE_END && noSize < 0 && noData < 0
    ensures o.Got? ==> pos + n <= o.pos <= |data| && o.tag == tag && |o.values| == 1 && o.tables == tables
    ensures o.Got? || (o.Failed? && o.error < 0)
  {
    if |data| < pos + n then Failed(noSize)
    else StringOf(data, pos + n, FromBytes(data[pos..pos + n]), tables, tag, noData)
  }

  function StringOf(data: seq<Byte>, pos: nat, size: nat, tables: Tables, tag: Byte, noData: int): Outcome
  {
    if |data| < pos + size then Failed(noData) else Got(tag, [Str(data[pos..pos + size])], pos + size, tables)
  }

  /** `unpack_table_ref` */
  function UnpackRef(data: seq<Byte>, pos: nat, tables: Tables): (o: Outcome)
    ensures o.Got? ==>
              pos + 4 <= |data| && o.pos == pos + 4 && o.tag == TABLE_REF && |o.values| == 1 && o.tables == tables
    ensures o.Got? || (o.Failed? && o.error < 0)
  {
    if |data| < pos + 4 then Failed(ERR_REF_INDEX)
    else
      var index := SignedValue(data[pos..pos + 4]);
      if 1 <= index <= |tables| then Got(TABLE_REF, [Table(index)], pos + 4, tables) else Failed(ERR_REF_TABLE)
  }

  /** The cases of `unpack_obj` that have no content of their own; `pos` is behind the tag. */
  function UnpackScalar(w: WordSize, data: seq<Byte>, pos: nat, tables: Tables, tag: Byte): (o: Outcome)
    requires 0 < pos <= |data| && tag != TABLE_BEGIN
    ensures o.Got? ==> pos <= o.pos <= |data| && o.tables == tables && o.tag == tag && tag != NONE
    ensures o.Got? ==> |o.values| == if tag == TABLE_END then 0 else 1
    ensures !o.Raised? && (o.Failed? ==> o.error < 0)
  {
    if tag == NIL then Got(tag, [Nil], pos, tables)
    else if tag == INT8 then UnpackFixed(data, pos, tables, tag, 1, ERR_INT8, s => Integer(SignedValue(s)))
    else if tag == INT16 then UnpackFixed(data, pos, tables, tag, 2, ERR_INT16, s => Integer(SignedValue(s)))
    else if tag == INT32 then UnpackFixed(data, pos, tables, tag, 4, ERR_INT32, s => Integer(SignedValue(s)))
    else if tag == INT64 then UnpackFixed(data, pos, tables, tag, 8, ERR_INT64, s => Integer(SignedValue(s)))
    else if tag == DOUBLE then UnpackFixed(data, pos, tables, tag, 8, ERR_DOUBLE, s => Double(s))
    else if tag == STRING8 then UnpackString(data, pos, tables, tag, 1, ERR_STRING8_SIZE, ERR_STRING8_DATA)
    else if tag == STRING16 then UnpackString(data, pos, tables, tag, 2, ERR_STRING16_SIZE, ERR_STRING16_DATA)
    else if tag == STRING32 then UnpackString(data, pos, tables, tag, 4, ERR_STRING32_SIZE, ERR_STRING32_DATA)
    else if tag == FALSE then Got(tag, [Bool(false)], pos, tables)
    else if tag == TRUE then Got(tag, [Bool(true)], pos, tables)
    else if tag == TABLE_REF then UnpackRef(data, pos, tables)
    else if tag == TABLE_END then Got(tag, [], pos, tables)
    else if tag == USER_DATA then Foreign
    else if tag == LIGHT_USER_DATA then UnpackFixed(data, pos, tables, tag, w, ERR_LIGHT_USER_DATA, s => Pointer(s))
    else Failed(ERR_OP_TYPE)
  }

  /** `unpack_obj` */
  function UnpackObject(w: WordSize, data: seq<Byte>, pos: nat, tables: Tables): (o: Outcome)
    requires pos <= |data|
    ensures Sound(o, pos, |data|, tables)
    decreases |data| - pos, 0
  {
    if pos == |data| then Got(NONE, [], pos, tables)
    else if data[pos] == TABLE_BEGIN then UnpackEntries(w, data, pos + 1, tables + [[]], |tables| + 1)
    else UnpackScalar(w, data, pos + 1, tables, data[pos])
  }

  /** The loop of `unpack_table` for the table with number `n`. */
  function UnpackEntries(w: WordSize, data: seq<Byte>, pos: nat, tables: Tables, n: nat): (o: Outcome)
    requires pos <= |data| && 1 <= n <= |tables|
    ensures o.Got? ==> pos < o.pos <= |data| && |tables| <= |o.tables| && o.tag == TABLE_BEGIN && o.values == [Table(n)]
    ensures o.Failed? ==> o.error < 0
    decreases |data| - pos, 1
  {
    var k := UnpackObject(w, data, pos, tables);
    if !k.Got? then k
    else if k.tag == TABLE_END then Got(TABLE_BEGIN, [Table(n)], k.pos, k.tables)
    else if k.tag == NONE then Failed(ERR_TABLE_KEY)
    else
      var v := UnpackObject(w, data, k.pos, k.tables);
      if !v.Got? then v
      else if v.tag == NONE || v.tag == TABLE_END then Failed(ERR_TABLE_VALUE)
      else
        match KeyOf(k.values[0])
        case NotAKey => Raised
        case Key(key) => UnpackEntries(w, data, v.pos, v.tables[n - 1 := RawSet(v.tables[n - 1], key, v.values[0])], n)
  }

  /** The loop of `deserialize_unpack`, with the values produced so far. */
  function UnpackArgs(w: WordSize, data: seq<Byte>, pos: nat, tables: Tables, values: seq<Value>,
                      resCount: int): (o: Outcome)
    requires pos <= |data|
    ensures o.Got? ==> pos <= o.pos <= |data| && values <= o.values
    ensures o.Failed? ==> o.error < 0
    decreases |data| - pos
  {
    if pos == |data| then Got(NONE, values, pos, tables)
    else
      var next := UnpackObject(w, data, pos, tables);
      if !next.Got? then next
      else if next.tag == NONE || next.tag == TABLE_END then Failed(ERR_UNPACK)
      else if resCount > 0 && |values| + 1 >= resCount then Got(NONE, values + next.values, next.pos, next.tables)
      else UnpackArgs(w, data, next.pos, next.tables, values + next.values, resCount)
  }
}
