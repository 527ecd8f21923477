/** The unpacker of engine/lualib/serialize.c: a position in the bytes, the Lua stack, and the table of
    tables made so far. */
module Unpacker {
  import opened Framing
  import opened LuaValue
  import opened Pack
  import opened Unpack

  /** How a call of `unpack_obj` ends: it returns the tag, or a Lua error or user data ends the whole
      run. */
  datatype Signal = Returned(tag: Byte) | LuaError | HostData

  /** What the call did is what the outcome says. */
  ghost predicate Matches(o: Outcome, s: Signal, error: int, before: seq<Value>, stack: seq<Value>, pos: nat,
                          tables: Tables)
  {
    match o
    case Got(tag, values, p, t) => s == Returned(tag) && error == 0 && stack == before + values && pos == p
      && tables == t
    case Failed(e) => s.Returned? && error == e
    case Raised => s == LuaError
    case Foreign => s == HostData
  }

  class DeserializeData {
    const w: WordSize
    const data: seq<Byte>
    var pos: nat
    var error: int
    var stack: seq<Value>
    var tables: Tables

    constructor (w: WordSize, data: seq<Byte>)
      ensures this.w == w && this.data == data && pos == 0 && error == 0 && stack == [] && tables == []
    {
      this.w := w;
      this.data := data;
      pos, error, stack, tables := 0, 0, [], [];
    }

    /** The check for `n` more bytes, and taking them. */
    method Take(n: nat, code: int) returns (ok: bool, bytes: seq<Byte>)
      requires code < 0 && pos <= |data|
      modifies this`pos, this`error
      ensures ok <==> old(pos) + n <= |data|
      ensures ok ==> bytes == data[old(pos)..old(pos) + n] && pos == old(pos) + n && error == old(error)
      ensures !ok ==> error == code && pos == old(pos)
      ensures pos <= |data|
    {
      if |data| < pos + n {
        error := code;
        return false, [];
      }
      ok, bytes := true, data[pos..pos + n];
      pos := pos + n;
    }

    /** `unpack_integer8` to `unpack_integer64` */
    method UnpackInteger(tag: Byte, n: nat, code: int)
      requires code < 0 && error == 0 && pos <= |data| && tag != NONE && tag != TABLE_END
      modifies this`pos, this`error, this`stack
      ensures pos <= |data|
      ensures Matches(UnpackFixed(data, old(pos), tables, tag, n, code, s => Integer(SignedValue(s))),
                      Returned(tag), error, old(stack), stack, pos, tables)
    {
      var ok, bytes := Take(n, code);
      if ok { stack := stack + [Integer(SignedValue(bytes))]; }
    }

    method UnpackDouble()
      requires error == 0 && pos <= |data|
      modifies this`pos, this`error, this`stack
      ensures pos <= |data|
      ensures Matches(UnpackFixed(data, old(pos), tables, DOUBLE, 8, ERR_DOUBLE, s => Double(s)),
                      Returned(DOUBLE), error, old(stack), stack, pos, tables)
    {
      var ok, bytes := Take(8, ERR_DOUBLE);
      if ok { stack := stack + [Double(bytes)]; }
    }

    method UnpackPointer()
      requires error == 0 && pos <= |data|
      modifies this`pos, this`error, this`stack
      ensures pos <= |data|
      ensures Matches(UnpackFixed(data, old(pos), tables, LIGHT_USER_DATA, w, ERR_LIGHT_USER_DATA, s => Pointer(s)),
                      Returned(LIGHT_USER_DATA), error, old(stack), stack, pos, tables)
    {
      var ok, bytes := Take(w, ERR_LIGHT_USER_DATA);
      if ok { stack := stack + [Pointer(bytes)]; }
    }

    /** `unpack_string8` to `unpack_string32` */
    method UnpackStr(tag: Byte, n: nat, noSize: int, noData: int)
      requires noSize < 0 && noData < 0 && error == 0 && pos <= |data| && tag != NONE && tag != TABLE_END
      modifies this`pos, this`error, this`stack
      ensures pos <= |data|
      ensures Matches(UnpackString(data, old(pos), tables, tag, n, noSize, noData),
                      Returned(tag), error, old(stack), stack, pos, tables)
    {
      var ok, bytes := Take(n, noSize);
      if !ok { return; }
      ok, bytes := Take(FromBytes(bytes), noData);
      if ok { stack := stack + [Str(bytes)]; }
    }

    /** `unpack_table_ref` */
    method UnpackTableRef()
      requires error == 0 && pos <= |data|
      modifies this`pos, this`error, this`stack
      ensures pos <= |data|
      ensures Matches(UnpackRef(data, old(pos), tables), Returned(TABLE_REF), error, old(stack), stack, pos, tables)
    {
      var ok, bytes := Take(4, ERR_REF_INDEX);
      if !ok { return; }
      var index := SignedValue(bytes);
      if 1 <= index <= |tables| {
        stack := stack + [Table(index)];
      } else {
        stack := stack + [Nil];
        error := ERR_REF_TABLE;
      }
    }

    /** `unpack_obj` */
    method UnpackObj() returns (s: Signal)
      requires pos <= |data| && error == 0
      modifies this
      ensures pos <= |data|
      ensures Matches(UnpackObject(w, data, old(pos), old(tables)), s, error, old(stack), stack, pos, tables)
      decreases |data| - pos, 0
    {
      if pos >= |data| { return Returned(NONE); }
      var tag := data[pos];
      pos := pos + 1;
      if tag == TABLE_BEGIN {
        s := UnpackTable();
      } else {
        s := UnpackPlain(tag);
      }
    }

    /** Its cases without a content. */
    method UnpackPlain(tag: Byte) returns (s: Signal)
      requires 0 < pos <= |data| && error == 0 && tag != TABLE_BEGIN
      modifies this`pos, this`error, this`stack
      ensures pos <= |data|
      ensures Matches(UnpackScalar(w, data, old(pos), tables, tag), s, error, old(stack), stack, pos, tables)
    {
      s := Returned(tag);
      if tag == NIL {
        stack := stack + [Nil];
      } else if tag == INT8 {
        UnpackInteger(tag, 1, ERR_INT8);
      } else if tag == INT16 {
        UnpackInteger(tag, 2, ERR_INT16);
      } else if tag == INT32 {
        UnpackInteger(tag, 4, ERR_INT32);
      } else if tag == INT64 {
        UnpackInteger(tag, 8, ERR_INT64);
      } else if tag == DOUBLE {
        UnpackDouble();
      } else if tag == STRING8 {
        UnpackStr(tag, 1, ERR_STRING8_SIZE, ERR_STRING8_DATA);
      } else if tag == STRING16 {
        UnpackStr(tag, 2, ERR_STRING16_SIZE, ERR_STRING16_DATA);
      } else if tag == STRING32 {
        UnpackStr(tag, 4, ERR_STRING32_SIZE, ERR_STRING32_DATA);
      } else if tag == FALSE {
        stack := stack + [Bool(false)];
      } else if tag == TRUE {
        stack := stack + [Bool(true)];
      } else if tag == TABLE_REF {
        UnpackTableRef();
      } else if tag == TABLE_END {
        assert stack + [] == stack;
      } else if tag == USER_DATA {
        s := HostData;
      } else if tag == LIGHT_USER_DATA {
        UnpackPointer();
      } else {
        error := ERR_OP_TYPE;
      }
    }

    /** `unpack_table`: keys and values are read to the end tag and set one after the other. */
    method UnpackTable() returns (s: Signal)
      requires pos <= |data| && error == 0
      modifies this
      ensures pos <= |data|
      ensures Matches(UnpackEntries(w, data, old(pos), old(tables) + [[]], |old(tables)| + 1),
                      s, error, old(stack), stack, pos, tables)
      decreases |data| - pos, 2
    {
      var n := |tables| + 1;
      stack := stack + [Table(n)];
      tables := tables + [[]];
      ghost var target := UnpackEntries(w, data, pos, tables, n);
      ghost var base := stack;
      ghost var at, made := pos, tables;
      s := UnpackObj();
      while s.Returned? && error == 0 && s.tag != TABLE_END
        invariant at <= |data| && 1 <= n <= |made| && target == UnpackEntries(w, data, at, made, n)
        invariant Matches(UnpackObject(w, data, at, made), s, error, base, stack, pos, tables)
        invariant old(pos) <= at && pos <= |data|
        decreases |data| - at
      {
        var more;
        more, s := SetEntry(s.tag, n, at, made, base);
        if !more { return; }
        at, made := pos, tables;
        s := UnpackObj();
      }
      if s.Returned? { s := Returned(TABLE_BEGIN); }
    }

    /** One round of its loop, after the key: the value is read, and both are taken off the stack. */
    method SetEntry(keyTag: Byte, n: nat, ghost at: nat, ghost made: Tables, ghost base: seq<Value>)
      returns (more: bool, s: Signal)
      requires at <= pos <= |data| && error == 0 && 1 <= n <= |made| && keyTag != TABLE_END
      requires Matches(UnpackObject(w, data, at, made), Returned(keyTag), error, base, stack, pos, tables)
      modifies this
      ensures pos <= |data|
      ensures var target := UnpackEntries(w, data, at, made, n);
              if more then
                && error == 0 && stack == base && at < pos && n <= |tables|
                && target == UnpackEntries(w, data, pos, tables, n)
              else !target.Got? && Matches(target, s, error, base, stack, pos, tables)
      decreases |data| - pos, 1
    {
      more, s := false, Returned(TABLE_BEGIN);
      if keyTag == NONE {
        error := ERR_TABLE_KEY;
        return;
      }
      var value := UnpackObj();
      if !value.Returned? { return false, value; }
      if error != 0 { return; }
      if value.tag == NONE || value.tag == TABLE_END {
        error := ERR_TABLE_VALUE;
        return;
      }
      var k, v := stack[|stack| - 2], stack[|stack| - 1];
      match KeyOf(k)
      case NotAKey => return false, LuaError;
      case Key(normal) =>
        tables := tables[n - 1 := RawSet(tables[n - 1], normal, v)];
        stack := stack[..|stack| - 2];
        more := true;
    }

    /** `deserialize_unpack`: answers how many values were produced and left on the stack, 0 after an
        error. */
    method Deserialize(resCount: int) returns (count: int, s: Signal)
      requires pos == 0 && error == 0 && stack == [] && tables == []
      modifies this
      ensures pos <= |data|
      ensures var o := UnpackArgs(w, data, 0, [], [], resCount);
              match o
              case Got(_, values, p, t) => s.Returned? && error == 0 && count == |values| && stack == values
                && pos == p && tables == t
              case Failed(e) => s.Returned? && error == e && count == 0
              case Raised => s == LuaError
              case Foreign => s == HostData
    {
      count, s := 0, Returned(NONE);
      ghost var target := UnpackArgs(w, data, pos, tables, stack, resCount);
      while pos < |data|
        invariant pos <= |data| && error == 0 && count == |stack| && s.Returned?
        invariant target == UnpackArgs(w, data, pos, tables, stack, resCount)
        decreases |data| - pos
      {
        s := UnpackObj();
        if !s.Returned? { return 0, s; }
        if error != 0 { return 0, s; }
        if s.tag == NONE || s.tag == TABLE_END {
          error := ERR_UNPACK;
          return 0, s;
        }
        count := count + 1;
        if resCount > 0 && count >= resCount { return; }
      }
    }
  }
}
