/** The packer of engine/lualib/serialize.c: a growing buffer, the table of tables seen, and the
    recursion over the values. */
module Packer {
  import opened Framing
  import opened LuaValue
  import opened Pack

  const ERR_NONE: int := 0
  const ERR_NO_MEMORY: int := -255

  class SerializeData {
    var data: array<Byte>
    var size: nat
    const initBuff: array<Byte>
    const w: WordSize
    const pointers: bool
    var error: int
    var tableRef: nat
    var refs: map<nat, nat>

    /** How many more buffers the allocator has to give. */
    var grants: nat

    /** The tables in the order in which they were met, and how many buffers were allocated since the start. */
    ghost var order: seq<nat>
    ghost var spent: nat

    ghost predicate Valid()
      reads this
    {
      size <= data.Length && Refs(order, refs, tableRef) && (error == ERR_NONE ==> Spare())
    }

    /** The buffer is the first one, or larger than it and than all that the earlier ones had to be. */
    ghost predicate Spare()
      reads this
    {
      if spent == 0 then data == initBuff
      else data.Length > initBuff.Length && data.Length > 1024 * spent && data != initBuff
    }

    /** So many bytes fit the first buffer, or the allocator had enough buffers to give for them. */
    ghost predicate Room(n: nat)
      reads this
    {
      n <= initBuff.Length || n <= 1024 * (spent + grants)
    }

    ghost function Bytes(): seq<Byte>
      requires size <= data.Length
      reads this, data
    {
      data[..size]
    }

    /** `serialize_init` */
    constructor (w: WordSize, pointers: bool, initBuff: array<Byte>, grants: nat)
      ensures Valid() && error == ERR_NONE && Bytes() == [] && order == [] && data == initBuff == this.initBuff
      ensures this.w == w && this.pointers == pointers && this.grants == grants && spent == 0
    {
      this.w := w;
      this.pointers := pointers;
      this.initBuff := initBuff;
      data := initBuff;
      size := 0;
      error := ERR_NONE;
      tableRef := 0;
      refs := map[];
      order := [];
      this.grants := grants;
      spent := 0;
    }

    /** `check_serialize_pack`: makes room for `more` bytes behind those that are there, or gives the
        bytes up; the latter exactly when neither the buffer nor the first one is large enough and the allocator
        has none to give. */
    method CheckRoom(more: nat) returns (ok: bool)
      requires size <= data.Length
      modifies this`data, this`size, this`grants, this`spent, initBuff
      ensures size <= data.Length && (ok ==> size + more <= data.Length && Bytes() == old(Bytes()))
      ensures grants + spent == old(grants + spent)
      ensures var n := old(size) + more;
              if n < old(data.Length) then ok && data == old(data) && spent == old(spent)
              else if n <= initBuff.Length then ok && data == initBuff && spent == old(spent)
              else if old(grants) > 0 then
                ok && fresh(data) && data.Length == n + 1024 && spent == old(spent) + 1
              else !ok && fresh(data) && size == data.Length == 0 && Bytes() == [] && spent == old(spent)
    {
      var newSize := size + more;
      if data.Length > newSize { return true; }
      if initBuff.Length >= newSize {
        if data != initBuff {
          forall k | 0 <= k < size { initBuff[k] := data[k]; }
          assert initBuff[..size] == old(data[..size]);
        }
        data := initBuff;
        return true;
      }
      if grants == 0 {
        data := new Byte[0];
        size := 0;
        return false;
      }
      grants, spent := grants - 1, spent + 1;
      var larger := new Byte[newSize + 1024];
      forall k | 0 <= k < size { larger[k] := data[k]; }
      assert larger[..size] == old(data[..size]);
      data := larger;
      ok := true;
    }

    /** An error there was stays; a new one is that the allocator has nothing to give. */
    ghost predicate Outcome(before: int, all: nat)
      reads this
    {
      && grants + spent == all
      && (before != ERR_NONE ==> error == before) && (before == ERR_NONE ==> error in {ERR_NONE, ERR_NO_MEMORY})
    }

    /** `serialize_pack_bytes` */
    method PackBytes(bytes: seq<Byte>)
      requires Valid()
      modifies this`data, this`size, this`error, this`grants, this`spent, data, initBuff
      ensures Valid() && (data == old(data) || data == initBuff || fresh(data))
      ensures Outcome(old(error), old(grants + spent))
      ensures error == ERR_NONE ==> old(error) == ERR_NONE && Bytes() == old(Bytes()) + bytes
      ensures error != ERR_NONE ==> Bytes() == if old(error) == ERR_NONE then [] else old(Bytes())
      ensures old(error) == ERR_NONE && old(Room(size + |bytes|)) ==> error == ERR_NONE
    {
      if error != ERR_NONE { return; }
      var ok := CheckRoom(|bytes|);
      if !ok {
        error := ERR_NO_MEMORY;
        return;
      }
      ghost var was := data[..size];
      forall k | 0 <= k < |bytes| { data[size + k] := bytes[k]; }
      assert data[..size] == was;
      size := size + |bytes|;
      assert data[..size] == was + bytes;
    }

    /** A tag and what follows it. */
    method PackTagged(tag: Byte, bytes: seq<Byte>)
      requires Valid()
      modifies this`data, this`size, this`error, this`grants, this`spent, data, initBuff
      ensures Valid() && (data == old(data) || data == initBuff || fresh(data))
      ensures Outcome(old(error), old(grants + spent))
      ensures error == ERR_NONE ==> old(error) == ERR_NONE && Bytes() == old(Bytes()) + ([tag] + bytes)
      ensures old(error) == ERR_NONE && old(Room(size + 1 + |bytes|)) ==> error == ERR_NONE
    {
      PackBytes([tag]);
      PackBytes(bytes);
      if error == ERR_NONE { Associate(old(Bytes()), [tag], bytes); }
    }

    /** `pack_integer` */
    method PackInteger(value: int)
      requires Valid() && MIN_INTEGER <= value <= MAX_INTEGER
      modifies this`data, this`size, this`error, this`grants, this`spent, data, initBuff
      ensures Valid() && (data == old(data) || data == initBuff || fresh(data))
      ensures Outcome(old(error), old(grants + spent))
      ensures error == ERR_NONE ==> old(error) == ERR_NONE && Bytes() == old(Bytes()) + Pack.PackInteger(value)
      ensures old(error) == ERR_NONE && old(Room(size + |Pack.PackInteger(value)|)) ==> error == ERR_NONE
    {
      var magnitude := value;
      if value < 0 { magnitude := Negated(value); }
      if magnitude < 128 {
        PackTagged(INT8, IntegerBytes(value, 1));
      } else if magnitude < 32768 {
        PackTagged(INT16, IntegerBytes(value, 2));
      } else if magnitude <= 2147483647 {
        PackTagged(INT32, IntegerBytes(value, 4));
      } else {
        PackTagged(INT64, IntegerBytes(value, 8));
      }
    }

    /** `pack_string` */
    method PackString(s: seq<Byte>)
      requires Valid()
      modifies this`data, this`size, this`error, this`grants, this`spent, data, initBuff
      ensures Valid() && (data == old(data) || data == initBuff || fresh(data))
      ensures Outcome(old(error), old(grants + spent))
      ensures error == ERR_NONE ==> old(error) == ERR_NONE && Bytes() == old(Bytes()) + Pack.PackString(w, s)
      ensures old(error) == ERR_NONE && old(Room(size + |Pack.PackString(w, s)|)) ==> error == ERR_NONE
    {
      ghost var head := [if |s| < 128 then STRING8 else if |s| < 32768 then STRING16 else STRING32]
        + LowBytes(|s|, if |s| < 128 then 1 else if |s| < 32768 then 2 else w);
      assert Pack.PackString(w, s) == head + s;
      if |s| < 128 {
        PackTagged(STRING8, LowBytes(|s|, 1));
      } else if |s| < 32768 {
        PackTagged(STRING16, LowBytes(|s|, 2));
      } else {
        PackTagged(STRING32, LowBytes(|s|, w));
      }
      assert error == ERR_NONE ==> Bytes() == old(Bytes()) + head;
      PackBytes(s);
      if error == ERR_NONE { Associate(old(Bytes()), head, s); }
    }

    /** The cases of `pack_obj` without tables. */
    method PackScalarValue(v: Value)
      requires Valid() && InRange(v) && !v.Table?
      modifies this`data, this`size, this`error, this`grants, this`spent, data, initBuff
      ensures Valid() && (data == old(data) || data == initBuff || fresh(data))
      ensures Outcome(old(error), old(grants + spent))
      ensures error == ERR_NONE ==> old(error) == ERR_NONE && Bytes() == old(Bytes()) + PackScalar(w, pointers, v)
      ensures old(error) == ERR_NONE && old(Room(size + |PackScalar(w, pointers, v)|)) ==> error == ERR_NONE
    {
      match v
      case Nil => PackBytes([NIL]);
      case Bool(b) => PackBytes([if b then TRUE else FALSE]);
      case Integer(i) => PackInteger(i);
      case Double(bits) => PackTagged(DOUBLE, bits);
      case Str(s) => PackString(s);
      case Pointer(a) =>
        if pointers { PackTagged(LIGHT_USER_DATA, a); } else { PackBytes([NIL]); }
    }

    /** `pack_obj` */
    method PackObject(h: Heap, v: Value)
      requires Valid() && Closed(h) && ClosedValue(h, v)
      modifies this, data, initBuff
      ensures Valid() && old(order) <= order && (data == old(data) || data == initBuff || fresh(data))
      ensures Outcome(old(error), old(grants + spent))
      ensures error == ERR_NONE ==>
                && old(error) == ERR_NONE
                && Bytes() == old(Bytes()) + PackValue(h, w, pointers, old(order), v).bytes
                && order == PackValue(h, w, pointers, old(order), v).order
      ensures old(error) == ERR_NONE && old(Room(size + |PackValue(h, w, pointers, order, v).bytes|)) ==>
                error == ERR_NONE
      decreases Unvisited(h, order), 2
    {
      if error != ERR_NONE { return; }
      if v.Table? {
        PackTable(h, v.id);
      } else {
        PackScalarValue(v);
      }
    }

    /** `pack_table`: a reference to a table that was met, or the next number and the content. */
    method PackTable(h: Heap, id: nat)
      requires Valid() && error == ERR_NONE && Closed(h) && id in h
      modifies this, data, initBuff
      ensures Valid() && old(order) <= order && (data == old(data) || data == initBuff || fresh(data))
      ensures Outcome(old(error), old(grants + spent))
      ensures error == ERR_NONE ==>
                && Bytes() == old(Bytes()) + PackValue(h, w, pointers, old(order), Table(id)).bytes
                && order == PackValue(h, w, pointers, old(order), Table(id)).order
      ensures old(Room(size + |PackValue(h, w, pointers, order, Table(id)).bytes|)) ==> error == ERR_NONE
      decreases Unvisited(h, order), 0
    {
      if id in refs {
        KnownTable(h, w, pointers, order, id);
        PackTagged(TABLE_REF, LowBytes(refs[id], 4));
      } else {
        NewTable(h, w, pointers, order, id);
        VisitedOne(h, order, id);
        TakeNumber(id);
        PackContent(h, h[id], PackEntries(h, w, pointers, order, h[id]));
      }
    }

    /** The next number is taken before the content is packed. */
    method TakeNumber(id: nat)
      requires Valid() && id !in refs
      modifies this`tableRef, this`refs, this`order
      ensures Valid() && order == old(order) + [id]
    {
      OneMoreRef(order, refs, tableRef, id);
      tableRef := tableRef + 1;
      refs := refs[id := tableRef];
      order := order + [id];
    }

    /** The begin tag, the loop over the content, and the end tag. */
    method PackContent(h: Heap, t: Entries, ghost content: Packed)
      requires Valid() && error == ERR_NONE && Closed(h) && ClosedEntries(h, t)
      requires content == PackEntries(h, w, pointers, order, t)
      modifies this, data, initBuff
      ensures Valid() && old(order) <= order && (data == old(data) || data == initBuff || fresh(data))
      ensures Outcome(old(error), old(grants + spent))
      ensures error == ERR_NONE ==>
                Bytes() == old(Bytes()) + ([TABLE_BEGIN] + content.bytes + [TABLE_END]) && order == content.order
      ensures old(Room(size + |content.bytes| + 2)) ==> error == ERR_NONE
      decreases Unvisited(h, order), 4
    {
      ghost var before, need := Bytes(), size + |content.bytes| + 2;
      PackBytes([TABLE_BEGIN]);
      var i := 0;
      while i < |t|
        invariant i <= |t| && Valid() && old(order) <= order && Outcome(ERR_NONE, old(grants + spent))
        invariant data == old(data) || data == initBuff || fresh(data)
        invariant Room(need) ==> error == ERR_NONE
        invariant error == ERR_NONE ==>
                    ContentSoFar(content, before, Bytes(), PackEntries(h, w, pointers, order, t[i..]))
      {
        VisitedMore(h, old(order), order);
        assert t[i..][1..] == t[i + 1..];
        PackEntry(h, t[i..], content, before, need);
        i := i + 1;
      }
      assert t[i..] == [];
      if error == ERR_NONE { ContentEnds(h, w, pointers, content, before, Bytes(), order); }
      PackBytes([TABLE_END]);
    }

    /** One round of the loop: a key and its value. */
    method PackEntry(h: Heap, t: Entries, ghost whole: Packed, ghost before: seq<Byte>, ghost need: nat)
      requires Valid() && Closed(h) && ClosedEntries(h, t) && t != []
      requires error == ERR_NONE ==> ContentSoFar(whole, before, Bytes(), PackEntries(h, w, pointers, order, t))
      requires need >= |before| + 1 + |whole.bytes|
      modifies this, data, initBuff
      ensures Valid() && old(order) <= order && (data == old(data) || data == initBuff || fresh(data))
      ensures Outcome(old(error), old(grants + spent))
      ensures ClosedEntries(h, t[1..])
      ensures error == ERR_NONE ==> ContentSoFar(whole, before, Bytes(), PackEntries(h, w, pointers, order, t[1..]))
      ensures old(error) == ERR_NONE && old(Room(need)) ==> error == ERR_NONE
      decreases Unvisited(h, order), 3
    {
      PackObject(h, t[0].key);
      VisitedMore(h, old(order), order);
      PackObject(h, t[0].value);
      if error == ERR_NONE {
        EntryPacked(h, w, pointers, old(order), t, whole, before, old(Bytes()), Bytes(), order);
      }
    }

    /** `serialize_pack`: the bytes of the whole argument list, or the memory error.  There is none if the bytes
        fit the first buffer or the allocator has a buffer for every 1024 of them, and there is one if they do not
        fit the first buffer and the allocator has none to give. */
    method Serialize(h: Heap, args: seq<Value>) returns (ret: int)
      requires Closed(h) && ClosedArgs(h, args)
      modifies this, data, initBuff
      ensures Valid() && ret == error && (data == old(data) || data == initBuff || fresh(data))
      ensures ret == ERR_NONE ==> Bytes() == PackArgs(h, w, pointers, [], args).bytes
      ensures ret == ERR_NONE ==> order == PackArgs(h, w, pointers, [], args).order
      ensures ret == ERR_NONE || ret == ERR_NO_MEMORY
      ensures var n := |PackArgs(h, w, pointers, [], args).bytes|;
              && (n <= initBuff.Length || n <= 1024 * old(grants) ==> ret == ERR_NONE)
              && (n > initBuff.Length && old(grants) == 0 ==> ret == ERR_NO_MEMORY)
    {
      Clean();
      ghost var whole := PackArgs(h, w, pointers, [], args);
      var i := 0;
      while i < |args|
        invariant i <= |args| && Valid() && (data == initBuff || fresh(data))
        invariant Outcome(ERR_NONE, old(grants)) && (Room(|whole.bytes|) ==> error == ERR_NONE)
        invariant error == ERR_NONE ==> ArgsSoFar(whole, Bytes(), PackArgs(h, w, pointers, order, args[i..]))
      {
        assert args[i..][1..] == args[i + 1..];
        ghost var was, before := Bytes(), order;
        PackObject(h, args[i]);
        if error == ERR_NONE {
          ArgPacked(h, w, pointers, before, args[i..], whole, was, Bytes(), order);
        }
        i := i + 1;
      }
      assert args[i..] == [];
      assert Bytes() + [] == Bytes();
      ret := error;
    }

    /** `serialize_clean` */
    method Clean()
      modifies this
      ensures Valid() && size == 0 && error == ERR_NONE && order == [] && data == initBuff
      ensures spent == 0 && grants == old(grants)
    {
      size := 0;
      error := ERR_NONE;
      tableRef := 0;
      refs := map[];
      order := [];
      spent := 0;
      data := initBuff;
    }
  }

  /** The table of tables seen maps each to its number. */
  ghost predicate Refs(order: seq<nat>, refs: map<nat, nat>, tableRef: nat)
  {
    && tableRef == |order|
    && (forall id :: id in order <==> id in refs)
    && (forall id :: id in refs ==> refs[id] == Number(order, id))
  }

  /** What was packed, followed by what the rest of the content gives, is the whole. */
  ghost predicate ContentSoFar(whole: Packed, before: seq<Byte>, now: seq<Byte>, rest: Packed)
  {
    now + rest.bytes == before + [TABLE_BEGIN] + whole.bytes && rest.order == whole.order
  }

  lemma EntryPacked(h: Heap, w: WordSize, pointers: bool, order: seq<nat>, t: Entries, whole: Packed, before: seq<Byte>,
                    was: seq<Byte>, now: seq<Byte>, order2: seq<nat>)
    requires Closed(h) && ClosedEntries(h, t) && t != []
    requires ContentSoFar(whole, before, was, PackEntries(h, w, pointers, order, t))
    requires var key := PackValue(h, w, pointers, order, t[0].key);
             var value := PackValue(h, w, pointers, key.order, t[0].value);
             now == was + key.bytes + value.bytes && order2 == value.order
    ensures ContentSoFar(whole, before, now, PackEntries(h, w, pointers, order2, t[1..]))
  {
    var key := PackValue(h, w, pointers, order, t[0].key);
    var value := PackValue(h, w, pointers, key.order, t[0].value);
    var rest := PackEntries(h, w, pointers, value.order, t[1..]);
    FourParts(was, key.bytes, value.bytes, rest.bytes);
  }

  lemma ContentEnds(h: Heap, w: WordSize, pointers: bool, whole: Packed, before: seq<Byte>, now: seq<Byte>,
                    order: seq<nat>)
    requires Closed(h) && ContentSoFar(whole, before, now, PackEntries(h, w, pointers, order, []))
    ensures now + [TABLE_END] == before + ([TABLE_BEGIN] + whole.bytes + [TABLE_END]) && order == whole.order
  {
    assert now + [] == now;
    FourParts(before, [TABLE_BEGIN], whole.bytes, [TABLE_END]);
  }

  ghost predicate ArgsSoFar(whole: Packed, now: seq<Byte>, rest: Packed)
  {
    now + rest.bytes == whole.bytes && rest.order == whole.order
  }

  lemma ArgPacked(h: Heap, w: WordSize, pointers: bool, order: seq<nat>, args: seq<Value>, whole: Packed,
                  was: seq<Byte>, now: seq<Byte>, order1: seq<nat>)
    requires args != [] && Closed(h) && ClosedArgs(h, args)
    requires ArgsSoFar(whole, was, PackArgs(h, w, pointers, order, args))
    requires var first := PackValue(h, w, pointers, order, args[0]);
             now == was + first.bytes && order1 == first.order
    ensures ArgsSoFar(whole, now, PackArgs(h, w, pointers, order1, args[1..]))
  {
    var first := PackValue(h, w, pointers, order, args[0]);
    Associate(was, first.bytes, PackArgs(h, w, pointers, first.order, args[1..]).bytes);
  }

  lemma FourParts(a: seq<Byte>, b: seq<Byte>, c: seq<Byte>, d: seq<Byte>)
    ensures a + b + c + d == a + (b + c + d)
  {
  }

  lemma OneMoreRef(order: seq<nat>, refs: map<nat, nat>, tableRef: nat, id: nat)
    requires Refs(order, refs, tableRef) && id !in refs
    ensures Refs(order + [id], refs[id := tableRef + 1], tableRef + 1)
  {
    var longer := order + [id];
    assert longer[..|longer| - 1] == order;
    forall k | k in refs ensures Number(longer, k) == refs[k] {
      NumberStable(order, [id], k);
    }
  }
}
