/** The round trip for graphs of tables: packer and unpacker number tables in the same order, so that
    shared tables, cycles and tables used as keys come back (engine/lualib/serialize.c). */
module GraphRoundTrip {
  import opened Framing
  import opened LuaValue
  import opened Pack
  import opened Unpack
  import opened RoundTrip

  /** The unpacker's tables after the packer went from `order` to `order'`: the new ones are complete,
      with numbers for names; the old ones are as they were, except table number `open`, whose content is
      being read. */
  ghost predicate Grown(h: Heap, order: seq<nat>, order': seq<nat>, tables: Tables, tables': Tables, open: nat)
  {
    && order <= order' && |tables| == |order| && |tables'| == |order'|
    && (forall i :: 0 <= i < |order| && i + 1 != open ==> tables'[i] == tables[i])
    && (forall i :: |order| <= i < |order'| ==> Complete(h, order', order'[i], tables'[i]))
  }

  /** The table is a renamed copy. */
  ghost predicate Complete(h: Heap, order: seq<nat>, id: nat, copy: Entries)
  {
    id in h && KnowsEntries(order, h[id]) && copy == RenameEntries(order, h[id])
  }

  lemma CompleteStays(h: Heap, order: seq<nat>, order': seq<nat>, id: nat, copy: Entries)
    requires Complete(h, order, id, copy) && order <= order'
    ensures Complete(h, order', id, copy)
  {
    EntriesStay(order, order', h[id]);
  }

  lemma EntriesStay(order: seq<nat>, order': seq<nat>, t: Entries)
    requires KnowsEntries(order, t) && order <= order'
    ensures KnowsEntries(order', t) && RenameEntries(order', t) == RenameEntries(order, t)
  {
    var more := order'[|order|..];
    assert order' == order + more;
    forall i | 0 <= i < |t|
      ensures Knows(order', t[i].key) && Knows(order', t[i].value)
      ensures RenameEntries(order', t)[i] == RenameEntries(order, t)[i]
    {
      RenameStable(order, more, t[i].key);
      RenameStable(order, more, t[i].value);
    }
  }

  lemma GrownTwice(h: Heap, a: seq<nat>, b: seq<nat>, c: seq<nat>, ta: Tables, tb: Tables, tc: Tables, open: nat)
    requires Grown(h, a, b, ta, tb, open) && Grown(h, b, c, tb, tc, open) && open <= |a|
    ensures Grown(h, a, c, ta, tc, open)
  {
    forall i | |a| <= i < |c| ensures Complete(h, c, c[i], tc[i]) {
      if i < |b| {
        assert Complete(h, b, b[i], tb[i]);
        CompleteStays(h, b, c, b[i], tb[i]);
      }
    }
  }

  /** One value: what is unpacked is the renamed value, and the tables grow with the packer's order. */
  lemma {:induction false} ValueBack(h: Heap, w: WordSize, pointers: bool, order: seq<nat>, v: Value,
                                     data: seq<Byte>, pos: nat, tables: Tables)
    requires Closed(h) && ClosedValue(h, v) && WellFormed(h, w, pointers) && Packable(h, w, pointers, v)
    requires |tables| == |order| && pos <= |data|
    requires var p := PackValue(h, w, pointers, order, v); At(data, pos, p.bytes) && |p.order| <= INT_MAX
    ensures var p, o := PackValue(h, w, pointers, order, v), UnpackObject(w, data, pos, tables);
            && o.Got? && Yields(o, Rename(p.order, v), pos + |p.bytes|, o.tables)
            && Knows(p.order, v) && Grown(h, order, p.order, tables, o.tables, 0)
    decreases Unvisited(h, order), 0, 0, 1
  {
    if !v.Table? {
      ScalarBack(h, w, pointers, v, data, pos, tables);
    } else if v.id in order {
      RefBack(w, order, v.id, data, pos, tables);
    } else {
      TableBack(h, w, pointers, order, v.id, data, pos, tables);
    }
  }

  lemma RefBack(w: WordSize, order: seq<nat>, id: nat, data: seq<Byte>, pos: nat, tables: Tables)
    requires id in order && |tables| == |order| <= INT_MAX
    requires At(data, pos, [TABLE_REF] + LowBytes(Number(order, id), 4))
    ensures Yields(UnpackObject(w, data, pos, tables), Table(Number(order, id)), pos + 5, tables)
  {
    var n := Number(order, id);
    PowValues();
    AtFirst(data, pos, TABLE_REF, LowBytes(n, 4));
    LowBytesValue(n, 4);
  }

  lemma {:induction false} TableBack(h: Heap, w: WordSize, pointers: bool, order: seq<nat>, id: nat,
                                     data: seq<Byte>, pos: nat, tables: Tables)
    requires Closed(h) && id in h && id !in order && WellFormed(h, w, pointers)
    requires |tables| == |order| && pos <= |data|
    requires var p := PackValue(h, w, pointers, order, Table(id)); At(data, pos, p.bytes) && |p.order| <= INT_MAX
    ensures var p, o := PackValue(h, w, pointers, order, Table(id)), UnpackObject(w, data, pos, tables);
            && o.Got? && Yields(o, Rename(p.order, Table(id)), pos + |p.bytes|, o.tables)
            && id in p.order && Grown(h, order, p.order, tables, o.tables, 0)
    decreases Unvisited(h, order), 0, 0, 0
  {
    VisitedOne(h, order, id);
    var content := PackEntries(h, w, pointers, order + [id], h[id]);
    NewTablePacked(h, w, pointers, order, id);
    AtFirst(data, pos, TABLE_BEGIN, content.bytes + [TABLE_END]);
    EntriesBack(h, w, pointers, order + [id], h[id], [], h[id], data, pos + 1, tables + [[]], |order| + 1);
    BeginUnpacked(w, data, pos, tables);
    var o := UnpackObject(w, data, pos, tables);
    TableDone(h, order, id, content.order, tables, o.tables);
  }

  lemma NewTablePacked(h: Heap, w: WordSize, pointers: bool, order: seq<nat>, id: nat)
    requires Closed(h) && id in h && id !in order
    ensures var content := PackEntries(h, w, pointers, order + [id], h[id]);
            PackValue(h, w, pointers, order, Table(id))
            == Packed([TABLE_BEGIN] + (content.bytes + [TABLE_END]), content.order)
  {
    var content := PackEntries(h, w, pointers, order + [id], h[id]);
    assert [TABLE_BEGIN] + content.bytes + [TABLE_END] == [TABLE_BEGIN] + (content.bytes + [TABLE_END]);
  }

  lemma BeginUnpacked(w: WordSize, data: seq<Byte>, pos: nat, tables: Tables)
    requires pos < |data| && data[pos] == TABLE_BEGIN
    ensures UnpackObject(w, data, pos, tables) == UnpackEntries(w, data, pos + 1, tables + [[]], |tables| + 1)
    ensures UnpackObject(w, data, pos, tables).Got? ==> UnpackObject(w, data, pos, tables).tag == TABLE_BEGIN
  {
  }

  lemma TableDone(h: Heap, order: seq<nat>, id: nat, order': seq<nat>, tables: Tables, tables': Tables)
    requires id !in order && id in h && |tables| == |order|
    requires Grown(h, order + [id], order', tables + [[]], tables', |order| + 1)
    requires KnowsEntries(order', h[id]) && tables'[|order|] == RenameEntries(order', h[id])
    ensures Grown(h, order, order', tables, tables', 0)
    ensures id in order' && Number(order', id) == |order| + 1
  {
    NewNumber(order, id, order');
    assert order' [|order|] == (order + [id])[|order|] == id;
    assert order <= order + [id] <= order';
    forall i | 0 <= i < |order| ensures tables'[i] == tables[i] {
      assert tables'[i] == (tables + [[]])[i];
    }
    forall i | |order| <= i < |order'| ensures Complete(h, order', order'[i], tables'[i]) {
    }
  }

  lemma NewNumber(order: seq<nat>, id: nat, order': seq<nat>)
    requires id !in order && order + [id] <= order'
    ensures id in order' && Number(order', id) == |order| + 1
  {
    var seen := order + [id];
    assert seen[..|seen| - 1] == order && seen[|seen| - 1] == id;
    assert order' == seen + order'[|seen|..];
    NumberStable(seen, order'[|seen|..], id);
  }

  /** The rest of a table's content: the entries are set in the open table one after the other. */
  lemma {:induction false} EntriesBack(h: Heap, w: WordSize, pointers: bool, order: seq<nat>, t: Entries,
                                       done: Entries, all: Entries, data: seq<Byte>, pos: nat, tables: Tables, n: nat)
    requires Closed(h) && ClosedEntries(h, t) && WellFormed(h, w, pointers)
    requires all == done + t && PackableEntries(h, w, pointers, all)
    requires 1 <= n <= |tables| == |order| && pos <= |data|
    requires KnowsEntries(order, done) && tables[n - 1] == RenameEntries(order, done)
    requires var p := PackEntries(h, w, pointers, order, t);
             At(data, pos, p.bytes + [TABLE_END]) && |p.order| <= INT_MAX
    ensures var p, o := PackEntries(h, w, pointers, order, t), UnpackEntries(w, data, pos, tables, n);
            && o.Got? && o.values == [Table(n)] && o.pos == pos + |p.bytes| + 1
            && Grown(h, order, p.order, tables, o.tables, n)
            && KnowsEntries(p.order, all) && o.tables[n - 1] == RenameEntries(p.order, all)
    decreases Unvisited(h, order), 3 * |t| + 3
  {
    if t == [] {
      EndUnpacked(w, data, pos, tables, n);
      assert all == done;
    } else {
      var key := PackValue(h, w, pointers, order, t[0].key);
      var value := PackValue(h, w, pointers, key.order, t[0].value);
      var rest := PackEntries(h, w, pointers, value.order, t[1..]);
      var pos1, pos2 := pos + |key.bytes|, pos + |key.bytes| + |value.bytes|;
      EntryPacked(h, w, pointers, order, t);
      EntryParts(data, pos, key.bytes, value.bytes, rest.bytes + [TABLE_END], pos1, pos2);
      assert all[|done|] == t[0];
      OneEntryBack(h, w, pointers, order, key, value, rest, t, done, all, data, pos, pos1, pos2, tables, n);
    }
  }

  lemma EntryParts(data: seq<Byte>, pos: nat, key: seq<Byte>, value: seq<Byte>, rest: seq<Byte>, pos1: nat, pos2: nat)
    requires At(data, pos, key + (value + rest)) && pos1 == pos + |key| && pos2 == pos1 + |value|
    ensures At(data, pos, key) && At(data, pos1, value) && At(data, pos2, rest)
  {
    AtSplit(data, pos, key, value + rest);
    AtSplit(data, pos1, value, rest);
  }

  lemma EndUnpacked(w: WordSize, data: seq<Byte>, pos: nat, tables: Tables, n: nat)
    requires 1 <= n <= |tables| && At(data, pos, [] + [TABLE_END])
    ensures UnpackEntries(w, data, pos, tables, n) == Got(TABLE_BEGIN, [Table(n)], pos + 1, tables)
  {
    assert [] + [TABLE_END] == [TABLE_END] + [];
    AtFirst(data, pos, TABLE_END, []);
  }

  lemma {:induction false} OneEntryBack(h: Heap, w: WordSize, pointers: bool, order: seq<nat>, key: Packed,
                                        value: Packed, rest: Packed, t: Entries, done: Entries, all: Entries,
                                        data: seq<Byte>, pos: nat, pos1: nat, pos2: nat, tables: Tables, n: nat)
    requires t != [] && Closed(h) && ClosedEntries(h, t[1..]) && WellFormed(h, w, pointers)
    requires ClosedValue(h, t[0].key) && Packable(h, w, pointers, t[0].key)
             && key == PackValue(h, w, pointers, order, t[0].key)
    requires ClosedValue(h, t[0].value) && Packable(h, w, pointers, t[0].value)
             && value == PackValue(h, w, pointers, key.order, t[0].value)
    requires rest == PackEntries(h, w, pointers, value.order, t[1..]) && |rest.order| <= INT_MAX
    requires all == done + t && PackableEntries(h, w, pointers, all)
    requires 1 <= n <= |tables| == |order| && pos <= |data|
    requires KnowsEntries(order, done) && tables[n - 1] == RenameEntries(order, done)
    requires At(data, pos, key.bytes) && pos1 == pos + |key.bytes| && At(data, pos1, value.bytes)
    requires pos2 == pos1 + |value.bytes| && At(data, pos2, rest.bytes + [TABLE_END])
    ensures var o := UnpackEntries(w, data, pos, tables, n);
            && o.Got? && o.values == [Table(n)] && o.pos == pos2 + |rest.bytes| + 1
            && Grown(h, order, rest.order, tables, o.tables, n)
            && KnowsEntries(rest.order, all) && o.tables[n - 1] == RenameEntries(rest.order, all)
    decreases Unvisited(h, order), 3 * |t| + 2
  {
    VisitedMore(h, order, value.order);
    var k, v := PairBack(h, w, pointers, order, key, value, t[0].key, t[0].value, data, pos, pos1, pos2, tables);
    RestBack(h, w, pointers, order, key.order, value.order, rest, t, done, all, data, pos, pos2, tables, n, k, v);
  }

  /** A key and its value, one after the other. */
  lemma {:induction false} PairBack(h: Heap, w: WordSize, pointers: bool, order: seq<nat>, key: Packed, value: Packed,
                                    a: Value, b: Value, data: seq<Byte>, pos: nat, pos1: nat, pos2: nat, tables: Tables)
    returns (k: Outcome, v: Outcome)
    requires Closed(h) && WellFormed(h, w, pointers)
    requires ClosedValue(h, a) && Packable(h, w, pointers, a) && key == PackValue(h, w, pointers, order, a)
    requires ClosedValue(h, b) && Packable(h, w, pointers, b) && value == PackValue(h, w, pointers, key.order, b)
    requires |value.order| <= INT_MAX && |tables| == |order| && pos <= |data|
    requires At(data, pos, key.bytes) && pos1 == pos + |key.bytes|
    requires At(data, pos1, value.bytes) && pos2 == pos1 + |value.bytes|
    ensures k == UnpackObject(w, data, pos, tables) && k.Got?
    ensures Yields(k, Rename(key.order, a), pos1, k.tables)
    ensures Knows(key.order, a) && Grown(h, order, key.order, tables, k.tables, 0)
    ensures v == UnpackObject(w, data, k.pos, k.tables) && v.Got?
    ensures Yields(v, Rename(value.order, b), pos2, v.tables)
    ensures Knows(value.order, b) && Grown(h, key.order, value.order, k.tables, v.tables, 0)
    decreases Unvisited(h, order), 1
  {
    VisitedMore(h, order, key.order);
    k := ValueAt(h, w, pointers, order, key, a, data, pos, tables);
    v := ValueAt(h, w, pointers, key.order, value, b, data, pos1, k.tables);
  }

  lemma {:induction false} ValueAt(h: Heap, w: WordSize, pointers: bool, order: seq<nat>, p: Packed, v: Value,
                                   data: seq<Byte>, pos: nat, tables: Tables) returns (o: Outcome)
    requires Closed(h) && ClosedValue(h, v) && WellFormed(h, w, pointers) && Packable(h, w, pointers, v)
    requires |tables| == |order| && pos <= |data| && p == PackValue(h, w, pointers, order, v)
    requires At(data, pos, p.bytes) && |p.order| <= INT_MAX
    ensures o == UnpackObject(w, data, pos, tables) && o.Got?
    ensures Yields(o, Rename(p.order, v), pos + |p.bytes|, o.tables)
    ensures Knows(p.order, v) && Grown(h, order, p.order, tables, o.tables, 0)
    decreases Unvisited(h, order), 0, 1
  {
    ValueBack(h, w, pointers, order, v, data, pos, tables);
    o := UnpackObject(w, data, pos, tables);
  }

  /** The entry is stored, and the rest of the content follows. */
  lemma {:induction false} RestBack(h: Heap, w: WordSize, pointers: bool, order: seq<nat>, order1: seq<nat>,
                                    order2: seq<nat>, rest: Packed, t: Entries, done: Entries, all: Entries,
                                    data: seq<Byte>, pos: nat, pos2: nat, tables: Tables, n: nat, k: Outcome,
                                    v: Outcome)
    requires t != [] && Closed(h) && ClosedEntries(h, t[1..]) && WellFormed(h, w, pointers)
    requires all == done + t && PackableEntries(h, w, pointers, all)
    requires 1 <= n <= |tables| == |order| && pos <= |data|
    requires KnowsEntries(order, done) && tables[n - 1] == RenameEntries(order, done)
    requires Knows(order1, t[0].key) && Knows(order2, t[0].value)
    requires k == UnpackObject(w, data, pos, tables) && k.Got? && Yields(k, Rename(order1, t[0].key), k.pos, k.tables)
    requires v == UnpackObject(w, data, k.pos, k.tables) && v.Got?
             && Yields(v, Rename(order2, t[0].value), pos2, v.tables)
    requires Grown(h, order, order1, tables, k.tables, 0) && Grown(h, order1, order2, k.tables, v.tables, 0)
    requires rest == PackEntries(h, w, pointers, order2, t[1..])
    requires At(data, pos2, rest.bytes + [TABLE_END]) && |rest.order| <= INT_MAX
    ensures var o := UnpackEntries(w, data, pos, tables, n);
            && o.Got? && o.values == [Table(n)] && o.pos == pos2 + |rest.bytes| + 1
            && Grown(h, order, rest.order, tables, o.tables, n)
            && KnowsEntries(rest.order, all) && o.tables[n - 1] == RenameEntries(rest.order, all)
    decreases Unvisited(h, order2), 3 * |t| + 1
  {
    var key, value := Rename(order1, t[0].key), Rename(order2, t[0].value);
    EntryStored(h, w, pointers, order, order1, order2, tables, k.tables, v.tables, done, t, all, n);
    var tables' := v.tables[n - 1 := RawSet(v.tables[n - 1], key, value)];
    EntryUnpacked(w, data, pos, tables, n, k, v, key, value, tables');
    RemainderBack(h, w, pointers, order, order2, rest, t, done, all, data, pos2, tables, tables', n);
  }

  lemma {:induction false} RemainderBack(h: Heap, w: WordSize, pointers: bool, order: seq<nat>, order2: seq<nat>,
                                         rest: Packed, t: Entries, done: Entries, all: Entries,
                                         data: seq<Byte>, pos2: nat, tables: Tables, tables': Tables, n: nat)
    requires t != [] && Closed(h) && ClosedEntries(h, t[1..]) && WellFormed(h, w, pointers)
    requires all == done + t && PackableEntries(h, w, pointers, all)
    requires 1 <= n <= |tables| == |order| && Grown(h, order, order2, tables, tables', n)
    requires KnowsEntries(order2, done + [t[0]]) && tables'[n - 1] == RenameEntries(order2, done + [t[0]])
    requires rest == PackEntries(h, w, pointers, order2, t[1..])
    requires At(data, pos2, rest.bytes + [TABLE_END]) && |rest.order| <= INT_MAX
    ensures var o := UnpackEntries(w, data, pos2, tables', n);
            && o.Got? && o.values == [Table(n)] && o.pos == pos2 + |rest.bytes| + 1
            && Grown(h, order, rest.order, tables, o.tables, n)
            && KnowsEntries(rest.order, all) && o.tables[n - 1] == RenameEntries(rest.order, all)
    decreases Unvisited(h, order2), 3 * |t| + 1, 0
  {
    assert all == done + [t[0]] + t[1..];
    EntriesBack(h, w, pointers, order2, t[1..], done + [t[0]], all, data, pos2, tables', n);
    GrownTwice(h, order, order2, rest.order, tables, tables', UnpackEntries(w, data, pos2, tables', n).tables, n);
  }

  lemma EntryPacked(h: Heap, w: WordSize, pointers: bool, order: seq<nat>, t: Entries)
    requires t != [] && Closed(h) && ClosedEntries(h, t)
    ensures ClosedValue(h, t[0].key) && ClosedValue(h, t[0].value) && ClosedEntries(h, t[1..])
    ensures var p, key := PackEntries(h, w, pointers, order, t), PackValue(h, w, pointers, order, t[0].key);
            var value := PackValue(h, w, pointers, key.order, t[0].value);
            var rest := PackEntries(h, w, pointers, value.order, t[1..]);
            && p.order == rest.order && |p.bytes| == |key.bytes| + |value.bytes| + |rest.bytes|
            && p.bytes + [TABLE_END] == key.bytes + (value.bytes + (rest.bytes + [TABLE_END]))
  {
    var key := PackValue(h, w, pointers, order, t[0].key);
    var value := PackValue(h, w, pointers, key.order, t[0].value);
    var rest := PackEntries(h, w, pointers, value.order, t[1..]);
    Reassociated(key.bytes, value.bytes, rest.bytes, [TABLE_END]);
  }

  lemma Reassociated(a: seq<Byte>, b: seq<Byte>, c: seq<Byte>, d: seq<Byte>)
    ensures a + b + c + d == a + (b + (c + d))
  {
  }

  lemma EntryUnpacked(w: WordSize, data: seq<Byte>, pos: nat, tables: Tables, n: nat, k: Outcome, v: Outcome,
                      key: Value, value: Value, tables': Tables)
    requires pos <= |data| && 1 <= n <= |tables|
    requires k == UnpackObject(w, data, pos, tables) && k.Got? && Yields(k, key, k.pos, k.tables)
    requires v == UnpackObject(w, data, k.pos, k.tables) && v.Got? && Yields(v, value, v.pos, v.tables)
    requires KeyOf(key) == Key(key) && tables' == v.tables[n - 1 := RawSet(v.tables[n - 1], key, value)]
    ensures UnpackEntries(w, data, pos, tables, n) == UnpackEntries(w, data, v.pos, tables', n)
  {
  }

  /** Setting the unpacked entry extends the open table by the renamed entry. */
  lemma EntryStored(h: Heap, w: WordSize, pointers: bool, order: seq<nat>, order1: seq<nat>, order2: seq<nat>,
                    tables: Tables, tables1: Tables, tables2: Tables, done: Entries, t: Entries, all: Entries, n: nat)
    requires Grown(h, order, order1, tables, tables1, 0) && Grown(h, order1, order2, tables1, tables2, 0)
    requires t != [] && all == done + t && PackableEntries(h, w, pointers, all)
    requires Knows(order1, t[0].key) && Knows(order2, t[0].value) && 1 <= n <= |tables|
    requires KnowsEntries(order, done) && tables[n - 1] == RenameEntries(order, done)
    ensures var key, value := Rename(order1, t[0].key), Rename(order2, t[0].value);
            var tables' := tables2[n - 1 := RawSet(tables2[n - 1], key, value)];
            && KeyOf(key) == Key(key) && Grown(h, order, order2, tables, tables', n)
            && KnowsEntries(order2, done + [t[0]]) && tables'[n - 1] == RenameEntries(order2, done + [t[0]])
  {
    assert all[|done|] == t[0];
    var key, value := Rename(order1, t[0].key), Rename(order2, t[0].value);
    KeyMeaning(key, key);
    GrownTwice(h, order, order1, order2, tables, tables1, tables2, 0);
    RenamedLater(order1, order2, t[0].key);
    EntriesStay(order, order2, done);
    RenamedKeyIsNew(h, w, pointers, order2, done, t, all);
    NewKeyAppends(RenameEntries(order2, done), key, value);
    assert RawSet(tables2[n - 1], key, value) == RenameEntries(order2, done) + [Entry(key, value)];
    assert RenameEntries(order2, done + [t[0]]) == RenameEntries(order2, done) + [Entry(key, value)];
    GrownOpened(h, order, order2, tables, tables2, n, RawSet(tables2[n - 1], key, value));
  }

  lemma GrownOpened(h: Heap, a: seq<nat>, b: seq<nat>, ta: Tables, tb: Tables, n: nat, content: Entries)
    requires Grown(h, a, b, ta, tb, 0) && 1 <= n <= |a|
    ensures Grown(h, a, b, ta, tb[n - 1 := content], n)
  {
    forall i | |a| <= i < |b| ensures Complete(h, b, b[i], tb[n - 1 := content][i]) {
      assert Complete(h, b, b[i], tb[i]);
    }
  }

  lemma RenamedLater(order1: seq<nat>, order2: seq<nat>, v: Value)
    requires Knows(order1, v) && order1 <= order2
    ensures Knows(order2, v) && Rename(order2, v) == Rename(order1, v)
  {
    assert order2 == order1 + order2[|order1|..];
    RenameStable(order1, order2[|order1|..], v);
  }

  lemma RenamedKeyIsNew(h: Heap, w: WordSize, pointers: bool, order: seq<nat>, done: Entries, t: Entries, all: Entries)
    requires t != [] && all == done + t && PackableEntries(h, w, pointers, all)
    requires KnowsEntries(order, done) && Knows(order, t[0].key)
    ensures !HasKey(RenameEntries(order, done), Rename(order, t[0].key))
  {
    var copy := RenameEntries(order, done);
    forall i | 0 <= i < |copy| ensures copy[i].key != Rename(order, t[0].key) {
      assert all[i] == done[i] && all[|done|] == t[0];
      RenameInjective(order, done[i].key, t[0].key);
    }
  }
}
