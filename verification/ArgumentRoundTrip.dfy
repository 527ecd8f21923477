/** The round trip of whole argument lists, and which tables it carries (engine/lualib/serialize.c). */
module ArgumentRoundTrip {
  import opened Framing
  import opened LuaValue
  import opened Pack
  import opened Unpack
  import opened RoundTrip
  import opened GraphRoundTrip

  ghost function RenameAll(order: seq<nat>, args: seq<Value>): (r: seq<Value>)
    ensures |r| == |args| && forall i :: 0 <= i < |args| ==> r[i] == Rename(order, args[i])
  {
    seq(|args|, i requires 0 <= i < |args| => Rename(order, args[i]))
  }

  ghost predicate KnowsAll(order: seq<nat>, args: seq<Value>)
  {
    forall i :: 0 <= i < |args| ==> Knows(order, args[i])
  }

  ghost predicate PackableArgs(h: Heap, w: WordSize, pointers: bool, args: seq<Value>)
  {
    WellFormed(h, w, pointers) && forall i :: 0 <= i < |args| ==> Packable(h, w, pointers, args[i])
  }

  lemma {:induction false} PackArgsConcat(h: Heap, w: WordSize, pointers: bool, order: seq<nat>, a: seq<Value>,
                                          b: seq<Value>)
    requires Closed(h) && ClosedArgs(h, a) && ClosedArgs(h, b) && ClosedArgs(h, a + b)
    ensures var p := PackArgs(h, w, pointers, order, a);
            var q := PackArgs(h, w, pointers, p.order, b);
            PackArgs(h, w, pointers, order, a + b) == Packed(p.bytes + q.bytes, q.order)
    decreases |a|
  {
    if a == [] {
      assert a + b == b;
      assert [] + PackArgs(h, w, pointers, order, b).bytes == PackArgs(h, w, pointers, order, b).bytes;
    } else {
      var first := PackValue(h, w, pointers, order, a[0]);
      PackArgsConcat(h, w, pointers, first.order, a[1..], b);
      assert (a + b)[1..] == a[1..] + b;
      var p := PackArgs(h, w, pointers, first.order, a[1..]);
      Associate(first.bytes, p.bytes, PackArgs(h, w, pointers, p.order, b).bytes);
    }
  }

  /** The loop of `deserialize_unpack` reads the arguments back, up to the number asked for. */
  lemma {:induction false} ArgsBack(h: Heap, w: WordSize, pointers: bool, order: seq<nat>, args: seq<Value>,
                                    data: seq<Byte>, pos: nat, tables: Tables, values: seq<Value>, resCount: int)
    requires PackableArgs(h, w, pointers, args) && Closed(h) && ClosedArgs(h, args)
    requires |tables| == |order| && pos <= |data| && |PackArgs(h, w, pointers, order, args).order| <= INT_MAX
    requires At(data, pos, PackArgs(h, w, pointers, order, args).bytes)
    requires resCount > 0 ==> |values| < resCount && |values| + |args| <= resCount
    requires pos + |PackArgs(h, w, pointers, order, args).bytes| == |data|
             || (resCount > 0 && |values| + |args| == resCount)
    ensures var p, o := PackArgs(h, w, pointers, order, args), UnpackArgs(w, data, pos, tables, values, resCount);
            && o.Got? && o.values == values + RenameAll(p.order, args) && o.pos == pos + |p.bytes|
            && KnowsAll(p.order, args) && Grown(h, order, p.order, tables, o.tables, 0)
    decreases |args|, 1
  {
    if args == [] {
      NoMoreArgs(values, order);
    } else {
      var first := PackValue(h, w, pointers, order, args[0]);
      var rest := PackArgs(h, w, pointers, first.order, args[1..]);
      OneArgBack(h, w, pointers, order, first, rest, args, data, pos, tables, values, resCount);
    }
  }

  lemma {:induction false} OneArgBack(h: Heap, w: WordSize, pointers: bool, order: seq<nat>, first: Packed,
                                      rest: Packed,
                                      args: seq<Value>, data: seq<Byte>, pos: nat, tables: Tables, values: seq<Value>,
                                      resCount: int)
    requires args != [] && PackableArgs(h, w, pointers, args) && Closed(h) && ClosedArgs(h, args)
    requires first == PackValue(h, w, pointers, order, args[0])
             && rest == PackArgs(h, w, pointers, first.order, args[1..])
    requires |tables| == |order| && |rest.order| <= INT_MAX && At(data, pos, first.bytes + rest.bytes)
    requires resCount > 0 ==> |values| < resCount && |values| + |args| <= resCount
    requires pos + |first.bytes| + |rest.bytes| == |data| || (resCount > 0 && |values| + |args| == resCount)
    ensures pos <= |data|
    ensures var o := UnpackArgs(w, data, pos, tables, values, resCount);
            && o.Got? && o.values == values + RenameAll(rest.order, args) && o.pos == pos + |first.bytes| + |rest.bytes|
            && KnowsAll(rest.order, args) && Grown(h, order, rest.order, tables, o.tables, 0)
    decreases |args|, 0
  {
    AtSplit(data, pos, first.bytes, rest.bytes);
    ValueBack(h, w, pointers, order, args[0], data, pos, tables);
    var next := UnpackObject(w, data, pos, tables);
    var o := UnpackArgs(w, data, pos, tables, values, resCount);
    ArgUnpacked(w, data, pos, tables, values, resCount);
    RestArgsBack(h, w, pointers, first.order, args[1..], rest, data, next, values + next.values, resCount, o);
    FirstArgBack(h, order, first.order, rest.order, args, values, next, tables, o);
  }

  /** The arguments behind the first; nothing more is read once there are as many values as were asked for. */
  lemma {:induction false} RestArgsBack(h: Heap, w: WordSize, pointers: bool, order: seq<nat>, args: seq<Value>,
                                        rest: Packed, data: seq<Byte>, next: Outcome, values: seq<Value>,
                                        resCount: int, o: Outcome)
    requires PackableArgs(h, w, pointers, args) && Closed(h) && ClosedArgs(h, args)
    requires rest == PackArgs(h, w, pointers, order, args) && |rest.order| <= INT_MAX
    requires next.Got? && |next.tables| == |order| && next.pos <= |data| && At(data, next.pos, rest.bytes)
    requires resCount > 0 ==> |values| + |args| <= resCount
    requires next.pos + |rest.bytes| == |data| || (resCount > 0 && |values| + |args| == resCount)
    requires o == if resCount > 0 && |values| >= resCount then Got(NONE, values, next.pos, next.tables)
                  else UnpackArgs(w, data, next.pos, next.tables, values, resCount)
    ensures o.Got? && o.values == values + RenameAll(rest.order, args) && o.pos == next.pos + |rest.bytes|
    ensures KnowsAll(rest.order, args) && Grown(h, order, rest.order, next.tables, o.tables, 0)
    decreases |args|, 2
  {
    if resCount > 0 && |values| >= resCount {
      assert args == [];
      NoMoreArgs(values, rest.order);
    } else {
      ArgsBack(h, w, pointers, order, args, data, next.pos, next.tables, values, resCount);
    }
  }

  lemma FirstArgBack(h: Heap, order: seq<nat>, order1: seq<nat>, order2: seq<nat>, args: seq<Value>, values: seq<Value>,
                     next: Outcome, tables: Tables, o: Outcome)
    requires args != [] && next.Got? && next.values == [Rename(order1, args[0])] && Knows(order1, args[0])
    requires Grown(h, order, order1, tables, next.tables, 0) && o.Got?
             && Grown(h, order1, order2, next.tables, o.tables, 0)
    requires KnowsAll(order2, args[1..]) && o.values == values + next.values + RenameAll(order2, args[1..])
    ensures o.values == values + RenameAll(order2, args) && KnowsAll(order2, args)
    ensures Grown(h, order, order2, tables, o.tables, 0)
  {
    FirstRenamed(order1, order2, args, values, next.values);
    GrownTwice(h, order, order1, order2, tables, next.tables, o.tables, 0);
  }

  lemma ArgUnpacked(w: WordSize, data: seq<Byte>, pos: nat, tables: Tables, values: seq<Value>, resCount: int)
    requires pos < |data|
    ensures var next := UnpackObject(w, data, pos, tables);
            next.Got? && next.tag != NONE && next.tag != TABLE_END ==>
              UnpackArgs(w, data, pos, tables, values, resCount)
              == if resCount > 0 && |values| + 1 >= resCount then Got(NONE, values + next.values, next.pos, next.tables)
                 else UnpackArgs(w, data, next.pos, next.tables, values + next.values, resCount)
  {
  }

  lemma NoMoreArgs(values: seq<Value>, order: seq<nat>)
    ensures values + RenameAll(order, []) == values
  {
  }

  lemma FirstRenamed(order1: seq<nat>, order2: seq<nat>, args: seq<Value>, values: seq<Value>, first: seq<Value>)
    requires args != [] && order1 <= order2 && Knows(order1, args[0]) && first == [Rename(order1, args[0])]
    ensures Knows(order2, args[0])
    ensures values + first + RenameAll(order2, args[1..]) == values + RenameAll(order2, args)
    ensures KnowsAll(order2, args[1..]) ==> KnowsAll(order2, args)
  {
    RenamedLater(order1, order2, args[0]);
    var all, rest := RenameAll(order2, args), RenameAll(order2, args[1..]);
    assert all == first + rest;
    Associate(values, first, rest);
    if KnowsAll(order2, args[1..]) {
      forall i | 0 <= i < |args| ensures Knows(order2, args[i]) {
        if i > 0 { assert args[1..][i - 1] == args[i]; }
      }
    }
  }

  // ---------------------------------------------------------------- the tables that are carried

  ghost predicate NoRepeats(order: seq<nat>)
  {
    forall i, j :: 0 <= i < j < |order| ==> order[i] != order[j]
  }

  ghost predicate Inside(order: seq<nat>, s: set<nat>)
  {
    forall i :: 0 <= i < |order| ==> order[i] in s
  }

  ghost predicate ValueInside(v: Value, s: set<nat>)
  {
    v.Table? ==> v.id in s
  }

  ghost predicate EntriesInside(t: Entries, s: set<nat>)
  {
    forall i :: 0 <= i < |t| ==> ValueInside(t[i].key, s) && ValueInside(t[i].value, s)
  }

  /** With a table, the set has every table its content refers to. */
  ghost predicate ClosedUnderReference(h: Heap, s: set<nat>)
  {
    forall id :: id in s && id in h ==> EntriesInside(h[id], s)
  }

  /** The packer numbers no table twice and none that cannot be reached. */
  lemma {:induction false} VisitsReachable(h: Heap, w: WordSize, pointers: bool, order: seq<nat>, v: Value, s: set<nat>)
    requires Closed(h) && ClosedValue(h, v) && ClosedUnderReference(h, s)
    requires NoRepeats(order) && Inside(order, s) && ValueInside(v, s)
    ensures var p := PackValue(h, w, pointers, order, v); NoRepeats(p.order) && Inside(p.order, s)
    decreases Unvisited(h, order), 0
  {
    if v.Table? && v.id !in order {
      VisitedOne(h, order, v.id);
      VisitsEntries(h, w, pointers, order + [v.id], h[v.id], s);
    }
  }

  lemma {:induction false} VisitsEntries(h: Heap, w: WordSize, pointers: bool, order: seq<nat>, t: Entries, s: set<nat>)
    requires Closed(h) && ClosedEntries(h, t) && ClosedUnderReference(h, s)
    requires NoRepeats(order) && Inside(order, s) && EntriesInside(t, s)
    ensures var p := PackEntries(h, w, pointers, order, t); NoRepeats(p.order) && Inside(p.order, s)
    decreases Unvisited(h, order), 1 + |t|
  {
    if t != [] {
      var key := PackValue(h, w, pointers, order, t[0].key);
      var value := PackValue(h, w, pointers, key.order, t[0].value);
      VisitedMore(h, order, key.order);
      VisitedMore(h, order, value.order);
      VisitsReachable(h, w, pointers, order, t[0].key, s);
      VisitsReachable(h, w, pointers, key.order, t[0].value, s);
      VisitsEntries(h, w, pointers, value.order, t[1..], s);
    }
  }

  lemma {:induction false} VisitsArgs(h: Heap, w: WordSize, pointers: bool, order: seq<nat>, args: seq<Value>,
                                      s: set<nat>)
    requires Closed(h) && ClosedArgs(h, args) && ClosedUnderReference(h, s)
    requires NoRepeats(order) && Inside(order, s) && forall i :: 0 <= i < |args| ==> ValueInside(args[i], s)
    ensures var p := PackArgs(h, w, pointers, order, args); NoRepeats(p.order) && Inside(p.order, s)
    decreases |args|
  {
    if args != [] {
      VisitsReachable(h, w, pointers, order, args[0], s);
      VisitsArgs(h, w, pointers, PackValue(h, w, pointers, order, args[0]).order, args[1..], s);
    }
  }

  // ---------------------------------------------------------------- the main theorem

  /** What the unpacker has made is the part of the heap the values reach, table for table, under the
      numbering `order`. */
  ghost predicate Isomorphic(h: Heap, order: seq<nat>, tables: Tables)
  {
    NoRepeats(order) && |tables| == |order| && forall i :: 0 <= i < |order| ==> Complete(h, order, order[i], tables[i])
  }

  /** Unpacking a packed argument list gives back the values, as many as were asked for, consumes exactly
      their bytes, and rebuilds the heap reachable from them, with sharing, cycles and tables as keys. */
  lemma UnpackingPacked(h: Heap, w: WordSize, pointers: bool, args: seq<Value>, resCount: int)
    requires PackableArgs(h, w, pointers, args) && Closed(h) && ClosedArgs(h, args)
    requires |PackArgs(h, w, pointers, [], args).order| <= INT_MAX
    ensures var n := if 0 < resCount < |args| then resCount else |args|;
            var data, q := PackArgs(h, w, pointers, [], args).bytes, PackArgs(h, w, pointers, [], args[..n]);
            var o := UnpackArgs(w, data, 0, [], [], resCount);
            && o.Got? && o.values == RenameAll(q.order, args[..n]) && KnowsAll(q.order, args[..n])
            && o.pos == |q.bytes| && (n == |args| ==> o.pos == |data|)
            && Isomorphic(h, q.order, o.tables)
  {
    var n := if 0 < resCount < |args| then resCount else |args|;
    assert args == args[..n] + args[n..];
    UnpackingFront(h, w, pointers, args[..n], args[n..], args, resCount);
  }

  lemma UnpackingFront(h: Heap, w: WordSize, pointers: bool, front: seq<Value>, back: seq<Value>, args: seq<Value>,
                       resCount: int)
    requires args == front + back && Closed(h) && ClosedArgs(h, args) && ClosedArgs(h, back)
    requires PackableArgs(h, w, pointers, front) && ClosedArgs(h, front)
    requires |PackArgs(h, w, pointers, [], args).order| <= INT_MAX
    requires if back == [] then resCount <= 0 || |front| <= resCount else 0 < resCount == |front|
    ensures var data, q := PackArgs(h, w, pointers, [], args).bytes, PackArgs(h, w, pointers, [], front);
            var o := UnpackArgs(w, data, 0, [], [], resCount);
            && o.Got? && o.values == RenameAll(q.order, front) && KnowsAll(q.order, front)
            && o.pos == |q.bytes| && (back == [] ==> o.pos == |data|) && Isomorphic(h, q.order, o.tables)
  {
    var q := PackArgs(h, w, pointers, [], front);
    PackArgsConcat(h, w, pointers, [], front, back);
    var rest := PackArgs(h, w, pointers, q.order, back);
    FrontBytes(q.bytes, rest.bytes);
    ArgsBack(h, w, pointers, [], front, q.bytes + rest.bytes, 0, [], [], resCount);
    assert [] + RenameAll(q.order, front) == RenameAll(q.order, front);
    AllIds(h);
    VisitsArgs(h, w, pointers, [], front, h.Keys);
    AllComplete(h, q.order, UnpackArgs(w, q.bytes + rest.bytes, 0, [], [], resCount).tables);
  }

  lemma FrontBytes(a: seq<Byte>, b: seq<Byte>)
    ensures At(a + b, 0, a)
  {
  }

  lemma AllComplete(h: Heap, order: seq<nat>, tables: Tables)
    requires NoRepeats(order) && Grown(h, [], order, [], tables, 0)
    ensures Isomorphic(h, order, tables)
  {
    forall i | 0 <= i < |order| ensures Complete(h, order, order[i], tables[i]) {
    }
  }

  lemma AllIds(h: Heap)
    requires Closed(h)
    ensures ClosedUnderReference(h, h.Keys)
  {
    forall id | id in h.Keys ensures EntriesInside(h[id], h.Keys) {
      assert ClosedEntries(h, h[id]);
    }
  }

  /** The tables carried are the least set that has those of the values and is closed under reference. */
  lemma ExactlyReachable(h: Heap, w: WordSize, pointers: bool, args: seq<Value>, tables: Tables, s: set<nat>)
    requires Closed(h) && ClosedArgs(h, args)
    requires var order := PackArgs(h, w, pointers, [], args).order;
             KnowsAll(order, args) && Isomorphic(h, order, tables)
    ensures var order := PackArgs(h, w, pointers, [], args).order;
            var visited := set i | 0 <= i < |order| :: order[i];
            && ClosedUnderReference(h, visited) && (forall i :: 0 <= i < |args| ==> ValueInside(args[i], visited))
            && (ClosedUnderReference(h, s) && (forall i :: 0 <= i < |args| ==> ValueInside(args[i], s)) ==>
               visited <= s)
  {
    var order := PackArgs(h, w, pointers, [], args).order;
    var visited := set i | 0 <= i < |order| :: order[i];
    forall id | id in visited && id in h ensures EntriesInside(h[id], visited) {
      var i :| 0 <= i < |order| && order[i] == id;
      assert Complete(h, order, order[i], tables[i]);
      KnownInside(order, h[id], visited);
    }
    forall i | 0 <= i < |args| ensures ValueInside(args[i], visited) {
      assert Knows(order, args[i]);
    }
    if ClosedUnderReference(h, s) && (forall i :: 0 <= i < |args| ==> ValueInside(args[i], s)) {
      VisitsArgs(h, w, pointers, [], args, s);
    }
  }

  lemma KnownInside(order: seq<nat>, t: Entries, s: set<nat>)
    requires KnowsEntries(order, t) && forall i :: 0 <= i < |order| ==> order[i] in s
    ensures EntriesInside(t, s)
  {
    forall i | 0 <= i < |t| ensures ValueInside(t[i].key, s) && ValueInside(t[i].value, s) {
      assert Knows(order, t[i].key) && Knows(order, t[i].value);
    }
  }
}
