/** What engine/lualib/serialize.c packs, as a function of the values and the heap. */
module Pack {
  import opened Arith
  import opened Framing
  import opened LuaValue

  const NIL: Byte := 1
  const INT8: Byte := 2
  const INT16: Byte := 3
  const INT32: Byte := 4
  const INT64: Byte := 5
  const DOUBLE: Byte := 6
  const STRING8: Byte := 7
  const STRING16: Byte := 8
  const STRING32: Byte := 9
  const FALSE: Byte := 10
  const TRUE: Byte := 11
  const TABLE_BEGIN: Byte := 12
  const TABLE_END: Byte := 13
  const TABLE_REF: Byte := 14
  const USER_DATA: Byte := 15
  const LIGHT_USER_DATA: Byte := 16

  /** The low `n` bytes of an integer in two's complement. */
  function IntegerBytes(i: int, n: nat): (s: seq<Byte>)
    ensures |s| == n
  {
    PowPositive(n);
    LowBytes(i % Pow256(n), n)
  }

  lemma PowPositive(n: nat)
    ensures Pow256(n) > 0
  {
  }

  /** `-value` in 64 bits: the smallest integer is its own negation. */
  function Negated(value: int): int
    requires MIN_INTEGER <= value <= MAX_INTEGER
  {
    if value == MIN_INTEGER then MIN_INTEGER else -value
  }

  /** `pack_integer` */
  function PackInteger(value: int): seq<Byte>
    requires MIN_INTEGER <= value <= MAX_INTEGER
  {
    var magnitude := if value < 0 then Negated(value) else value;
    if magnitude < 128 then [INT8] + IntegerBytes(value, 1)
    else if magnitude < 32768 then [INT16] + IntegerBytes(value, 2)
    else if magnitude <= 2147483647 then [INT32] + IntegerBytes(value, 4)
    else [INT64] + IntegerBytes(value, 8)
  }

  /** `pack_string` */
  function PackString(w: WordSize, s: seq<Byte>): seq<Byte>
  {
    if |s| < 128 then [STRING8] + LowBytes(|s|, 1) + s
    else if |s| < 32768 then [STRING16] + LowBytes(|s|, 2) + s
    else [STRING32] + LowBytes(|s|, w) + s
  }

  predicate InRange(v: Value)
  {
    v.Integer? ==> MIN_INTEGER <= v.i <= MAX_INTEGER
  }

  /** What does not depend on the tables seen before. */
  function PackScalar(w: WordSize, pointers: bool, v: Value): seq<Byte>
    requires InRange(v) && !v.Table?
  {
    match v
    case Nil => [NIL]
    case Bool(b) => [if b then TRUE else FALSE]
    case Integer(i) => PackInteger(i)
    case Double(bits) => [DOUBLE] + bits
    case Str(s) => PackString(w, s)
    case Pointer(a) => if pointers then [LIGHT_USER_DATA] + a else [NIL]
  }

  // ---------------------------------------------------------------- tables

  /** Every table the heap mentions is in it, and integers are 64 bits wide. */
  ghost predicate Closed(h: Heap)
  {
    forall id :: id in h ==> ClosedEntries(h, h[id])
  }

  ghost predicate ClosedEntries(h: Heap, t: Entries)
  {
    forall i :: 0 <= i < |t| ==> ClosedValue(h, t[i].key) && ClosedValue(h, t[i].value)
  }

  ghost predicate ClosedValue(h: Heap, v: Value)
  {
    InRange(v) && (v.Table? ==> v.id in h)
  }

  /** The bytes, and the tables visited so far in the order of their numbers. */
  datatype Packed = Packed(bytes: seq<Byte>, order: seq<nat>)

  /** The tables that have not been visited. */
  ghost function NotYet(h: Heap, order: seq<nat>): set<nat>
  {
    set id | id in h && id !in order
  }

  ghost function Unvisited(h: Heap, order: seq<nat>): nat
  {
    |NotYet(h, order)|
  }

  lemma VisitedMore(h: Heap, order: seq<nat>, longer: seq<nat>)
    requires order <= longer
    ensures Unvisited(h, longer) <= Unvisited(h, order)
  {
    SubsetCount(NotYet(h, longer), NotYet(h, order));
  }

  lemma VisitedOne(h: Heap, order: seq<nat>, id: nat)
    requires id in h && id !in order
    ensures Unvisited(h, order + [id]) < Unvisited(h, order)
  {
    assert id in NotYet(h, order) && NotYet(h, order + [id]) == NotYet(h, order) - {id};
  }

  /** `pack_obj`: a table that was visited is a reference to its number; a new one gets the next number
      before its content is packed. */
  ghost function PackValue(h: Heap, w: WordSize, pointers: bool, order: seq<nat>, v: Value): (p: Packed)
    requires Closed(h) && ClosedValue(h, v)
    ensures order <= p.order
    decreases Unvisited(h, order), 0
  {
    if !v.Table? then Packed(PackScalar(w, pointers, v), order)
    else if v.id in order then Packed([TABLE_REF] + LowBytes(Number(order, v.id), 4), order)
    else
      VisitedOne(h, order, v.id);
      var content := PackEntries(h, w, pointers, order + [v.id], h[v.id]);
      Packed([TABLE_BEGIN] + content.bytes + [TABLE_END], content.order)
  }

  /** The loop of `pack_table` over the content. */
  ghost function PackEntries(h: Heap, w: WordSize, pointers: bool, order: seq<nat>, t: Entries): (p: Packed)
    requires Closed(h) && ClosedEntries(h, t)
    ensures order <= p.order
    decreases Unvisited(h, order), 1 + |t|
  {
    if t == [] then Packed([], order)
    else
      var key := PackValue(h, w, pointers, order, t[0].key);
      VisitedMore(h, order, key.order);
      var value := PackValue(h, w, pointers, key.order, t[0].value);
      VisitedMore(h, order, value.order);
      var rest := PackEntries(h, w, pointers, value.order, t[1..]);
      Packed(key.bytes + value.bytes + rest.bytes, rest.order)
  }

  lemma KnownTable(h: Heap, w: WordSize, pointers: bool, order: seq<nat>, id: nat)
    requires Closed(h) && id in h && id in order
    ensures PackValue(h, w, pointers, order, Table(id))
            == Packed([TABLE_REF] + LowBytes(Number(order, id), 4), order)
  {
  }

  lemma NewTable(h: Heap, w: WordSize, pointers: bool, order: seq<nat>, id: nat)
    requires Closed(h) && id in h && id !in order
    ensures var content := PackEntries(h, w, pointers, order + [id], h[id]);
            PackValue(h, w, pointers, order, Table(id))
            == Packed([TABLE_BEGIN] + content.bytes + [TABLE_END], content.order)
  {
  }

  ghost predicate ClosedArgs(h: Heap, args: seq<Value>)
  {
    forall i :: 0 <= i < |args| ==> ClosedValue(h, args[i])
  }

  /** The loop of `serialize_pack` over the arguments. */
  ghost function PackArgs(h: Heap, w: WordSize, pointers: bool, order: seq<nat>, args: seq<Value>): (p: Packed)
    requires Closed(h) && ClosedArgs(h, args)
    ensures order <= p.order
    decreases |args|
  {
    if args == [] then Packed([], order)
    else
      var first := PackValue(h, w, pointers, order, args[0]);
      var rest := PackArgs(h, w, pointers, first.order, args[1..]);
      Packed(first.bytes + rest.bytes, rest.order)
  }
}
