/**
 The buffers of a fetch (MysqlFetch.m): what is allocated for each column, how a blob longer than
 its buffer is read into a larger one and the buffer put back, and what is freed.
 */
module FetchBuffers {
  import opened Common
  import opened FetchSpec

  /** A MYSQL_BIND; a nat is an address, 0 is NULL. */
  datatype Binding = Binding(bufferType: Kind, buffer: nat, bufferLength: nat, length: nat, error: nat, isNull: nat)

  datatype Block = Bytes(data: seq<Byte>) | Count(value: nat) | Flag(on: bool) | Bindings(list: seq<Binding>)

  type Heap = map<nat, Block>

  /** The C heap: the blocks that are allocated now.  An address is never given out twice. */
  class Memory {
    var blocks: Heap
    var next: nat

    ghost predicate Valid()
      reads this
    {
      next > 0 && forall p :: p in blocks ==> p < next
    }

    constructor ()
      ensures Valid() && blocks == map[]
    {
      blocks, next := map[], 1;
    }

    method Allocate(block: Block) returns (p: nat)
      requires Valid()
      modifies this
      ensures Valid() && next > old(next) && old(next) <= p < next
      ensures p !in old(blocks) && blocks == old(blocks)[p := block]
    {
      p := next;
      blocks, next := blocks[p := block], next + 1;
    }

    /** Only what is allocated can be freed. */
    method Free(p: nat)
      requires Valid() && p in blocks
      modifies this`blocks
      ensures Valid() && blocks == old(blocks) - {p}
    {
      blocks := blocks - {p};
    }

    method Write(p: nat, block: Block)
      requires Valid() && p in blocks
      modifies this`blocks
      ensures Valid() && blocks == old(blocks)[p := block]
    {
      blocks := blocks[p := block];
    }

    /** What the client library writes for one column, inside the block. */
    method Deliver(b: Binding, cell: Cell)
      requires Valid() && Room(blocks, b) && !PastEnd(b, cell)
      modifies this`blocks
      ensures Valid() && blocks == Deposit(old(blocks), b, cell)
    {
      blocks := Deposit(blocks, b, cell);
    }
  }

  // ---------------------------------------------------------------- the buffer of a column

  /** The type a column is bound as. */
  function BoundType(kind: Kind): Kind {
    match kind
    case NewDecimal => String
    case Timestamp => String
    case Date => DateTime
    case _ => kind
  }

  /** What the memory under a buffer holds: C integers and floats by size, a MYSQL_TIME, bytes of some length. */
  datatype Form = Integer(size: nat) | Floating(size: nat) | Time | Characters | Binary

  /** What the library puts into a buffer bound as this type; a time stamp bound as such comes as a MYSQL_TIME. */
  function WrittenAs(bound: Kind): Option<Form> {
    match bound
    case LongLong => Some(Integer(8))
    case Long => Some(Integer(4))
    case Tiny => Some(Integer(1))
    case Float => Some(Floating(4))
    case Double => Some(Floating(8))
    case DateTime => Some(Time)
    case Date => Some(Time)
    case Timestamp => Some(Time)
    case String => Some(Characters)
    case VarString => Some(Characters)
    case NewDecimal => Some(Characters)
    case Blob => Some(Binary)
    case _ => None
  }

  /** What the switch of the row loop takes it for: SInt64, SInt32, char, float, double, a MYSQL_TIME or text. */
  function ReadAs(kind: Kind): Option<Form> {
    match kind
    case LongLong => Some(Integer(8))
    case Long => Some(Integer(4))
    case Tiny => Some(Integer(1))
    case Float => Some(Floating(4))
    case Double => Some(Floating(8))
    case DateTime => Some(Time)
    case Date => Some(Time)
    case String => Some(Characters)
    case VarString => Some(Characters)
    case NewDecimal => Some(Characters)
    case Timestamp => Some(Characters)
    case Blob => Some(Binary)
    case _ => None
  }

  /** Every column is bound so that what is written is what is read, and takes as many bytes. */
  lemma WrittenIsRead(kind: Kind)
    requires Bindable(kind)
    ensures ReadAs(kind).Some? && WrittenAs(BoundType(kind)) == ReadAs(kind)
    ensures FixedSize(kind) == match ReadAs(kind).value
                               case Integer(size) => Some(size)
                               case Floating(size) => Some(size)
                               case Time => Some(TIME_SIZE)
                               case Characters => None
                               case Binary => None
  {
  }

  function Pointers(b: Binding): set<nat> {
    {b.buffer, b.length, b.error, b.isNull}
  }

  /** The four blocks of one column. */
  predicate Slot(h: Heap, b: Binding, field: Field) {
    && b.bufferType == BoundType(field.kind) && b.bufferLength == Capacity(field)
    && Room(h, b)
  }

  predicate Room(h: Heap, b: Binding) {
    && b.buffer in h && h[b.buffer].Bytes? && |h[b.buffer].data| == b.bufferLength
    && b.length in h && h[b.length].Count?
    && b.error in h && h[b.error].Flag?
    && b.isNull in h && h[b.isNull].Flag?
    && b.error != b.isNull
  }

  // ---------------------------------------------------------------- the client library

  /** Whether a value is cut off at buffer_length, which the library heeds for types of variable length. */
  predicate Overflows(b: Binding, cell: Cell) {
    cell.Value? && FixedSize(b.bufferType).None? && |cell.bytes| > b.bufferLength
  }

  /** Whether a value of a fixed-length type, which is written whole, goes past the end of its block. */
  predicate PastEnd(b: Binding, cell: Cell) {
    cell.Value? && FixedSize(b.bufferType).Some? && |cell.bytes| > b.bufferLength
  }

  /** What the library writes for one column: as much as it may, the full length and the two flags. */
  function Deposit(h: Heap, b: Binding, cell: Cell): (r: Heap)
    requires Room(h, b) && !PastEnd(b, cell)
    ensures r.Keys == h.Keys && Room(r, b) && Delivered(r, b, cell)
    ensures forall p :: p in h && p !in Pointers(b) ==> r[p] == h[p]
  {
    match cell
    case Null => h[b.isNull := Flag(true)]
    case Value(v) =>
      var flagged := h[b.isNull := Flag(false)][b.error := Flag(Overflows(b, cell))];
      flagged[b.length := Count(|v|)][b.buffer := Bytes(Overwrite(h[b.buffer].data, v))]
  }

  function Overwrite(data: seq<Byte>, v: seq<Byte>): (r: seq<Byte>)
    ensures |r| == |data|
  {
    if |v| > |data| then v[..|data|] else v + data[|v|..]
  }

  /** A column as it can be read from its blocks. */
  ghost predicate Delivered(h: Heap, b: Binding, cell: Cell)
    requires Room(h, b)
  {
    match cell
    case Null => h[b.isNull].on
    case Value(v) =>
      && !h[b.isNull].on
      && h[b.error].on == Overflows(b, cell)
      && h[b.length].value == |v|
      && if Overflows(b, cell) then h[b.buffer].data == v[..b.bufferLength]
         else |v| <= b.bufferLength && h[b.buffer].data[..|v|] == v
  }

  // Only the four blocks of a column matter to it.
  lemma OnlyItsBlocks(h: Heap, g: Heap, b: Binding)
    requires Room(h, b)
    requires forall p :: p in Pointers(b) ==> p in g && g[p] == h[p]
    ensures Room(g, b)
    ensures forall cell :: Delivered(g, b, cell) <==> Delivered(h, b, cell)
  {
    assert b.buffer in Pointers(b) && b.length in Pointers(b) && b.error in Pointers(b) && b.isNull in Pointers(b);
  }

  // ---------------------------------------------------------------- all buffers of a fetch

  /** The blocks of the first `k` columns. */
  ghost function Owned(list: seq<Binding>, k: nat): set<nat>
    requires k <= |list|
  {
    if k == 0 then {} else Owned(list, k - 1) + Pointers(list[k - 1])
  }

  ghost predicate Apart(list: seq<Binding>, k: nat)
    requires k <= |list|
  {
    forall x, y :: 0 <= x < y < k ==> Pointers(list[x]) !! Pointers(list[y])
  }

  ghost predicate Slots(h: Heap, list: seq<Binding>, fields: seq<Field>, k: nat)
    requires k <= |list| == |fields|
  {
    forall x :: 0 <= x < k ==> Slot(h, list[x], fields[x])
  }

  /**
   The heap is `base`, the array of bindings at `bindings`, and the blocks of the first `k` columns, no two
   of which overlap.
   */
  ghost predicate Layout(h: Heap, base: Heap, bindings: nat, list: seq<Binding>, fields: seq<Field>, k: nat) {
    && k <= |list| == |fields|
    && bindings in h && h[bindings] == Bindings(list)
    && Slots(h, list, fields, k)
    && Apart(list, k)
    && Owned(list, k) !! base.Keys && bindings !in base && bindings !in Owned(list, k)
    && h.Keys == base.Keys + {bindings} + Owned(list, k)
    && Unchanged(base, h)
  }

  ghost predicate Unchanged(base: Heap, h: Heap) {
    forall p :: p in base ==> p in h && h[p] == base[p]
  }

  lemma {:induction false} OwnsEach(list: seq<Binding>, k: nat, x: nat)
    requires x < k <= |list|
    ensures Pointers(list[x]) <= Owned(list, k)
  {
    if x < k - 1 {
      OwnsEach(list, k - 1, x);
    }
  }

  lemma {:induction false} OwnedByFirst(list: seq<Binding>, other: seq<Binding>, k: nat)
    requires k <= |list| && k <= |other|
    requires forall x :: 0 <= x < k ==> list[x] == other[x]
    ensures Owned(list, k) == Owned(other, k)
  {
    if k > 0 {
      OwnedByFirst(list, other, k - 1);
    }
  }

  lemma {:induction false} ApartFromEarlier(list: seq<Binding>, k: nat, x: nat)
    requires k <= x < |list| && Apart(list, x + 1)
    ensures Owned(list, k) !! Pointers(list[x])
  {
    if k > 0 {
      ApartFromEarlier(list, k - 1, x);
    }
  }

  // ---------------------------------------------------------------- binding

  /** What calloc leaves in the array of bindings. */
  const UNBOUND: Binding := Binding(Other(0), 0, 0, 0, 0, 0)

  /** The four blocks of a column. */
  method BindColumn(mem: Memory, field: Field) returns (b: Binding)
    requires mem.Valid()
    modifies mem
    ensures mem.Valid()
    ensures Slot(mem.blocks, b, field)
    ensures Pointers(b) !! old(mem.blocks).Keys && mem.blocks.Keys == old(mem.blocks).Keys + Pointers(b)
    ensures Unchanged(old(mem.blocks), mem.blocks)
  {
    var buffer := mem.Allocate(Bytes(Zeros(Capacity(field))));
    var length := mem.Allocate(Count(0));
    var error := mem.Allocate(Flag(false));
    var isNull := mem.Allocate(Flag(false));
    b := Binding(BoundType(field.kind), buffer, Capacity(field), length, error, isNull);
  }

  // One more column is bound.
  lemma BindOneMore(h: Heap, g: Heap, base: Heap, bindings: nat, list: seq<Binding>, fields: seq<Field>,
                    k: nat, b: Binding)
    requires Layout(h, base, bindings, list, fields, k) && k < |fields|
    requires Slot(g, b, fields[k]) && Pointers(b) !! h.Keys && g.Keys == h.Keys + Pointers(b) && Unchanged(h, g)
    ensures Layout(g[bindings := Bindings(list[k := b])], base, bindings, list[k := b], fields, k + 1)
  {
    var list' := list[k := b];
    var g' := g[bindings := Bindings(list')];
    OwnedByFirst(list, list', k);
    assert Owned(list', k + 1) == Owned(list, k) + Pointers(b);
    forall x | 0 <= x < k + 1 ensures Slot(g', list'[x], fields[x]) {
    }
    forall x | 0 <= x < k ensures Pointers(list'[x]) !! Pointers(b) {
      OwnsEach(list', k, x);
    }
  }

  /** One case of the switch of the binding loop. */
  method BindAt(mem: Memory, bindings: nat, x: nat, fields: seq<Field>, ghost base: Heap, ghost list: seq<Binding>)
    returns (ghost after: seq<Binding>)
    requires mem.Valid() && x < |fields| && Layout(mem.blocks, base, bindings, list, fields, x)
    modifies mem
    ensures mem.Valid() && Layout(mem.blocks, base, bindings, after, fields, x + 1)
  {
    ghost var before := mem.blocks;
    var b := BindColumn(mem, fields[x]);
    ghost var bound := mem.blocks;
    mem.Write(bindings, Bindings(mem.blocks[bindings].list[x := b]));
    BindOneMore(before, bound, base, bindings, list, fields, x, b);
    after := list[x := b];
  }

  // The allocated array alone.
  lemma NothingBound(base: Heap, bindings: nat, list: seq<Binding>, fields: seq<Field>)
    requires |list| == |fields| && bindings !in base
    ensures Layout(base[bindings := Bindings(list)], base, bindings, list, fields, 0)
  {
  }

  lemma FirstUnboundIs(fields: seq<Field>, x: nat)
    requires x < |fields| && forall i :: 0 <= i < x ==> Bindable(fields[i].kind)
    ensures FirstUnbound(fields, 0) >= x && (FirstUnbound(fields, 0) == x <==> !Bindable(fields[x].kind))
  {
    var k := FirstUnbound(fields, 0);
  }

  /** The name of a column, given the tables of the columns before it. */
  method NameOf(fields: seq<Field>, extended: bool, x: nat, before: set<string>)
    returns (tables: set<string>, name: string)
    requires x < |fields| && before == Tables(fields, x)
    ensures tables == Tables(fields, x + 1)
    ensures Names(fields, extended)[..x] + [name] == Names(fields, extended)[..x + 1]
  {
    var field := fields[x];
    tables := before + {field.table};
    if extended || |tables| > 1 {
      name := field.table + "." + field.name;
    } else {
      name := field.name;
    }
  }

  /** The naming and binding loop: the names, and the buffers up to the first type that cannot be bound. */
  method BindAll(mem: Memory, fields: seq<Field>, extended: bool)
    returns (bindings: nat, names: seq<string>, raised: Option<Reason>, ghost list: seq<Binding>)
    requires mem.Valid()
    modifies mem
    ensures mem.Valid() && Unchanged(old(mem.blocks), mem.blocks)
    ensures bindings in mem.blocks && bindings !in old(mem.blocks)
    ensures var k := FirstUnbound(fields, 0);
            if k < |fields| then raised == Some(NoBinding(fields[k].kind))
            else
              && raised == None && names == Names(fields, extended)
              && Layout(mem.blocks, old(mem.blocks), bindings, list, fields, |fields|)
  {
    ghost var base := mem.blocks;
    var unbound := seq(|fields|, _ => UNBOUND);
    bindings := mem.Allocate(Bindings(unbound));
    names := [];
    list := unbound;
    NothingBound(base, bindings, list, fields);
    var tables: set<string> := {};
    var x := 0;
    while x < |fields|
      invariant x <= |fields|
      invariant mem.Valid() && Layout(mem.blocks, base, bindings, list, fields, x)
      invariant tables == Tables(fields, x)
      invariant forall i :: 0 <= i < x ==> Bindable(fields[i].kind)
      invariant names == Names(fields, extended)[..x]
    {
      var name;
      tables, name := NameOf(fields, extended, x, tables);
      names := names + [name];
      FirstUnboundIs(fields, x);
      if !Bindable(fields[x].kind) {
        raised := Some(NoBinding(fields[x].kind));
        return;
      }
      list := BindAt(mem, bindings, x, fields, base, list);
      x := x + 1;
    }
    raised := None;
  }

  // ---------------------------------------------------------------- fetching

  /** Nothing but the blocks of column `x` differs. */
  ghost predicate OnlyColumn(h: Heap, g: Heap, b: Binding) {
    g.Keys == h.Keys && forall p :: p in h && p !in Pointers(b) ==> g[p] == h[p]
  }

  lemma ColumnKeepsLayout(h: Heap, g: Heap, base: Heap, bindings: nat, list: seq<Binding>, fields: seq<Field>,
                          k: nat, x: nat)
    requires Layout(h, base, bindings, list, fields, k) && x < k
    requires OnlyColumn(h, g, list[x]) && Room(g, list[x])
    ensures Layout(g, base, bindings, list, fields, k)
  {
    OwnsEach(list, k, x);
    forall y | 0 <= y < k ensures Slot(g, list[y], fields[y]) {
      if y != x {
        ColumnSparesOther(h, g, list, fields, k, x, y);
      }
    }
  }

  lemma ColumnSparesOther(h: Heap, g: Heap, list: seq<Binding>, fields: seq<Field>, k: nat, x: nat, y: nat)
    requires x < k <= |list| == |fields| && y < k && y != x && Slots(h, list, fields, k) && Apart(list, k)
    requires OnlyColumn(h, g, list[x])
    ensures Room(g, list[y])
    ensures forall cell :: Delivered(g, list[y], cell) <==> Delivered(h, list[y], cell)
  {
    assert Pointers(list[x]) !! Pointers(list[y]);
    assert Slot(h, list[y], fields[y]);
    OnlyItsBlocks(h, g, list[y]);
  }

  /** The columns from `from` up to `to` are in their buffers. */
  ghost predicate DeliveredIn(h: Heap, list: seq<Binding>, row: seq<Cell>, from: nat, to: nat)
    requires to <= |list| == |row|
  {
    forall x :: from <= x < to ==> Room(h, list[x]) && Delivered(h, list[x], row[x])
  }

  lemma ColumnSparesRow(h: Heap, g: Heap, list: seq<Binding>, fields: seq<Field>, row: seq<Cell>,
                        x: nat, from: nat, to: nat)
    requires x < |list| == |fields| == |row| && to <= |row| && Slots(h, list, fields, |list|) && Apart(list, |list|)
    requires OnlyColumn(h, g, list[x]) && DeliveredIn(h, list, row, from, to) && !(from <= x < to)
    ensures DeliveredIn(g, list, row, from, to)
  {
    forall y | from <= y < to ensures Room(g, list[y]) && Delivered(g, list[y], row[y]) {
      ColumnSparesOther(h, g, list, fields, |list|, x, y);
    }
  }

  /** MYSQL_DATA_TRUNCATED, after the first `k` columns. */
  ghost predicate Truncated(list: seq<Binding>, row: seq<Cell>, k: nat)
    requires k <= |list| == |row|
  {
    exists x :: 0 <= x < k && Overflows(list[x], row[x])
  }

  ghost predicate NoOverrun(fields: seq<Field>, row: seq<Cell>, k: nat)
    requires k <= |fields| == |row|
  {
    forall x :: 0 <= x < k ==> !Overruns(fields[x], row[x])
  }

  lemma PastEndIsOverrun(h: Heap, b: Binding, field: Field, cell: Cell)
    requires Slot(h, b, field)
    ensures PastEnd(b, cell) <==> Overruns(field, cell)
  {
  }

  method FetchOne(mem: Memory, bindings: nat, x: nat, row: seq<Cell>,
                  ghost base: Heap, ghost list: seq<Binding>, ghost fields: seq<Field>)
    returns (overflow: bool, overrun: bool)
    requires mem.Valid() && x < |row| == |fields| && Layout(mem.blocks, base, bindings, list, fields, |fields|)
    requires DeliveredIn(mem.blocks, list, row, 0, x)
    modifies mem
    ensures overrun <==> Overruns(fields[x], row[x])
    ensures !overrun ==>
      && mem.Valid() && Layout(mem.blocks, base, bindings, list, fields, |fields|)
      && DeliveredIn(mem.blocks, list, row, 0, x + 1)
      && overflow == Overflows(list[x], row[x])
  {
    ghost var before := mem.blocks;
    var b := mem.blocks[bindings].list[x];
    assert Slot(before, b, fields[x]);
    PastEndIsOverrun(before, b, fields[x], row[x]);
    if PastEnd(b, row[x]) {
      return false, true;
    }
    mem.Deliver(b, row[x]);
    ColumnKeepsLayout(before, mem.blocks, base, bindings, list, fields, |fields|, x);
    ColumnSparesRow(before, mem.blocks, list, fields, row, x, 0, x);
    overflow, overrun := Overflows(b, row[x]), false;
  }

  /**
   The library's mysql_stmt_fetch for a row: every column is delivered.  A value written past its
   block ends what the model can follow.
   */
  method StmtFetch(mem: Memory, bindings: nat, row: seq<Cell>,
                   ghost base: Heap, ghost list: seq<Binding>, ghost fields: seq<Field>)
    returns (truncated: bool, overrun: bool)
    requires mem.Valid() && |row| == |fields| && Layout(mem.blocks, base, bindings, list, fields, |fields|)
    modifies mem
    ensures overrun <==> RowOverruns(fields, row)
    ensures !overrun ==>
      && mem.Valid() && Layout(mem.blocks, base, bindings, list, fields, |fields|)
      && DeliveredIn(mem.blocks, list, row, 0, |row|)
      && (truncated <==> Truncated(list, row, |row|))
  {
    truncated, overrun := false, false;
    var x := 0;
    while x < |row|
      invariant x <= |row| && mem.Valid() && Layout(mem.blocks, base, bindings, list, fields, |fields|)
      invariant DeliveredIn(mem.blocks, list, row, 0, x)
      invariant truncated <==> Truncated(list, row, x)
      invariant !overrun && NoOverrun(fields, row, x)
    {
      var overflow;
      overflow, overrun := FetchOne(mem, bindings, x, row, base, list, fields);
      if overrun {
        return;
      }
      truncated := truncated || overflow;
      x := x + 1;
    }
  }

  // ---------------------------------------------------------------- reading a column

  /** The bytes an object is made of. */
  function Content(h: Heap, b: Binding, kind: Kind): seq<Byte>
    requires Room(h, b)
    requires ReadSize(h, b, kind) <= b.bufferLength
  {
    h[b.buffer].data[..ReadSize(h, b, kind)]
  }

  /** How many bytes are read: the size of the type, or the length that was delivered. */
  function ReadSize(h: Heap, b: Binding, kind: Kind): nat
    requires Room(h, b)
  {
    match FixedSize(kind)
    case None => h[b.length].value
    case Some(n) => n
  }

  lemma ContentIsValue(h: Heap, b: Binding, field: Field, cell: Cell)
    requires Slot(h, b, field) && Delivered(h, b, cell) && cell.Value? && Bindable(field.kind) && Promised(field, cell)
    requires !Overflows(b, cell)
    ensures ReadSize(h, b, field.kind) <= b.bufferLength
    ensures Content(h, b, field.kind) == cell.bytes
  {
  }

  lemma OnlyBlobsOverflow(h: Heap, b: Binding, field: Field, cell: Cell)
    requires Slot(h, b, field) && Bindable(field.kind) && Promised(field, cell)
    ensures Overflows(b, cell) ==> field.kind.Blob?
  {
  }

  /**
   The blob is fetched again into a buffer of its length.  Afterwards the binding, the buffer and
   every other block are what they were; only the truncation flag is cleared.
   */
  method Refetch(mem: Memory, bindings: nat, x: nat, cell: Cell, ghost list: seq<Binding>) returns (content: seq<Byte>)
    requires mem.Valid() && bindings in mem.blocks && mem.blocks[bindings] == Bindings(list) && x < |list|
    requires Room(mem.blocks, list[x]) && Delivered(mem.blocks, list[x], cell) && Overflows(list[x], cell)
    modifies mem
    ensures mem.Valid() && content == cell.bytes
    ensures mem.blocks == old(mem.blocks)[list[x].error := Flag(false)]
  {
    var b := mem.blocks[bindings].list[x];
    var previousBuffer, previousBufferSize := b.buffer, b.bufferLength;
    b := b.(bufferLength := mem.blocks[b.length].value);
    assert |Zeros(b.bufferLength)| == b.bufferLength;
    var garbage: seq<Byte> :| |garbage| == b.bufferLength;
    var larger := mem.Allocate(Bytes(garbage));
    b := b.(buffer := larger);
    mem.Write(bindings, Bindings(mem.blocks[bindings].list[x := b]));
    mem.Deliver(b, cell);
    content := mem.blocks[b.buffer].data[..mem.blocks[b.length].value];
    mem.Free(b.buffer);
    b := b.(bufferLength := previousBufferSize, buffer := previousBuffer);
    mem.Write(bindings, Bindings(mem.blocks[bindings].list[x := b]));
    assert b == list[x] && list[x := b] == list;
    assert mem.blocks.Keys == old(mem.blocks).Keys;
    assert forall p :: p in old(mem.blocks) ==> mem.blocks[p] == old(mem.blocks)[list[x].error := Flag(false)][p];
  }

  /** What becomes of one column of the row that was fetched. */
  method ReadColumn(mem: Memory, bindings: nat, x: nat, field: Field, key: string, cell: Cell, truncated: bool,
                    made: Maker, ghost list: seq<Binding>)
    returns (put: Put)
    requires mem.Valid() && bindings in mem.blocks && mem.blocks[bindings] == Bindings(list) && x < |list|
    requires Slot(mem.blocks, list[x], field) && Bindable(field.kind)
    requires Delivered(mem.blocks, list[x], cell) && Promised(field, cell)
    requires Overflows(list[x], cell) ==> truncated
    modifies mem
    ensures put == Convert(field.kind, key, cell, made)
    ensures mem.Valid() && OnlyColumn(old(mem.blocks), mem.blocks, list[x]) && Room(mem.blocks, list[x])
  {
    var b := mem.blocks[bindings].list[x];
    if mem.blocks[b.isNull].on {
      return Store(NSNull);
    }
    OnlyBlobsOverflow(mem.blocks, b, field, cell);
    var content: seq<Byte>;
    if field.kind.Blob? && truncated && mem.blocks[b.error].on {
      content := Refetch(mem, bindings, x, cell, list);
    } else {
      ContentIsValue(mem.blocks, b, field, cell);
      content := Content(mem.blocks, b, field.kind);
    }
    match field.kind {
      case DateTime =>
        put := if made(field.kind, content) then Store(Object(field.kind, content)) else Skip;
      case String | VarString | Timestamp =>
        put := if made(field.kind, content) then Store(Object(field.kind, content)) else Raise(NilObject(key));
      case _ =>
        put := Store(Object(field.kind, content));
    }
  }

  /** One turn of the column loop: the entry of column `x` goes into the dictionary. */
  method AddColumn(mem: Memory, bindings: nat, x: nat, fields: seq<Field>, names: seq<string>, row: seq<Cell>,
                   truncated: bool, made: Maker, dict: Dict, ghost base: Heap, ghost list: seq<Binding>)
    returns (r: RowResult)
    requires mem.Valid() && Layout(mem.blocks, base, bindings, list, fields, |fields|) && x < |fields| == |names|
    requires AllBindable(fields) && AllPromised(fields, row)
    requires DeliveredIn(mem.blocks, list, row, x, |row|) && (Truncated(list, row, |row|) ==> truncated)
    requires RowUpTo(fields, names, row, made, x) == Made(dict)
    modifies mem
    ensures r == RowUpTo(fields, names, row, made, x + 1)
    ensures mem.Valid() && Layout(mem.blocks, base, bindings, list, fields, |fields|)
    ensures DeliveredIn(mem.blocks, list, row, x + 1, |row|)
  {
    ghost var before := mem.blocks;
    assert Slot(before, list[x], fields[x]);
    assert Overflows(list[x], row[x]) ==> Truncated(list, row, |row|);
    var put := ReadColumn(mem, bindings, x, fields[x], names[x], row[x], truncated, made, list);
    match put {
      case Store(what) => r := Made(dict[names[x] := what]);
      case Skip => r := Made(dict);
      case Raise(reason) => r := Broken(reason);
    }
    ColumnKeepsLayout(before, mem.blocks, base, bindings, list, fields, |fields|, x);
    assert DeliveredIn(before, list, row, x + 1, |row|);
    ColumnSparesRow(before, mem.blocks, list, fields, row, x, x + 1, |row|);
  }

  /** The column loop: the dictionary of one row, after which every binding is as it was before. */
  method ReadRow(mem: Memory, bindings: nat, fields: seq<Field>, names: seq<string>, row: seq<Cell>, truncated: bool,
                 made: Maker, ghost base: Heap, ghost list: seq<Binding>)
    returns (r: RowResult)
    requires mem.Valid() && Layout(mem.blocks, base, bindings, list, fields, |fields|) && |names| == |fields|
    requires AllBindable(fields) && AllPromised(fields, row)
    requires DeliveredIn(mem.blocks, list, row, 0, |row|) && (Truncated(list, row, |row|) ==> truncated)
    modifies mem
    ensures r == RowUpTo(fields, names, row, made, |fields|)
    ensures mem.Valid() && Layout(mem.blocks, base, bindings, list, fields, |fields|)
  {
    r := Made(map[]);
    var x := 0;
    while x < |fields|
      invariant x <= |fields| && mem.Valid() && Layout(mem.blocks, base, bindings, list, fields, |fields|)
      invariant DeliveredIn(mem.blocks, list, row, x, |row|)
      invariant r.Made? && r == RowUpTo(fields, names, row, made, x)
    {
      r := AddColumn(mem, bindings, x, fields, names, row, truncated, made, r.dict, base, list);
      x := x + 1;
      if r.Broken? {
        StaysBroken(fields, names, row, made, x, |fields|);
        return;
      }
    }
  }

  lemma {:induction false} StaysBroken(fields: seq<Field>, names: seq<string>, row: seq<Cell>, made: Maker,
                                       k: nat, m: nat)
    requires k <= m <= |fields| == |names| == |row| && RowUpTo(fields, names, row, made, k).Broken?
    ensures RowUpTo(fields, names, row, made, m) == RowUpTo(fields, names, row, made, k)
  {
    if k < m {
      StaysBroken(fields, names, row, made, k, m - 1);
    }
  }

  lemma {:induction false} StaysEnded(fields: seq<Field>, names: seq<string>, replies: seq<Reply>, made: Maker,
                                      k: nat, m: nat)
    requires k <= m <= |replies| && |names| == |fields| && Shaped(fields, replies)
    requires !Rows(fields, names, replies[..k], made).Fetched?
    ensures Rows(fields, names, replies[..m], made) == Rows(fields, names, replies[..k], made)
  {
    if k < m {
      StaysEnded(fields, names, replies, made, k, m - 1);
      assert replies[..m][..m - 1] == replies[..m - 1];
    }
  }

  // ---------------------------------------------------------------- freeing

  method FreeColumn(mem: Memory, b: Binding)
    requires mem.Valid() && Pointers(b) <= mem.blocks.Keys
    requires b.buffer != b.length && b.buffer != b.error && b.buffer != b.isNull
    requires b.length != b.error && b.length != b.isNull && b.error != b.isNull
    modifies mem
    ensures mem.Valid() && mem.blocks == old(mem.blocks) - Pointers(b)
  {
    mem.Free(b.buffer);
    mem.Free(b.length);
    mem.Free(b.error);
    mem.Free(b.isNull);
  }

  /** The frees at the end: the four blocks of every column, then the bindings. */
  method FreeAll(mem: Memory, bindings: nat, ghost base: Heap, ghost list: seq<Binding>, fields: seq<Field>)
    requires mem.Valid() && Layout(mem.blocks, base, bindings, list, fields, |fields|)
    modifies mem
    ensures mem.Valid() && mem.blocks == base
  {
    ghost var start := mem.blocks;
    var x := 0;
    while x < |fields|
      invariant x <= |fields| && mem.Valid()
      invariant mem.blocks == start - Owned(list, x)
    {
      FreeNext(mem, bindings, start, base, list, fields, x);
      x := x + 1;
    }
    AllFreed(start, base, bindings, list, fields);
    mem.Free(bindings);
  }

  // One turn of the loop.
  method FreeNext(mem: Memory, bindings: nat, ghost start: Heap, ghost base: Heap, ghost list: seq<Binding>,
                  ghost fields: seq<Field>, x: nat)
    requires mem.Valid() && Layout(start, base, bindings, list, fields, |fields|) && x < |fields|
    requires mem.blocks == start - Owned(list, x)
    modifies mem
    ensures mem.Valid() && mem.blocks == start - Owned(list, x + 1)
  {
    StillThere(start, base, bindings, list, fields, x);
    OneMoreFreed(start, list, x);
    FreeColumn(mem, mem.blocks[bindings].list[x]);
  }

  lemma OneMoreFreed(h: Heap, list: seq<Binding>, x: nat)
    requires x < |list|
    ensures h - Owned(list, x) - Pointers(list[x]) == h - Owned(list, x + 1)
  {
  }

  lemma AllFreed(h: Heap, base: Heap, bindings: nat, list: seq<Binding>, fields: seq<Field>)
    requires Layout(h, base, bindings, list, fields, |fields|)
    ensures bindings in h - Owned(list, |fields|)
    ensures h - Owned(list, |fields|) - {bindings} == base
  {
  }

  // The blocks of a column are four, and are not freed with those of the earlier columns.
  lemma StillThere(h: Heap, base: Heap, bindings: nat, list: seq<Binding>, fields: seq<Field>, x: nat)
    requires Layout(h, base, bindings, list, fields, |fields|) && x < |fields|
    ensures var b := list[x];
            && b.buffer != b.length && b.buffer != b.error && b.buffer != b.isNull
            && b.length != b.error && b.length != b.isNull && b.error != b.isNull
    ensures Pointers(list[x]) <= h.Keys - Owned(list, x) - {bindings}
    ensures bindings in h.Keys - Owned(list, x)
  {
    assert Slot(h, list[x], fields[x]);
    OwnsEach(list, |fields|, x);
    ApartFromEarlier(list, x, x);
    OwnedGrows(list, x, |fields|);
  }

  lemma {:induction false} OwnedGrows(list: seq<Binding>, k: nat, m: nat)
    requires k <= m <= |list|
    ensures Owned(list, k) <= Owned(list, m)
  {
    if k < m {
      OwnedGrows(list, k, m - 1);
    }
  }

  // ---------------------------------------------------------------- the whole fetch

  /**
   The row loop: a dictionary for every row, with the bindings as they were before each fetch, up to
   a value that is written past its block.
   */
  method ReadAll(mem: Memory, bindings: nat, fields: seq<Field>, names: seq<string>, replies: seq<Reply>,
                 made: Maker, ghost base: Heap, ghost list: seq<Binding>)
    returns (r: Outcome)
    requires mem.Valid() && Layout(mem.blocks, base, bindings, list, fields, |fields|) && |names| == |fields|
    requires AllBindable(fields) && Shaped(fields, replies) && ServerKeepsPromise(fields, replies)
    modifies mem
    ensures r == Rows(fields, names, replies, made)
    ensures !r.Overrun? ==> mem.Valid() && Layout(mem.blocks, base, bindings, list, fields, |fields|)
  {
    var results: seq<Dict> := [];
    var i := 0;
    while i < |replies|
      invariant i <= |replies| && mem.Valid() && Layout(mem.blocks, base, bindings, list, fields, |fields|)
      invariant Rows(fields, names, replies[..i], made) == Fetched(names, results)
    {
      var reply := replies[i];
      NextRow(fields, names, replies, made, i);
      LastRow(fields, names, replies, made, i + 1);
      i := i + 1;
      match reply {
        case Failure =>
          return Raised(FetchFailed);
        case Row(cells) =>
          assert AllPromised(fields, cells);
          var truncated, overrun := StmtFetch(mem, bindings, cells, base, list, fields);
          if overrun {
            return Overrun;
          }
          var row := ReadRow(mem, bindings, fields, names, cells, truncated, made, base, list);
          match row {
            case Broken(reason) =>
              return Raised(reason);
            case Made(dict) =>
              results := results + [dict];
          }
      }
    }
    assert replies[..i] == replies;
    r := Fetched(names, results);
  }

  // One more reply.
  lemma NextRow(fields: seq<Field>, names: seq<string>, replies: seq<Reply>, made: Maker, i: nat)
    requires i < |replies| && |names| == |fields| && Shaped(fields, replies)
    requires Rows(fields, names, replies[..i], made).Fetched?
    ensures var next := Rows(fields, names, replies[..i + 1], made);
            match replies[i]
            case Failure => next == Raised(FetchFailed)
            case Row(cells) =>
              if RowOverruns(fields, cells) then next == Overrun
              else
                match RowUpTo(fields, names, cells, made, |fields|)
                case Broken(reason) => next == Raised(reason)
                case Made(dict) => next == Fetched(names, Rows(fields, names, replies[..i], made).results + [dict])
  {
    assert replies[..i + 1][..i] == replies[..i];
  }

  lemma LastRow(fields: seq<Field>, names: seq<string>, replies: seq<Reply>, made: Maker, k: nat)
    requires k <= |replies| && |names| == |fields| && Shaped(fields, replies)
    ensures !Rows(fields, names, replies[..k], made).Fetched?
        ==> Rows(fields, names, replies, made) == Rows(fields, names, replies[..k], made)
  {
    if !Rows(fields, names, replies[..k], made).Fetched? {
      StaysEnded(fields, names, replies, made, k, |replies|);
      assert replies[..|replies|] == replies;
    }
  }

  /**
   fetchWithCommand:onConnection:extendedNames: once the statement is prepared.  When results are
   returned the heap is what it was, so all that was allocated has been freed, and since Free asks
   for an allocated block and no address returns, once; when an exception is raised it is not.
   Only after a value was written past its block nothing is said of the heap.
   */
  method FetchWithCommand(mem: Memory, fields: seq<Field>, extended: bool, bindFails: bool, executeFails: bool,
                          replies: seq<Reply>, made: Maker)
    returns (r: Outcome)
    requires mem.Valid() && Shaped(fields, replies) && ServerKeepsPromise(fields, replies)
    modifies mem
    ensures r == Result(fields, extended, bindFails, executeFails, replies, made)
    ensures !r.Overrun? ==> mem.Valid() && Unchanged(old(mem.blocks), mem.blocks)
    ensures !r.Overrun? ==> (mem.blocks == old(mem.blocks) <==> r.Fetched?)
  {
    ghost var base := mem.blocks;
    var bindings, names, raised, list := BindAll(mem, fields, extended);
    if raised.Some? {
      return Raised(raised.value);
    }
    if bindFails {
      return Raised(BindFailed);
    }
    if executeFails {
      return Raised(ExecuteFailed);
    }
    r := ReadAll(mem, bindings, fields, names, replies, made, base, list);
    if r.Fetched? {
      FreeAll(mem, bindings, base, list, fields);
    }
  }
}
