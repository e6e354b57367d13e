/**
 What a fetch returns (MysqlFetch.m), said without any heap: the names of the columns, the
 dictionary made of each row, when an exception comes instead, and when a value does not fit the
 block that is allocated for it.
 */
module FetchSpec {
  import opened Common

  /** The column types; `Other` is any type that neither switch mentions. */
  datatype Kind =
    | LongLong | Long | Tiny | Float | Double
    | String | VarString | NewDecimal | Timestamp
    | DateTime | Date
    | Blob | TinyBlob | MediumBlob | LongBlob
    | Other(code: int)

  datatype Field = Field(table: string, name: string, width: nat, kind: Kind)

  /** A column of a row as the server has it, in the form that the bound buffer asks for. */
  datatype Cell = Null | Value(bytes: seq<Byte>)

  /** What each mysql_stmt_fetch finds; after the last reply it returns MYSQL_NO_DATA. */
  datatype Reply = Row(cells: seq<Cell>) | Failure

  /** The object a column becomes; its content is what it was made of. */
  datatype Stored = NSNull | Object(kind: Kind, content: seq<Byte>)

  type Dict = map<string, Stored>

  datatype Reason = NoBinding(kind: Kind) | BindFailed | ExecuteFailed | FetchFailed | NilObject(key: string)

  /** `Overrun`: a value was written past the end of its block, and nothing can be said any more. */
  datatype Outcome = Fetched(names: seq<string>, results: seq<Dict>) | Raised(reason: Reason) | Overrun

  /** Whether Cocoa can make an object of a kind of these bytes. */
  type Maker = (Kind, seq<Byte>) -> bool

  // ---------------------------------------------------------------- sizes

  const BLOB_DEFAULT_SIZE: nat := 10000
  const TIME_SIZE: nat := 40  // sizeof(MYSQL_TIME)

  /** What both switches accept. */
  predicate Bindable(kind: Kind) {
    !kind.TinyBlob? && !kind.MediumBlob? && !kind.LongBlob? && !kind.Other?
  }

  /** The buffer_length of a column, and the size of the block allocated for it. */
  function Capacity(field: Field): nat {
    match field.kind
    case LongLong => 8
    case Long => 8
    case Blob => BLOB_DEFAULT_SIZE
    case Tiny => 1
    case DateTime => TIME_SIZE
    case Date => TIME_SIZE
    case _ => field.width
  }

  /** How many bytes a value of a fixed-length type takes; the others say their length. */
  function FixedSize(kind: Kind): Option<nat> {
    match kind
    case LongLong => Some(8)
    case Long => Some(4)
    case Tiny => Some(1)
    case Float => Some(4)
    case Double => Some(8)
    case DateTime => Some(TIME_SIZE)
    case Date => Some(TIME_SIZE)
    case _ => None
  }

  /** What the server keeps to: the size of the type, or the width it has declared; a blob may have any length. */
  predicate Promised(field: Field, cell: Cell) {
    cell.Value? && Bindable(field.kind) ==>
      match FixedSize(field.kind)
      case Some(size) => |cell.bytes| == size
      case None => field.kind.Blob? || |cell.bytes| <= field.width
  }

  /** What the code should have seen to: the block has room for a value of the type. */
  predicate Roomy(field: Field) {
    FixedSize(field.kind).Some? ==> FixedSize(field.kind).value <= Capacity(field)
  }

  /** The library does not look at buffer_length for a fixed-length type: the value is written past its block. */
  predicate Overruns(field: Field, cell: Cell) {
    cell.Value? && FixedSize(field.kind).Some? && |cell.bytes| > Capacity(field)
  }

  /** No value that the server may send is written past its block, exactly if the block is roomy. */
  lemma FitsIffRoomy(field: Field)
    requires Bindable(field.kind)
    ensures (forall cell {:trigger Promised(field, cell)} :: Promised(field, cell) ==> !Overruns(field, cell))
       <==> Roomy(field)
  {
    if !Roomy(field) {
      var cell := Value(Zeros(FixedSize(field.kind).value));
      assert Promised(field, cell) && Overruns(field, cell);
    }
  }

  /** Of these types only FLOAT and DOUBLE can be declared too narrow: under 4 and under 8 places. */
  lemma RoomyIff(field: Field)
    ensures Roomy(field) <==> (field.kind.Float? ==> field.width >= 4) && (field.kind.Double? ==> field.width >= 8)
  {
  }

  /** A column DOUBLE(5,2) or FLOAT(3,1): every value is written past its block. */
  lemma NarrowColumnsOverrun(table: string, name: string, cell: Cell)
    ensures var double := Field(table, name, 5, Double);
            !Roomy(double) && (cell.Value? && Promised(double, cell) ==> Overruns(double, cell))
    ensures var float := Field(table, name, 3, Float);
            !Roomy(float) && (cell.Value? && Promised(float, cell) ==> Overruns(float, cell))
  {
  }

  /** calloc(1, n) */
  function Zeros(n: nat): (data: seq<Byte>)
    ensures |data| == n
  {
    seq(n, _ => 0)
  }

  /** A row that the server may send. */
  ghost predicate AllPromised(fields: seq<Field>, row: seq<Cell>) {
    |row| == |fields| && forall x :: 0 <= x < |fields| ==> Promised(fields[x], row[x])
  }

  ghost predicate ServerKeepsPromise(fields: seq<Field>, replies: seq<Reply>) {
    forall i :: 0 <= i < |replies| && replies[i].Row? ==> AllPromised(fields, replies[i].cells)
  }

  /** Some column of the row is written past its block. */
  predicate RowOverruns(fields: seq<Field>, row: seq<Cell>)
    requires |row| == |fields|
  {
    exists x :: 0 <= x < |fields| && Overruns(fields[x], row[x])
  }

  // ---------------------------------------------------------------- names

  /** The tables of the first `k` columns. */
  function Tables(fields: seq<Field>, k: nat): set<string>
    requires k <= |fields|
  {
    set x | 0 <= x < k :: fields[x].table
  }

  function FieldName(fields: seq<Field>, extended: bool, x: nat): string
    requires x < |fields|
  {
    if extended || |Tables(fields, x + 1)| > 1
    then fields[x].table + "." + fields[x].name
    else fields[x].name
  }

  function Names(fields: seq<Field>, extended: bool): (names: seq<string>)
    ensures |names| == |fields|
    ensures forall x :: 0 <= x < |fields| ==> names[x] == FieldName(fields, extended, x)
  {
    seq(|fields|, x requires 0 <= x < |fields| => FieldName(fields, extended, x))
  }

  /** Column `x` stands before any change of table. */
  predicate OneTable(fields: seq<Field>, x: nat) {
    x < |fields| && forall i :: 0 <= i <= x ==> fields[i].table == fields[0].table
  }

  /** A column is qualified just when this is asked for or a second table has come up before it or with it. */
  lemma QualifiedIff(fields: seq<Field>, x: nat)
    requires x < |fields|
    ensures |Tables(fields, x + 1)| > 1 <==> !OneTable(fields, x)
  {
    var tables := Tables(fields, x + 1);
    var first := fields[0].table;
    assert first in tables;
    if OneTable(fields, x) {
      assert tables == {first};
    } else {
      var i :| 0 <= i <= x && fields[i].table != first;
      assert {first, fields[i].table} <= tables;
      Subset({first, fields[i].table}, tables);
    }
  }

  lemma {:induction false} Subset(a: set<string>, b: set<string>)
    requires a <= b
    ensures |a| <= |b|
  {
    if a != {} {
      var s :| s in a;
      Subset(a - {s}, b - {s});
    }
  }

  ghost predicate Distinct(names: seq<string>) {
    forall i, j :: 0 <= i < j < |names| ==> names[i] != names[j]
  }

  ghost predicate NoDots(fields: seq<Field>) {
    forall x :: 0 <= x < |fields| ==> '.' !in fields[x].table && '.' !in fields[x].name
  }

  predicate Qualified(fields: seq<Field>, extended: bool, x: nat) {
    extended || !OneTable(fields, x)
  }

  /** `a.b` reaches into `c.d`: c ends at a dot of a, and d is the rest. */
  predicate Reaches(a: string, b: string, c: string, d: string) {
    |c| < |a| && a[..|c|] == c && a[|c|] == '.' && d == a[|c| + 1..] + "." + b
  }

  predicate SameDotted(a: string, b: string, c: string, d: string) {
    (a == c && b == d) || Reaches(a, b, c, d) || Reaches(c, d, a, b)
  }

  /** When two columns get the same name. */
  predicate Clash(fields: seq<Field>, extended: bool, i: nat, j: nat)
    requires i < j < |fields|
  {
    var f, g := fields[i], fields[j];
    if Qualified(fields, extended, i) then SameDotted(f.table, f.name, g.table, g.name)
    else if Qualified(fields, extended, j) then f.name == g.table + "." + g.name
    else f.name == g.name
  }

  lemma SameDottedIff(a: string, b: string, c: string, d: string)
    ensures a + "." + b == c + "." + d <==> SameDotted(a, b, c, d)
  {
    ReachesJoins(a, b, c, d);
    ReachesJoins(c, d, a, b);
    var s, t := a + "." + b, c + "." + d;
    if s == t {
      assert s[..|a|] == a && s[|a| + 1..] == b && t[..|c|] == c && t[|c| + 1..] == d;
      if |c| < |a| {
        DotInside(a, b, c, d);
      } else if |a| < |c| {
        DotInside(c, d, a, b);
      }
    }
  }

  lemma ReachesJoins(a: string, b: string, c: string, d: string)
    ensures Reaches(a, b, c, d) ==> a + "." + b == c + "." + d
  {
    if Reaches(a, b, c, d) {
      assert a == c + "." + a[|c| + 1..];
    }
  }

  lemma DotInside(a: string, b: string, c: string, d: string)
    requires |c| < |a| && a + "." + b == c + "." + d
    ensures Reaches(a, b, c, d)
  {
    var s := a + "." + b;
    assert s[..|c|] == c && s[|c|] == '.' && s[|c| + 1..] == d;
    assert s[|c| + 1..] == a[|c| + 1..] + "." + b;
  }

  lemma ClashIsSameName(fields: seq<Field>, extended: bool, i: nat, j: nat)
    requires i < j < |fields|
    ensures FieldName(fields, extended, i) == FieldName(fields, extended, j) <==> Clash(fields, extended, i, j)
  {
    QualifiedIff(fields, i);
    QualifiedIff(fields, j);
    SameDottedIff(fields[i].table, fields[i].name, fields[j].table, fields[j].name);
    assert Qualified(fields, extended, i) ==> Qualified(fields, extended, j);
  }

  /** The names tell the columns of a query apart exactly when no two columns clash. */
  lemma NamesAreDistinctIff(fields: seq<Field>, extended: bool)
    ensures Distinct(Names(fields, extended))
       <==> forall i, j :: 0 <= i < j < |fields| ==> !Clash(fields, extended, i, j)
  {
    var names := Names(fields, extended);
    forall i, j | 0 <= i < j < |fields| ensures names[i] == names[j] <==> Clash(fields, extended, i, j) {
      ClashIsSameName(fields, extended, i, j);
    }
  }

  /** Two columns of one table and name, both qualified or both not. */
  predicate Alike(fields: seq<Field>, extended: bool, i: nat, j: nat)
    requires i < j < |fields|
  {
    && fields[i].table == fields[j].table
    && fields[i].name == fields[j].name
    && Qualified(fields, extended, i) == Qualified(fields, extended, j)
  }

  lemma AlikeClashes(fields: seq<Field>, extended: bool, i: nat, j: nat)
    requires i < j < |fields|
    ensures Alike(fields, extended, i, j) ==> Clash(fields, extended, i, j)
    ensures NoDots(fields) && Clash(fields, extended, i, j) ==> Alike(fields, extended, i, j)
  {
    HasDot(fields[j].table, fields[j].name);
    assert !Qualified(fields, extended, j) ==> fields[i].table == fields[j].table;
  }

  lemma HasDot(a: string, b: string)
    ensures '.' in a + "." + b
  {
    assert (a + "." + b)[|a|] == '.';
  }

  /** Where no identifier holds a dot, only columns of one table and name can clash. */
  lemma DistinctWithoutDots(fields: seq<Field>, extended: bool)
    ensures Distinct(Names(fields, extended))
        ==> forall i, j :: 0 <= i < j < |fields| ==> !Alike(fields, extended, i, j)
    ensures NoDots(fields) && (forall i, j :: 0 <= i < j < |fields| ==> !Alike(fields, extended, i, j))
        ==> Distinct(Names(fields, extended))
  {
    NamesAreDistinctIff(fields, extended);
    forall i, j | 0 <= i < j < |fields|
      ensures Alike(fields, extended, i, j) ==> Clash(fields, extended, i, j)
      ensures NoDots(fields) && Clash(fields, extended, i, j) ==> Alike(fields, extended, i, j)
    {
      AlikeClashes(fields, extended, i, j);
    }
  }

  /** With a dot in an identifier the names of different columns may be the same. */
  lemma DotsCollide()
    ensures var fields := [Field("a", "b.c", 8, LongLong), Field("a.b", "c", 8, LongLong)];
            Names(fields, true) == ["a.b.c", "a.b.c"] && !Alike(fields, true, 0, 1)
  {
    var fields := [Field("a", "b.c", 8, LongLong), Field("a.b", "c", 8, LongLong)];
    assert "a" + "." + "b.c" == "a.b.c" && "a.b" + "." + "c" == "a.b.c";
    assert FieldName(fields, true, 0) == "a.b.c" && FieldName(fields, true, 1) == "a.b.c";
  }

  // ---------------------------------------------------------------- rows

  /** What one column does to the dictionary of its row. */
  datatype Put = Store(what: Stored) | Skip | Raise(reason: Reason)

  /**
   The object for one column.  A string or time stamp that cannot be made is a nil put into a
   dictionary, and a date-time that cannot be made is left out.
   */
  function Convert(kind: Kind, key: string, cell: Cell, made: Maker): Put {
    match cell
    case Null => Store(NSNull)
    case Value(bytes) =>
      if kind.DateTime? && !made(kind, bytes) then Skip
      else if (kind.String? || kind.VarString? || kind.Timestamp?) && !made(kind, bytes) then Raise(NilObject(key))
      else Store(Object(kind, bytes))
  }

  datatype RowResult = Made(dict: Dict) | Broken(reason: Reason)

  /** The dictionary after the first `k` columns. */
  function RowUpTo(fields: seq<Field>, names: seq<string>, cells: seq<Cell>, made: Maker, k: nat): RowResult
    requires k <= |fields| == |names| == |cells|
  {
    if k == 0 then Made(map[])
    else
      match RowUpTo(fields, names, cells, made, k - 1)
      case Broken(reason) => Broken(reason)
      case Made(dict) =>
        match Convert(fields[k - 1].kind, names[k - 1], cells[k - 1], made)
        case Store(what) => Made(dict[names[k - 1] := what])
        case Skip => Made(dict)
        case Raise(reason) => Broken(reason)
  }

  predicate Shaped(fields: seq<Field>, replies: seq<Reply>) {
    forall i :: 0 <= i < |replies| && replies[i].Row? ==> |replies[i].cells| == |fields|
  }

  /** The rows turned into dictionaries, up to the first reply that fails or overruns. */
  function Rows(fields: seq<Field>, names: seq<string>, replies: seq<Reply>, made: Maker): Outcome
    requires |names| == |fields| && Shaped(fields, replies)
  {
    if replies == [] then Fetched(names, [])
    else
      var n := |replies| - 1;
      match Rows(fields, names, replies[..n], made)
      case Raised(reason) => Raised(reason)
      case Overrun => Overrun
      case Fetched(_, results) =>
        match replies[n]
        case Failure => Raised(FetchFailed)
        case Row(cells) =>
          if RowOverruns(fields, cells) then Overrun
          else
            match RowUpTo(fields, names, cells, made, |fields|)
            case Broken(reason) => Raised(reason)
            case Made(dict) => Fetched(names, results + [dict])
  }

  /** The first column that cannot be bound, or the number of columns. */
  function FirstUnbound(fields: seq<Field>, x: nat): (k: nat)
    requires x <= |fields|
    ensures x <= k <= |fields|
    ensures k < |fields| ==> !Bindable(fields[k].kind)
    ensures forall i :: x <= i < k ==> Bindable(fields[i].kind)
    decreases |fields| - x
  {
    if x == |fields| || !Bindable(fields[x].kind) then x else FirstUnbound(fields, x + 1)
  }

  /** The whole of fetchWithCommand:onConnection:extendedNames: once the statement is prepared. */
  function Result(fields: seq<Field>, extended: bool, bindFails: bool, executeFails: bool,
                  replies: seq<Reply>, made: Maker): Outcome
    requires Shaped(fields, replies)
  {
    var k := FirstUnbound(fields, 0);
    if k < |fields| then Raised(NoBinding(fields[k].kind))
    else if bindFails then Raised(BindFailed)
    else if executeFails then Raised(ExecuteFailed)
    else Rows(fields, Names(fields, extended), replies, made)
  }

  // ---------------------------------------------------------------- what is in the dictionaries

  /** Column `x` puts something into the dictionary of this row. */
  predicate Puts(fields: seq<Field>, names: seq<string>, cells: seq<Cell>, made: Maker, x: nat)
    requires x < |fields| == |names| == |cells|
  {
    Convert(fields[x].kind, names[x], cells[x], made).Store?
  }

  /** Column `x` is the last of the first `k` to put something under its name. */
  ghost predicate PutsLast(fields: seq<Field>, names: seq<string>, cells: seq<Cell>, made: Maker, k: nat, x: int)
    requires k <= |fields| == |names| == |cells|
  {
    && 0 <= x < k && Puts(fields, names, cells, made, x)
    && forall y :: x < y < k && names[y] == names[x] ==> !Puts(fields, names, cells, made, y)
  }

  /** Under `key` stands what the last column of that name has put, if any has. */
  ghost predicate HoldsLast(dict: Dict, fields: seq<Field>, names: seq<string>, cells: seq<Cell>, made: Maker,
                            k: nat, key: string)
    requires k <= |fields| == |names| == |cells|
  {
    && (forall x {:trigger PutsLast(fields, names, cells, made, k, x)} ::
          PutsLast(fields, names, cells, made, k, x) && names[x] == key ==>
            key in dict && dict[key] == Convert(fields[x].kind, key, cells[x], made).what)
    && (key in dict ==>
          exists x {:trigger PutsLast(fields, names, cells, made, k, x)} ::
            PutsLast(fields, names, cells, made, k, x) && names[x] == key)
  }

  /** Under every name stands what the last column of that name put there, and there is nothing else. */
  lemma {:induction false} RowHoldsLast(fields: seq<Field>, names: seq<string>, cells: seq<Cell>, made: Maker,
                                        k: nat, key: string)
    requires k <= |fields| == |names| == |cells|
    requires RowUpTo(fields, names, cells, made, k).Made?
    ensures HoldsLast(RowUpTo(fields, names, cells, made, k).dict, fields, names, cells, made, k, key)
  {
    if k > 0 {
      RowHoldsLast(fields, names, cells, made, k - 1, key);
      forall x | PutsLast(fields, names, cells, made, k, x)
        ensures x < k - 1 ==> PutsLast(fields, names, cells, made, k - 1, x)
      {
      }
      if Puts(fields, names, cells, made, k - 1) && key == names[k - 1] {
        assert PutsLast(fields, names, cells, made, k, k - 1);
      } else if key in RowUpTo(fields, names, cells, made, k).dict {
        var x :| PutsLast(fields, names, cells, made, k - 1, x) && names[x] == key;
        assert PutsLast(fields, names, cells, made, k, x);
      }
    }
  }

  /** A row is broken exactly when one of its columns cannot be stored. */
  lemma {:induction false} RowBreaksIff(fields: seq<Field>, names: seq<string>, cells: seq<Cell>, made: Maker, k: nat)
    requires k <= |fields| == |names| == |cells|
    ensures RowUpTo(fields, names, cells, made, k).Broken?
       <==> exists x :: 0 <= x < k && Convert(fields[x].kind, names[x], cells[x], made).Raise?
  {
    if k > 0 {
      RowBreaksIff(fields, names, cells, made, k - 1);
    }
  }

  /** One dictionary a row, in the order of the rows. */
  lemma {:induction false} OneDictionaryPerRow(fields: seq<Field>, names: seq<string>, replies: seq<Reply>, made: Maker)
    requires |names| == |fields| && Shaped(fields, replies)
    requires Rows(fields, names, replies, made).Fetched?
    ensures var results := Rows(fields, names, replies, made).results;
            && |results| == |replies|
            && forall i :: 0 <= i < |replies| ==>
                 && replies[i].Row?
                 && RowUpTo(fields, names, replies[i].cells, made, |fields|) == Made(results[i])
    decreases |replies|
  {
    if replies != [] {
      OneDictionaryPerRow(fields, names, replies[..|replies| - 1], made);
    }
  }

  /** A row that the server may send and that stays inside its blocks. */
  ghost predicate Arrives(fields: seq<Field>, cells: seq<Cell>) {
    AllPromised(fields, cells) && !RowOverruns(fields, cells)
  }

  /** What every column of every row that arrives puts into the dictionary stays there. */
  ghost predicate NothingLost(fields: seq<Field>, names: seq<string>, made: Maker)
    requires |names| == |fields|
  {
    forall cells, x :: Arrives(fields, cells) && 0 <= x < |fields| ==> ColumnKept(fields, names, cells, made, x)
  }

  ghost predicate ColumnKept(fields: seq<Field>, names: seq<string>, cells: seq<Cell>, made: Maker, x: nat)
    requires x < |fields| == |names| == |cells|
  {
    var row := RowUpTo(fields, names, cells, made, |fields|);
    row.Made? && Puts(fields, names, cells, made, x) ==>
      names[x] in row.dict && row.dict[names[x]] == Convert(fields[x].kind, names[x], cells[x], made).what
  }

  /** A value that arrives in this column and goes into the dictionary. */
  predicate StoredAs(field: Field, made: Maker, bytes: seq<Byte>) {
    && Promised(field, Value(bytes)) && !Overruns(field, Value(bytes))
    && Convert(field.kind, "", Value(bytes), made).Store?
  }

  /** The column can hold anything but NULL. */
  ghost predicate HoldsValues(field: Field, made: Maker) {
    exists bytes :: StoredAs(field, made, bytes)
  }

  /** Two columns of one name, of which at least one can hold more than NULL. */
  ghost predicate Rivals(fields: seq<Field>, extended: bool, made: Maker, i: nat, j: nat)
    requires i < j < |fields|
  {
    Clash(fields, extended, i, j) && (HoldsValues(fields[i], made) || HoldsValues(fields[j], made))
  }

  /**
   A later column replaces an earlier one of the same name: nothing that was put is lost exactly when
   no two columns clash, unless neither of the two can hold anything but NULL.
   */
  lemma NothingIsLostIff(fields: seq<Field>, extended: bool, made: Maker)
    ensures NothingLost(fields, Names(fields, extended), made)
       <==> forall i, j :: 0 <= i < j < |fields| ==> !Rivals(fields, extended, made, i, j)
  {
    var names := Names(fields, extended);
    if i, j :| 0 <= i < j < |fields| && Rivals(fields, extended, made, i, j) {
      ClashIsSameName(fields, extended, i, j);
      var cells, x := LostColumn(fields, names, made, i, j);
      assert !ColumnKept(fields, names, cells, made, x);
    } else {
      forall cells, x | Arrives(fields, cells) && 0 <= x < |fields|
        ensures ColumnKept(fields, names, cells, made, x)
      {
        NoRivalOf(fields, extended, made, x);
        KeptUnlessReplaced(fields, names, cells, made, x);
      }
    }
  }

  lemma NoRivalOf(fields: seq<Field>, extended: bool, made: Maker, x: nat)
    requires x < |fields|
    requires forall i, j :: 0 <= i < j < |fields| ==> !Rivals(fields, extended, made, i, j)
    ensures var names := Names(fields, extended);
            forall y :: x < y < |fields| && names[y] == names[x] ==>
              !HoldsValues(fields[x], made) && !HoldsValues(fields[y], made)
  {
    forall y | x < y < |fields| && FieldName(fields, extended, x) == FieldName(fields, extended, y)
      ensures !HoldsValues(fields[x], made) && !HoldsValues(fields[y], made)
    {
      ClashIsSameName(fields, extended, x, y);
      assert !Rivals(fields, extended, made, x, y);
    }
  }

  /** What a column should become. */
  function Image(field: Field, cell: Cell): Stored {
    match cell
    case Null => NSNull
    case Value(bytes) => Object(field.kind, bytes)
  }

  /** Every column of the row is in its dictionary, NULL or with all its bytes. */
  predicate Whole(fields: seq<Field>, names: seq<string>, cells: seq<Cell>, dict: Dict)
    requires |fields| == |names| == |cells|
  {
    forall x :: 0 <= x < |fields| ==> names[x] in dict && dict[names[x]] == Image(fields[x], cells[x])
  }

  /** Every row that arrives and is not broken comes through whole. */
  ghost predicate RowsComeWhole(fields: seq<Field>, names: seq<string>, made: Maker)
    requires |names| == |fields|
  {
    forall cells {:trigger Arrives(fields, cells)} :: Arrives(fields, cells) ==>
      var row := RowUpTo(fields, names, cells, made, |fields|);
      row.Made? ==> Whole(fields, names, cells, row.dict)
  }

  /** A date-time that arrives and that Cocoa makes no date of. */
  predicate SkippedAs(field: Field, made: Maker, bytes: seq<Byte>) {
    && field.kind.DateTime? && !made(DateTime, bytes)
    && Promised(field, Value(bytes)) && !Overruns(field, Value(bytes))
  }

  ghost predicate Skips(field: Field, made: Maker) {
    exists bytes :: SkippedAs(field, made, bytes)
  }

  /**
   Rows come through whole exactly when no column can replace another and no date-time can be left
   out.
   */
  lemma RowsComeWholeIff(fields: seq<Field>, extended: bool, made: Maker)
    ensures RowsComeWhole(fields, Names(fields, extended), made)
       <==> && (forall i, j :: 0 <= i < j < |fields| ==> !Rivals(fields, extended, made, i, j))
            && (forall x :: 0 <= x < |fields| ==> !Skips(fields[x], made))
  {
    var names := Names(fields, extended);
    NothingIsLostIff(fields, extended, made);
    if x :| 0 <= x < |fields| && Skips(fields[x], made) {
      SkippingLoses(fields, names, made, x);
    } else if NothingLost(fields, names, made) {
      forall cells | Arrives(fields, cells) && RowUpTo(fields, names, cells, made, |fields|).Made?
        ensures Whole(fields, names, cells, RowUpTo(fields, names, cells, made, |fields|).dict)
      {
        KeptIsWhole(fields, names, cells, made);
      }
    } else {
      var cells, x :| Arrives(fields, cells) && 0 <= x < |fields| && !ColumnKept(fields, names, cells, made, x);
      assert !Whole(fields, names, cells, RowUpTo(fields, names, cells, made, |fields|).dict);
    }
  }

  // Without skipped values, every column puts its image.
  lemma KeptIsWhole(fields: seq<Field>, names: seq<string>, cells: seq<Cell>, made: Maker)
    requires |names| == |fields| && Arrives(fields, cells) && NothingLost(fields, names, made)
    requires forall x :: 0 <= x < |fields| ==> !Skips(fields[x], made)
    requires RowUpTo(fields, names, cells, made, |fields|).Made?
    ensures Whole(fields, names, cells, RowUpTo(fields, names, cells, made, |fields|).dict)
  {
    RowBreaksIff(fields, names, cells, made, |fields|);
    var dict := RowUpTo(fields, names, cells, made, |fields|).dict;
    forall x | 0 <= x < |fields| ensures names[x] in dict && dict[names[x]] == Image(fields[x], cells[x]) {
      if Convert(fields[x].kind, names[x], cells[x], made).Skip? {
        assert SkippedAs(fields[x], made, cells[x].bytes);
      }
      assert ColumnKept(fields, names, cells, made, x);
    }
  }

  // A row whose only value is skipped stores nothing but NULLs.
  lemma {:induction false} OnlyNullsStored(fields: seq<Field>, names: seq<string>, cells: seq<Cell>, made: Maker,
                                           k: nat)
    requires k <= |fields| == |names| == |cells|
    requires forall x :: 0 <= x < |fields| ==> cells[x].Null? || Convert(fields[x].kind, names[x], cells[x], made).Skip?
    ensures var row := RowUpTo(fields, names, cells, made, k);
            row.Made? && forall key :: key in row.dict ==> row.dict[key] == NSNull
  {
    if k > 0 {
      OnlyNullsStored(fields, names, cells, made, k - 1);
    }
  }

  lemma SkippingLoses(fields: seq<Field>, names: seq<string>, made: Maker, x: nat)
    requires x < |fields| == |names| && Skips(fields[x], made)
    ensures !RowsComeWhole(fields, names, made)
  {
    var bytes :| SkippedAs(fields[x], made, bytes);
    var cells := OneValue(|fields|, x, bytes);
    assert Arrives(fields, cells);
    OnlyNullsStored(fields, names, cells, made, |fields|);
    assert !Whole(fields, names, cells, RowUpTo(fields, names, cells, made, |fields|).dict);
  }

  /** One DATETIME column, and no date can be made of its value: the dictionary is empty, and no exception comes. */
  lemma DateTimeIsLeftOut(made: Maker)
    requires !made(DateTime, Zeros(TIME_SIZE))
    ensures var fields, cells := [Field("t", "d", 19, DateTime)], [Value(Zeros(TIME_SIZE))];
            Arrives(fields, cells) && Rows(fields, ["d"], [Row(cells)], made) == Fetched(["d"], [map[]])
  {
    var fields, cells := [Field("t", "d", 19, DateTime)], [Value(Zeros(TIME_SIZE))];
    assert [Row(cells)][..0] == [];
    assert Convert(fields[0].kind, "d", cells[0], made).Skip?;
    assert RowUpTo(fields, ["d"], cells, made, 0) == Made(map[]);
    assert RowUpTo(fields, ["d"], cells, made, 1) == Made(map[]);
    assert Rows(fields, ["d"], [], made) == Fetched(["d"], []);
  }

  /** Column `y` leaves what column `x` has put. */
  predicate Spares(fields: seq<Field>, names: seq<string>, cells: seq<Cell>, made: Maker, x: nat, y: nat)
    requires x < |fields| == |names| == |cells| && y < |fields|
  {
    names[y] == names[x] && Puts(fields, names, cells, made, y) ==>
      Convert(fields[y].kind, names[y], cells[y], made) == Convert(fields[x].kind, names[x], cells[x], made)
  }

  lemma {:induction false} KeptUpTo(fields: seq<Field>, names: seq<string>, cells: seq<Cell>, made: Maker,
                                    x: nat, k: nat)
    requires x < k <= |fields| == |names| == |cells|
    requires RowUpTo(fields, names, cells, made, k).Made? && Puts(fields, names, cells, made, x)
    requires forall y :: x < y < k ==> Spares(fields, names, cells, made, x, y)
    ensures var dict := RowUpTo(fields, names, cells, made, k).dict;
            names[x] in dict && dict[names[x]] == Convert(fields[x].kind, names[x], cells[x], made).what
  {
    if x < k - 1 {
      assert Spares(fields, names, cells, made, x, k - 1);
      KeptUpTo(fields, names, cells, made, x, k - 1);
    }
  }

  // Columns that can only be NULL put the same.
  lemma KeptUnlessReplaced(fields: seq<Field>, names: seq<string>, cells: seq<Cell>, made: Maker, x: nat)
    requires x < |fields| == |names| && Arrives(fields, cells)
    requires forall y :: x < y < |fields| && names[y] == names[x] ==>
               !HoldsValues(fields[x], made) && !HoldsValues(fields[y], made)
    ensures ColumnKept(fields, names, cells, made, x)
  {
    if RowUpTo(fields, names, cells, made, |fields|).Made? && Puts(fields, names, cells, made, x) {
      forall y | x < y < |fields| ensures Spares(fields, names, cells, made, x, y) {
        if names[y] == names[x] && Puts(fields, names, cells, made, y) {
          OnlyNull(fields[x], names[x], cells[x], made);
          OnlyNull(fields[y], names[y], cells[y], made);
        }
      }
      KeptUpTo(fields, names, cells, made, x, |fields|);
    }
  }

  lemma OnlyNull(field: Field, key: string, cell: Cell, made: Maker)
    requires !HoldsValues(field, made) && Promised(field, cell) && !Overruns(field, cell)
    requires Convert(field.kind, key, cell, made).Store?
    ensures cell.Null?
  {
    if cell.Value? {
      assert StoredAs(field, made, cell.bytes);
    }
  }

  // A row of which only column `j` is not NULL.
  function OneValue(n: nat, j: nat, bytes: seq<Byte>): (cells: seq<Cell>)
    ensures |cells| == n && forall x :: 0 <= x < n ==> cells[x] == if x == j then Value(bytes) else Null
  {
    seq(n, x => if x == j then Value(bytes) else Null)
  }

  // Of the row with a value in one of the two columns alone, either that value or the NULL of the other is gone.
  lemma LostColumn(fields: seq<Field>, names: seq<string>, made: Maker, i: nat, j: nat)
    returns (cells: seq<Cell>, x: nat)
    requires i < j < |fields| == |names| && names[i] == names[j]
    requires HoldsValues(fields[i], made) || HoldsValues(fields[j], made)
    ensures Arrives(fields, cells) && x < |fields| && !ColumnKept(fields, names, cells, made, x)
  {
    var v := if HoldsValues(fields[i], made) then i else j;
    var bytes :| StoredAs(fields[v], made, bytes);
    cells := OneValue(|fields|, v, bytes);
    RowBreaksIff(fields, names, cells, made, |fields|);
    assert Puts(fields, names, cells, made, i) && Puts(fields, names, cells, made, j);
    x := if ColumnKept(fields, names, cells, made, i) then j else i;
  }

  /** Every blob of every row reaches its dictionary whole, however long it is, if no later column clashes with it. */
  lemma BlobsAreWhole(fields: seq<Field>, extended: bool, bindFails: bool, executeFails: bool, replies: seq<Reply>,
                      made: Maker, i: nat, x: nat)
    requires Shaped(fields, replies) && i < |replies| && x < |fields|
    requires Result(fields, extended, bindFails, executeFails, replies, made).Fetched?
    requires fields[x].kind.Blob? && forall y :: x < y < |fields| ==> !Clash(fields, extended, x, y)
    ensures var r := Result(fields, extended, bindFails, executeFails, replies, made);
            && r.names == Names(fields, extended) && |r.results| == |replies| && replies[i].Row?
            && r.names[x] in r.results[i]
            && r.results[i][r.names[x]] == match replies[i].cells[x]
                                           case Null => NSNull
                                           case Value(bytes) => Object(Blob, bytes)
  {
    var names := Names(fields, extended);
    RowsKeepNames(fields, names, replies, made);
    OneDictionaryPerRow(fields, names, replies, made);
    forall y | x < y < |fields| ensures names[x] != names[y] {
      ClashIsSameName(fields, extended, x, y);
    }
    KeptUpTo(fields, names, replies[i].cells, made, x, |fields|);
  }

  lemma {:induction false} RowsKeepNames(fields: seq<Field>, names: seq<string>, replies: seq<Reply>, made: Maker)
    requires |names| == |fields| && Shaped(fields, replies)
    requires Rows(fields, names, replies, made).Fetched?
    ensures Rows(fields, names, replies, made).names == names
    decreases |replies|
  {
    if replies != [] {
      RowsKeepNames(fields, names, replies[..|replies| - 1], made);
    }
  }

  /**
   Results come back exactly when every type can be bound, no call fails, every value fits its block,
   and every string and time stamp can be made.  A date-time that cannot be made stops nothing.
   */
  lemma FetchesIff(fields: seq<Field>, extended: bool, bindFails: bool, executeFails: bool,
                   replies: seq<Reply>, made: Maker)
    requires Shaped(fields, replies)
    ensures Result(fields, extended, bindFails, executeFails, replies, made).Fetched?
       <==> && (forall x :: 0 <= x < |fields| ==> !WithoutBinding(fields[x].kind))
            && !bindFails && !executeFails
            && (forall i :: 0 <= i < |replies| ==> Readable(fields, Names(fields, extended), replies[i], made))
  {
    var k := FirstUnbound(fields, 0);
    RowsFetchIff(fields, Names(fields, extended), replies, made);
  }

  /** One column of a type without binding: an exception, at which FetchBuffers.FetchWithCommand frees nothing. */
  lemma LongBlobRaises(table: string, name: string, width: nat, extended: bool, replies: seq<Reply>, made: Maker)
    requires Shaped([Field(table, name, width, LongBlob)], replies)
    ensures Result([Field(table, name, width, LongBlob)], extended, false, false, replies, made)
         == Raised(NoBinding(LongBlob))
  {
  }

  /** A string or a time stamp of which no object can be made. */
  predicate NilStored(kind: Kind, cell: Cell, made: Maker) {
    (kind == String || kind == VarString || kind == Timestamp) && cell.Value? && !made(kind, cell.bytes)
  }

  /** A type for which there is no binding: the small and large blobs and all types not listed. */
  predicate WithoutBinding(kind: Kind) {
    kind == TinyBlob || kind == MediumBlob || kind == LongBlob || kind.Other?
  }

  /** A row all of whose values fit their blocks, and none of which is a nil put into the dictionary. */
  ghost predicate Readable(fields: seq<Field>, names: seq<string>, reply: Reply, made: Maker)
    requires |names| == |fields|
  {
    && reply.Row? && |reply.cells| == |fields|
    && !RowOverruns(fields, reply.cells)
    && forall x :: 0 <= x < |fields| ==> !NilStored(fields[x].kind, reply.cells[x], made)
  }

  lemma {:induction false} RowsFetchIff(fields: seq<Field>, names: seq<string>, replies: seq<Reply>, made: Maker)
    requires |names| == |fields| && Shaped(fields, replies)
    ensures Rows(fields, names, replies, made).Fetched?
       <==> forall i :: 0 <= i < |replies| ==> Readable(fields, names, replies[i], made)
    decreases |replies|
  {
    if replies != [] {
      var n := |replies| - 1;
      RowsFetchIff(fields, names, replies[..n], made);
      if replies[n].Row? {
        RowBreaksIff(fields, names, replies[n].cells, made, |fields|);
      }
      assert forall i :: 0 <= i < n ==> replies[..n][i] == replies[i];
    }
  }

  /** Before any row: the first type without a binding, else a failed bind, else a failed execute. */
  lemma FirstReason(fields: seq<Field>, extended: bool, bindFails: bool, executeFails: bool,
                    replies: seq<Reply>, made: Maker)
    requires Shaped(fields, replies)
    ensures var r := Result(fields, extended, bindFails, executeFails, replies, made);
      && (forall x :: 0 <= x < |fields| && WithoutBinding(fields[x].kind)
                      && (forall y :: 0 <= y < x ==> !WithoutBinding(fields[y].kind)) ==>
            r == Raised(NoBinding(fields[x].kind)))
      && ((forall x :: 0 <= x < |fields| ==> !WithoutBinding(fields[x].kind)) ==>
            && (bindFails ==> r == Raised(BindFailed))
            && (!bindFails && executeFails ==> r == Raised(ExecuteFailed)))
  {
  }

  /** Of the rows, the first that cannot be read decides: an overrun, a failed fetch, or the first nil stored. */
  lemma {:induction false} FirstUnreadable(fields: seq<Field>, names: seq<string>, replies: seq<Reply>, made: Maker,
                                           i: nat)
    requires |names| == |fields| && Shaped(fields, replies) && i < |replies|
    requires forall j :: 0 <= j < i ==> Readable(fields, names, replies[j], made)
    ensures var r := Rows(fields, names, replies[..i + 1], made);
      match replies[i]
      case Failure => r == Raised(FetchFailed)
      case Row(cells) =>
        && (RowOverruns(fields, cells) ==> r == Overrun)
        && (!RowOverruns(fields, cells) ==>
              forall x :: 0 <= x < |fields| && NilStored(fields[x].kind, cells[x], made)
                          && (forall y :: 0 <= y < x ==> !NilStored(fields[y].kind, cells[y], made)) ==>
                r == Raised(NilObject(names[x])))
  {
    assert replies[..i + 1][..i] == replies[..i];
    RowsFetchIff(fields, names, replies[..i], made);
    if replies[i].Row? {
      forall x | 0 <= x < |fields| && NilStored(fields[x].kind, replies[i].cells[x], made)
                 && (forall y :: 0 <= y < x ==> !NilStored(fields[y].kind, replies[i].cells[y], made))
        ensures RowUpTo(fields, names, replies[i].cells, made, |fields|) == Broken(NilObject(names[x]))
      {
        BreaksAt(fields, names, replies[i].cells, made, x, |fields|);
      }
    }
  }

  lemma {:induction false} BreaksAt(fields: seq<Field>, names: seq<string>, cells: seq<Cell>, made: Maker,
                                    x: nat, k: nat)
    requires x < k <= |fields| == |names| == |cells| && NilStored(fields[x].kind, cells[x], made)
    requires forall y :: 0 <= y < x ==> !NilStored(fields[y].kind, cells[y], made)
    ensures RowUpTo(fields, names, cells, made, k) == Broken(NilObject(names[x]))
  {
    if x < k - 1 {
      BreaksAt(fields, names, cells, made, x, k - 1);
    } else {
      RowBreaksIff(fields, names, cells, made, x);
    }
  }

  // ---------------------------------------------------------------- writing past a block

  ghost predicate AllBindable(fields: seq<Field>) {
    forall x :: 0 <= x < |fields| ==> Bindable(fields[x].kind)
  }

  ghost predicate AllRoomy(fields: seq<Field>) {
    forall x :: 0 <= x < |fields| ==> Roomy(fields[x])
  }

  /** Whatever rows a server that keeps its promise sends, none is written past its block. */
  ghost predicate NeverOverruns(fields: seq<Field>, extended: bool, bindFails: bool, executeFails: bool, made: Maker) {
    forall replies :: Shaped(fields, replies) && ServerKeepsPromise(fields, replies) ==>
      Result(fields, extended, bindFails, executeFails, replies, made) != Overrun
  }

  /** A query whose rows are read at all is safe exactly if every column is roomy. */
  lemma NeverOverrunsIff(fields: seq<Field>, extended: bool, bindFails: bool, executeFails: bool, made: Maker)
    ensures NeverOverruns(fields, extended, bindFails, executeFails, made)
       <==> !AllBindable(fields) || bindFails || executeFails || AllRoomy(fields)
  {
    if AllBindable(fields) && !bindFails && !executeFails {
      var names := Names(fields, extended);
      if AllRoomy(fields) {
        forall replies | Shaped(fields, replies) && ServerKeepsPromise(fields, replies)
          ensures Result(fields, extended, bindFails, executeFails, replies, made) != Overrun
        {
          RoomyRows(fields, names, replies, made);
        }
      } else {
        var x :| 0 <= x < |fields| && !Roomy(fields[x]);
        var row := OneValue(|fields|, x, Zeros(FixedSize(fields[x].kind).value));
        assert Overruns(fields[x], row[x]);
        OneRowOverruns(fields, names, row, made);
        assert Shaped(fields, [Row(row)]) && ServerKeepsPromise(fields, [Row(row)]);
      }
    }
  }

  lemma OneRowOverruns(fields: seq<Field>, names: seq<string>, row: seq<Cell>, made: Maker)
    requires |names| == |fields| == |row| && RowOverruns(fields, row)
    ensures Rows(fields, names, [Row(row)], made) == Overrun
  {
    assert [Row(row)][..0] == [];
  }

  lemma {:induction false} RoomyRows(fields: seq<Field>, names: seq<string>, replies: seq<Reply>, made: Maker)
    requires AllBindable(fields) && AllRoomy(fields) && |names| == |fields|
    requires Shaped(fields, replies) && ServerKeepsPromise(fields, replies)
    ensures Rows(fields, names, replies, made) != Overrun
    decreases |replies|
  {
    if replies != [] {
      var n := |replies| - 1;
      RoomyRows(fields, names, replies[..n], made);
      if replies[n].Row? {
        assert AllPromised(fields, replies[n].cells);
        assert !RowOverruns(fields, replies[n].cells);
      }
    }
  }
}
