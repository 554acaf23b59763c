/** Values shared by every binding: the binding kind, declared columns, column
    references before and after binding, the result of a bind and the select
    list that wildcard expansion appends to. */
module BindingTypes {
  import opened Wrappers

  /** An unsigned byte, the storage type of the binding kind. */
  newtype uint8 = x: int | 0 <= x < 256

  /** The four kinds of binding. */
  datatype BindingType = Table | Subquery | TableFunction | Generic

  /** The byte value the source assigns to each kind. */
  function ToByte(k: BindingType): (b: uint8)
    ensures b < 4
  {
    match k
    case Table => 0
    case Subquery => 1
    case TableFunction => 2
    case Generic => 3
  }

  /** Decodes a stored byte; only the four assigned values are kinds. */
  function FromByte(b: uint8): (r: Option<BindingType>)
    ensures r.Some? <==> b < 4
    ensures r.Some? ==> ToByte(r.value) == b
  {
    if b == 0 then Some(Table)
    else if b == 1 then Some(Subquery)
    else if b == 2 then Some(TableFunction)
    else if b == 3 then Some(Generic)
    else None
  }

  /** Encoding a kind and decoding it again gives the same kind back. */
  lemma ByteRoundTrip(k: BindingType)
    ensures FromByte(ToByte(k)) == Some(k)
  {
  }

  /** A declared SQL type. Only its identity matters to the bindings. */
  type SqlType

  /** A declared column of a base table, in catalog order. */
  datatype Column = Column(name: string, sqlType: SqlType)

  /** An unresolved column reference, optionally qualified by a table name.
      Every entry a wildcard expansion appends has this shape too. */
  datatype ColumnRef = ColumnRef(columnName: string, tableName: string)

  /** A resolved column: the table index of the binding it came from, the
      column's position in that binding, its type, and the depth the caller
      resolved it at. */
  datatype BoundColumnRef = BoundColumnRef(tableIndex: nat, columnIndex: nat, sqlType: SqlType, depth: nat)

  /** The outcome of binding one column reference against one binding. */
  datatype BindResult = Bound(column: BoundColumnRef) | NotFound(columnName: string)

  /** Raised while a binding is built from a list of column names. */
  datatype BindError = DuplicateColumnName(alias: string, columnName: string)

  /** A caller-owned select list. */
  class SelectList {
    var entries: seq<ColumnRef>

    constructor ()
      ensures entries == []
    {
      entries := [];
    }

    method Push(entry: ColumnRef)
      modifies this
      ensures entries == old(entries) + [entry]
    {
      entries := entries + [entry];
    }
  }

  /** One reference per name, in the order of `names`, each qualified by `alias`. */
  function QualifiedRefs(alias: string, names: seq<string>): (r: seq<ColumnRef>)
    ensures |r| == |names|
    ensures forall i :: 0 <= i < |names| ==> r[i] == ColumnRef(names[i], alias)
    decreases |names|
  {
    if names == [] then []
    else QualifiedRefs(alias, names[..|names| - 1]) + [ColumnRef(names[|names| - 1], alias)]
  }

  /** Appending one name to the list appends its one reference. */
  lemma QualifiedRefsSnoc(alias: string, names: seq<string>, i: nat)
    requires i < |names|
    ensures QualifiedRefs(alias, names[..i + 1]) == QualifiedRefs(alias, names[..i]) + [ColumnRef(names[i], alias)]
  {
    assert names[..i + 1][..i] == names[..i];
  }

  /** The names of a list of columns, in order. */
  function ColumnNames(columns: seq<Column>): seq<string>
  {
    seq(|columns|, i requires 0 <= i < |columns| => columns[i].name)
  }

  /** The types of a list of columns, in order. */
  function ColumnTypes(columns: seq<Column>): seq<SqlType>
  {
    seq(|columns|, i requires 0 <= i < |columns| => columns[i].sqlType)
  }

  /** The position of the first column called `name`, if there is one. */
  function FindColumn(columns: seq<Column>, name: string): (r: Option<nat>)
    ensures r.None? <==> name !in ColumnNames(columns)
    ensures r.Some? ==> r.value < |columns| && columns[r.value].name == name
    ensures r.Some? ==> forall j :: 0 <= j < r.value ==> columns[j].name != name
  {
    if columns == [] then None
    else
      assert ColumnNames(columns) == [columns[0].name] + ColumnNames(columns[1..]);
      if columns[0].name == name then Some(0)
      else match FindColumn(columns[1..], name)
      case None => None
      case Some(i) => Some(i + 1)
  }
}
