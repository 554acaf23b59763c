/** The bindings of the planner. A binding is a named source of columns that
    carries a table index: a base table, a subquery, or a generic list of
    typed names. Each answers whether it has a column, resolves a column
    reference at a depth the caller supplies, and appends all of its columns
    to a select list. */
module TableBindings {
  import opened Wrappers
  import opened BindingTypes
  import NameIndex

  /** The bound base table a table binding refers to: its table index and
      its declared columns in catalog order. */
  datatype BoundTable = BoundTable(tableIndex: nat, columns: seq<Column>)

  /** The bound subquery a subquery binding refers to: its output column
      names and their types, position by position. */
  datatype BoundQueryNode = BoundQueryNode(names: seq<string>, types: seq<SqlType>)

  /** A binding to a base table; its columns are the table's declared columns. */
  class TableBinding {
    const kind: BindingType
    const alias: string
    const index: nat
    const columns: seq<Column>

    /** The table index comes from the bound table. */
    constructor (alias: string, bound: BoundTable)
      ensures kind == Table && this.alias == alias && index == bound.tableIndex && columns == bound.columns
    {
      kind := Table;
      this.alias := alias;
      index := bound.tableIndex;
      columns := bound.columns;
    }

    /** Whether the table declares a column called `columnName`. */
    function HasMatchingBinding(columnName: string): (r: bool)
      ensures r <==> columnName in ColumnNames(columns)
    {
      FindColumn(columns, columnName).Some?
    }

    /** Resolves `colref` by its column name to the table's column of that name. */
    function Bind(colref: ColumnRef, depth: nat): (r: BindResult)
      ensures r.Bound? <==> HasMatchingBinding(colref.columnName)
      ensures r.Bound? ==>
                && r.column.tableIndex == index
                && r.column.depth == depth
                && r.column.columnIndex < |columns|
                && columns[r.column.columnIndex].name == colref.columnName
                && r.column.sqlType == columns[r.column.columnIndex].sqlType
                && (forall j :: 0 <= j < r.column.columnIndex ==> columns[j].name != colref.columnName)
      ensures r.NotFound? ==> r.columnName == colref.columnName
    {
      match FindColumn(columns, colref.columnName)
      case None => NotFound(colref.columnName)
      case Some(i) => Bound(BoundColumnRef(index, i, columns[i].sqlType, depth))
    }

    /** Appends one reference per declared column, in catalog order. */
    method GenerateAllColumnExpressions(selectList: SelectList)
      modifies selectList
      ensures selectList.entries == old(selectList.entries) + QualifiedRefs(alias, ColumnNames(columns))
    {
      ghost var names := ColumnNames(columns);
      for i := 0 to |columns|
        invariant selectList.entries == old(selectList.entries) + QualifiedRefs(alias, names[..i])
      {
        QualifiedRefsSnoc(alias, names, i);
        selectList.Push(ColumnRef(columns[i].name, alias));
      }
      assert names[..|columns|] == names;
    }
  }

  /** A binding to a subquery; its columns are the subquery's output names,
      added one at a time by `AddName`. */
  class SubqueryBinding {
    const kind: BindingType
    const alias: string
    const index: nat
    const types: seq<SqlType>
    const policy: NameIndex.DuplicatePolicy
    var names: seq<string>
    var nameMap: map<string, nat>

    function NameTable(): NameIndex.NameTable
      reads this
    {
      NameIndex.NameTable(names, nameMap)
    }

    /** The names and map are what adding the names in order produced (so the
        map inverts the names, by `NameIndex.BuildConsistent`). */
    ghost predicate Built()
      reads this
    {
      kind == Subquery && NameIndex.Build(policy, names) == Some(NameTable())
    }

    /** Construction is complete: every output column has its name. */
    ghost predicate Valid()
      reads this
    {
      Built() && |names| == |types|
    }

    constructor Empty(alias: string, types: seq<SqlType>, index: nat, policy: NameIndex.DuplicatePolicy)
      ensures Built() && names == [] && nameMap == map[]
      ensures this.alias == alias && this.types == types && this.index == index && this.policy == policy
    {
      kind := Subquery;
      this.alias := alias;
      this.index := index;
      this.types := types;
      this.policy := policy;
      names := [];
      nameMap := map[];
    }

    /** Builds the binding from the subquery's output, adding its names in order.
        Under the rejecting policy a repeated name is an error. */
    static method Create(alias: string, subquery: BoundQueryNode, index: nat, policy: NameIndex.DuplicatePolicy)
      returns (r: Result<SubqueryBinding, BindError>)
      requires |subquery.names| == |subquery.types|
      ensures r.Success? <==> NameIndex.Build(policy, subquery.names).Some?
      ensures r.Success? ==>
                && fresh(r.value) && r.value.Valid()
                && r.value.alias == alias && r.value.index == index && r.value.policy == policy
                && r.value.names == subquery.names && r.value.types == subquery.types
      ensures r.Failure? ==>
                && policy == NameIndex.RejectDuplicate && r.error.alias == alias
                && exists i, j :: 0 <= i < j < |subquery.names|
                                  && subquery.names[i] == r.error.columnName && subquery.names[j] == r.error.columnName
    {
      var b := new SubqueryBinding.Empty(alias, subquery.types, index, policy);
      for i := 0 to |subquery.names|
        invariant fresh(b) && b.Built() && b.names == subquery.names[..i]
      {
        ghost var t := b.NameTable();
        assert NameIndex.Build(policy, subquery.names[..i]) == Some(t);
        var added := b.AddName(subquery.names[i]);
        if !added {
          assert NameIndex.AddName(policy, t, subquery.names[i]).None?;
          ghost var j := NameIndex.BuildFailsAtRejectedName(policy, subquery.names, i);
          assert j < i < |subquery.names| && subquery.names[j] == subquery.names[i];
          return Failure(DuplicateColumnName(alias, subquery.names[i]));
        }
        NameIndex.PrefixSnoc(subquery.names, i);
      }
      assert subquery.names[..|subquery.names|] == subquery.names;
      return Success(b);
    }

    /** Appends `name` to `names` and records its position in `nameMap`
        according to the duplicate policy; a rejected name changes nothing. */
    method AddName(name: string) returns (added: bool)
      requires Built()
      modifies this
      ensures Built()
      ensures added <==> !(policy == NameIndex.RejectDuplicate && name in old(names))
      ensures added <==> NameIndex.AddName(policy, old(NameTable()), name).Some?
      ensures added ==> names == old(names) + [name]
      ensures added ==> NameTable() == NameIndex.AddName(policy, old(NameTable()), name).value
      ensures !added ==> names == old(names) && nameMap == old(nameMap)
    {
      NameIndex.BuiltKeysAreNames(policy, NameTable(), name);
      NameIndex.BuildSnoc(policy, names, name);
      if name !in nameMap || policy == NameIndex.KeepLast {
        nameMap := nameMap[name := |names|];
        names := names + [name];
        added := true;
      } else if policy == NameIndex.KeepFirst {
        names := names + [name];
        added := true;
      } else {
        added := false;
      }
    }

    /** Whether the subquery has an output column called `columnName`. */
    function HasMatchingBinding(columnName: string): (r: bool)
      reads this
      requires Valid()
      ensures r <==> columnName in names
    {
      NameIndex.BuiltKeysAreNames(policy, NameTable(), columnName);
      columnName in nameMap
    }

    /** Resolves `colref` through `nameMap` to a position of the subquery's output. */
    function Bind(colref: ColumnRef, depth: nat): (r: BindResult)
      reads this
      requires Valid()
      ensures r.Bound? <==> HasMatchingBinding(colref.columnName)
      ensures r.Bound? ==>
                && r.column.tableIndex == index
                && r.column.depth == depth
                && r.column.columnIndex < |names|
                && names[r.column.columnIndex] == colref.columnName
                && r.column.sqlType == types[r.column.columnIndex]
      ensures r.NotFound? ==> r.columnName == colref.columnName
    {
      if colref.columnName in nameMap then
        NameIndex.BuiltLookup(policy, NameTable(), colref.columnName);
        var i := nameMap[colref.columnName];
        Bound(BoundColumnRef(index, i, types[i], depth))
      else
        NotFound(colref.columnName)
    }

    /** Appends one reference per output column, in `names` order. */
    method GenerateAllColumnExpressions(selectList: SelectList)
      modifies selectList
      ensures selectList.entries == old(selectList.entries) + QualifiedRefs(alias, names)
    {
      for i := 0 to |names|
        invariant selectList.entries == old(selectList.entries) + QualifiedRefs(alias, names[..i])
      {
        QualifiedRefsSnoc(alias, names, i);
        selectList.Push(ColumnRef(names[i], alias));
      }
      assert names[..|names|] == names;
    }
  }

  /** A binding to an explicit list of typed column names. */
  class GenericBinding {
    const kind: BindingType
    const alias: string
    const index: nat
    const types: seq<SqlType>
    const names: seq<string>
    const nameMap: map<string, nat>
    const policy: NameIndex.DuplicatePolicy

    function NameTable(): NameIndex.NameTable
    {
      NameIndex.NameTable(names, nameMap)
    }

    /** `types` runs parallel to `names`, and the map is what adding the names
        in order produced (so it inverts them, by `NameIndex.BuildConsistent`). */
    ghost predicate Valid() {
      && kind == Generic
      && |types| == |names|
      && NameIndex.Build(policy, names) == Some(NameTable())
    }

    constructor FromParts(alias: string, types: seq<SqlType>, names: seq<string>, nameMap: map<string, nat>,
                          index: nat, policy: NameIndex.DuplicatePolicy)
      ensures kind == Generic && this.alias == alias && this.index == index && this.policy == policy
      ensures this.types == types && this.names == names && this.nameMap == nameMap
    {
      kind := Generic;
      this.alias := alias;
      this.index := index;
      this.types := types;
      this.names := names;
      this.nameMap := nameMap;
      this.policy := policy;
    }

    /** Stores `types` and `names` and fills the map position by position.
        Under the rejecting policy a repeated name is an error. */
    static method Create(alias: string, types: seq<SqlType>, names: seq<string>, index: nat,
                         policy: NameIndex.DuplicatePolicy)
      returns (r: Result<GenericBinding, BindError>)
      requires |types| == |names|
      ensures r.Success? <==> NameIndex.Build(policy, names).Some?
      ensures r.Success? ==>
                && fresh(r.value) && r.value.Valid()
                && r.value.alias == alias && r.value.index == index && r.value.policy == policy
                && r.value.names == names && r.value.types == types
      ensures r.Failure? ==>
                && policy == NameIndex.RejectDuplicate && r.error.alias == alias
                && exists i, j :: 0 <= i < j < |names| && names[i] == r.error.columnName && names[j] == r.error.columnName
    {
      var nameMap: map<string, nat> := map[];
      for i := 0 to |names|
        invariant NameIndex.Build(policy, names[..i]) == Some(NameIndex.NameTable(names[..i], nameMap))
      {
        var name := names[i];
        NameIndex.BuildStep(policy, names, i, NameIndex.NameTable(names[..i], nameMap));
        match NameIndex.AddName(policy, NameIndex.NameTable(names[..i], nameMap), name)
        case None =>
          ghost var j := NameIndex.BuildFailsAtRejectedName(policy, names, i);
          return Failure(DuplicateColumnName(alias, name));
        case Some(t) =>
          nameMap := t.nameMap;
      }
      assert names[..|names|] == names;
      var g := new GenericBinding.FromParts(alias, types, names, nameMap, index, policy);
      return Success(g);
    }

    /** Whether the list has a column called `columnName`. */
    function HasMatchingBinding(columnName: string): (r: bool)
      requires Valid()
      ensures r <==> columnName in names
    {
      NameIndex.BuiltKeysAreNames(policy, NameTable(), columnName);
      columnName in nameMap
    }

    /** Resolves `colref` through `nameMap`; the type is the parallel entry of `types`. */
    function Bind(colref: ColumnRef, depth: nat): (r: BindResult)
      requires Valid()
      ensures r.Bound? <==> HasMatchingBinding(colref.columnName)
      ensures r.Bound? ==>
                && r.column.tableIndex == index
                && r.column.depth == depth
                && r.column.columnIndex < |names|
                && names[r.column.columnIndex] == colref.columnName
                && r.column.sqlType == types[r.column.columnIndex]
      ensures r.NotFound? ==> r.columnName == colref.columnName
    {
      if colref.columnName in nameMap then
        NameIndex.BuiltLookup(policy, NameTable(), colref.columnName);
        var i := nameMap[colref.columnName];
        Bound(BoundColumnRef(index, i, types[i], depth))
      else
        NotFound(colref.columnName)
    }

    /** Appends one reference per column, in `names` order. */
    method GenerateAllColumnExpressions(selectList: SelectList)
      modifies selectList
      ensures selectList.entries == old(selectList.entries) + QualifiedRefs(alias, names)
    {
      for i := 0 to |names|
        invariant selectList.entries == old(selectList.entries) + QualifiedRefs(alias, names[..i])
      {
        QualifiedRefsSnoc(alias, names, i);
        selectList.Push(ColumnRef(names[i], alias));
      }
      assert names[..|names|] == names;
    }
  }

  /** A binding of any kind; each operation dispatches on the variant. The
      table-function kind has no variant of its own here. */
  datatype Binding = OfTable(table: TableBinding) | OfSubquery(subquery: SubqueryBinding) | OfGeneric(generic: GenericBinding)
  {
    ghost function Repr(): set<object> {
      match this
      case OfTable(t) => {t}
      case OfSubquery(s) => {s}
      case OfGeneric(g) => {g}
    }

    ghost predicate Valid()
      reads Repr()
    {
      match this
      case OfTable(t) => t.kind == Table
      case OfSubquery(s) => s.Valid()
      case OfGeneric(g) => g.Valid()
    }

    /** The stored kind agrees with the variant. */
    function Kind(): (k: BindingType)
      reads Repr()
      requires Valid()
      ensures k == Table <==> OfTable?
      ensures k == Subquery <==> OfSubquery?
      ensures k == Generic <==> OfGeneric?
      ensures k != TableFunction
    {
      match this
      case OfTable(t) => t.kind
      case OfSubquery(s) => s.kind
      case OfGeneric(g) => g.kind
    }

    function Alias(): string {
      match this
      case OfTable(t) => t.alias
      case OfSubquery(s) => s.alias
      case OfGeneric(g) => g.alias
    }

    function Index(): nat {
      match this
      case OfTable(t) => t.index
      case OfSubquery(s) => s.index
      case OfGeneric(g) => g.index
    }

    /** The binding's column names, in column order. */
    function Names(): seq<string>
      reads Repr()
    {
      match this
      case OfTable(t) => ColumnNames(t.columns)
      case OfSubquery(s) => s.names
      case OfGeneric(g) => g.names
    }

    /** The binding's column types, in column order. */
    function Types(): seq<SqlType>
      reads Repr()
    {
      match this
      case OfTable(t) => ColumnTypes(t.columns)
      case OfSubquery(s) => s.types
      case OfGeneric(g) => g.types
    }

    function HasMatchingBinding(columnName: string): (r: bool)
      reads Repr()
      requires Valid()
      ensures r <==> columnName in Names()
    {
      match this
      case OfTable(t) => t.HasMatchingBinding(columnName)
      case OfSubquery(s) => s.HasMatchingBinding(columnName)
      case OfGeneric(g) => g.HasMatchingBinding(columnName)
    }

    function Bind(colref: ColumnRef, depth: nat): (r: BindResult)
      reads Repr()
      requires Valid()
      ensures r.Bound? <==> HasMatchingBinding(colref.columnName)
      ensures r.Bound? ==>
                && r.column.tableIndex == Index()
                && r.column.depth == depth
                && r.column.columnIndex < |Names()|
                && Names()[r.column.columnIndex] == colref.columnName
                && r.column.columnIndex < |Types()|
                && r.column.sqlType == Types()[r.column.columnIndex]
      ensures r.NotFound? ==> r.columnName == colref.columnName
    {
      match this
      case OfTable(t) => t.Bind(colref, depth)
      case OfSubquery(s) => s.Bind(colref, depth)
      case OfGeneric(g) => g.Bind(colref, depth)
    }

    method GenerateAllColumnExpressions(selectList: SelectList)
      modifies selectList
      ensures selectList.entries == old(selectList.entries) + QualifiedRefs(Alias(), Names())
    {
      match this
      case OfTable(t) => t.GenerateAllColumnExpressions(selectList);
      case OfSubquery(s) => s.GenerateAllColumnExpressions(selectList);
      case OfGeneric(g) => g.GenerateAllColumnExpressions(selectList);
    }
  }

  /** Every entry that wildcard expansion produces binds again against the same
      binding, to a column of the same name; when the names are distinct it
      binds to exactly the position it was expanded from. */
  lemma ExpandedColumnsBindBack(b: Binding, i: nat, depth: nat)
    requires b.Valid()
    requires i < |b.Names()|
    ensures var r := b.Bind(QualifiedRefs(b.Alias(), b.Names())[i], depth);
            && r.Bound?
            && r.column.tableIndex == b.Index()
            && r.column.depth == depth
            && b.Names()[r.column.columnIndex] == b.Names()[i]
    ensures NameIndex.Distinct(b.Names()) ==>
              b.Bind(QualifiedRefs(b.Alias(), b.Names())[i], depth).column.columnIndex == i
  {
  }

  /** For a subquery or generic binding, the position a repeated name binds to
      is fixed by the duplicate policy: the last occurrence under KeepLast, the
      first under KeepFirst, and the only one under RejectDuplicate. */
  lemma NamedBindFollowsPolicy(b: Binding, colref: ColumnRef, depth: nat)
    requires b.Valid() && !b.OfTable?
    requires colref.columnName in b.Names()
    ensures var policy := if b.OfSubquery? then b.subquery.policy else b.generic.policy;
            var names := b.Names();
            var r := b.Bind(colref, depth);
            && r.Bound?
            && (policy == NameIndex.KeepLast ==>
                  forall j :: r.column.columnIndex < j < |names| ==> names[j] != colref.columnName)
            && (policy == NameIndex.KeepFirst ==>
                  forall j :: 0 <= j < r.column.columnIndex ==> names[j] != colref.columnName)
            && (policy == NameIndex.RejectDuplicate ==>
                  forall j :: 0 <= j < |names| && names[j] == colref.columnName ==> j == r.column.columnIndex)
  {
    var policy := if b.OfSubquery? then b.subquery.policy else b.generic.policy;
    var t := if b.OfSubquery? then b.subquery.NameTable() else b.generic.NameTable();
    assert NameIndex.Build(policy, b.Names()) == Some(t);
    match policy
    case KeepLast => NameIndex.BuildKeepLastIsLastOccurrence(b.Names());
    case KeepFirst => NameIndex.BuildKeepFirstIsFirstOccurrence(b.Names());
    case RejectDuplicate =>
      NameIndex.BuildFailsIffRejectedDuplicate(policy, b.Names());
      NameIndex.BuildDistinctPositions(policy, b.Names());
  }

  /** A subquery whose output is `a, b, c` binds `b` to position 1 whatever
      the other two names are, so long as they differ from it. */
  method SubqueryMiddleColumn(a: string, c: string, types: seq<SqlType>, index: nat,
                              policy: NameIndex.DuplicatePolicy)
    returns (r: Option<BindResult>)
    requires |types| == 3 && a != "b" && c != "b"
    ensures r.Some? ==> r.value.Bound? && r.value.column.tableIndex == index
                        && r.value.column.columnIndex == 1 && r.value.column.depth == 0
    ensures policy != NameIndex.RejectDuplicate || a != c ==> r.Some?
  {
    var created := SubqueryBinding.Create("s", BoundQueryNode([a, "b", c], types), index, policy);
    NameIndex.BuildFailsIffRejectedDuplicate(policy, [a, "b", c]);
    match created
    case Failure(_) => r := None;
    case Success(s) =>
      assert "b" == s.names[1];
      r := Some(s.Bind(ColumnRef("b", ""), 0));
  }
}
