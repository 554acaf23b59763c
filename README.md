# Column bindings of the DuckDB planner, modelled in Dafny

This project models the binding layer of DuckDB's binder, as declared in
`src/include/duckdb/planner/table_binding.hpp`. A *binding* is a named source
of columns (alias) that carries a *table index*. It has one of four kinds:
TABLE, SUBQUERY, TABLE_FUNCTION or GENERIC. Every binding answers three
questions:

- does it have a column of a given name (`HasMatchingBinding`);
- what does a column reference resolve to at a depth the caller supplies (`Bind`);
- append one select-list entry per column (`GenerateAllColumnExpressions`).

Files:

- `wrappers.dfy`: `Option` and `Result`.
- `binding_types.dfy` (module `BindingTypes`):
  - the `BindingType` enumeration and its byte codes 0 to 3;
  - declared columns; unresolved references (`ColumnRef`, also the shape of a select-list entry);
  - resolved references `(table index, column position, type, depth)` and `BindResult`;
  - the caller-owned `SelectList`;
  - `QualifiedRefs`, which specifies what `*`-expansion appends;
  - `FindColumn`, the by-name lookup in a table's declared columns.
- `name_index.dfy` (module `NameIndex`): the `names` vector and its `name_map`.
  - `AddName` appends one name.
  - `Build` adds a whole list of names in order.
  - The lemmas prove that `name_map` inverts `names`, that insertion order is kept, and what happens to repeated names.
- `table_binding.dfy` (module `TableBindings`):
  - the classes `TableBinding`, `SubqueryBinding` and `GenericBinding`;
  - the datatype `Binding`, which dispatches each operation over those three classes.

Design choices:

- **Each binding is a class.** The alias, kind and table index are `const` fields, so no operation can change them after construction.
- **`SubqueryBinding` is mutable.** Its `names` and `nameMap` are `var` fields that only its `AddName` method changes.
- **`GenericBinding` is fixed at construction.** It stores its `types`, `names` and map once.
- **Select lists are appended to in place.** Each `GenerateAllColumnExpressions` is a loop that pushes onto a caller-owned `SelectList`. It is proved to append exactly `QualifiedRefs(alias, names)` and to leave the earlier entries alone.
- **Duplicate column names are an explicit policy.** The declarations do not fix what `name_map` does with a repeated name. The model lets the caller choose:
  - `KeepFirst`: the behaviour of a map insert;
  - `KeepLast`: the behaviour of a map assignment, where the last write wins;
  - `RejectDuplicate`: an error at construction.

  Every subquery and generic binding records its policy. The lemmas state the resulting position for each policy. Under all three, every mapped position is below `|names|` and holds that name. With distinct names every policy gives `name_map[names[i]] == i`.
- **Fallible constructors become factories.** The C++ binding constructors may fail. Here the subquery and generic bindings are built by static `Create` methods that return a `Result`.

## Model

| member | source | states |
|---|---|---|
| BindingTypes.ToByte | src/include/duckdb/planner/table_binding.hpp:26 | every kind is stored as one of the bytes 0..3 |
| BindingTypes.FromByte | src/include/duckdb/planner/table_binding.hpp:26 | a byte decodes to a kind exactly when it is below 4, and the decoded kind encodes back to that byte |
| BindingTypes.ByteRoundTrip | src/include/duckdb/planner/table_binding.hpp:26 | encoding a kind and decoding it again gives the same kind |
| BindingTypes.QualifiedRefs | src/include/duckdb/planner/table_binding.hpp:42-43 | the expansion of a binding has one entry per column, and entry i is column i's name qualified by the binding's alias |
| BindingTypes.FindColumn | src/include/duckdb/planner/table_binding.hpp:53-54 | a table's column lookup finds a column exactly when one has that name; the position it returns holds that name, and no earlier column has it |
| BindingTypes.SelectList.Push | src/include/duckdb/planner/table_binding.hpp:43 | appending to the select list adds the entry at the end and keeps every earlier entry |
| NameIndex.AddName | src/include/duckdb/planner/table_binding.hpp:74 | adding a name fails exactly when the policy rejects duplicates and the name is already a key; otherwise names grows by exactly that name at the end and the keys become the old keys plus that name |
| NameIndex.Build | src/include/duckdb/planner/table_binding.hpp:63-66 | a successful build keeps the names verbatim and in order; a build fails only under the rejecting policy and only for a non-empty list |
| NameIndex.AddNameKeepsConsistent | src/include/duckdb/planner/table_binding.hpp:64-74 | adding a name keeps name_map the inverse of names; names grows by exactly that name; every other key stays where it was; a new name maps to the new last position; only a repeated name under the rejecting policy fails |
| NameIndex.BuildConsistent | src/include/duckdb/planner/table_binding.hpp:63-66 | a successful build stores the names verbatim, in insertion order, and name_map is their inverse: each mapped value is below \|names\| and indexes that name, and every name is a key |
| NameIndex.BuildFailsIffRejectedDuplicate | src/include/duckdb/planner/table_binding.hpp:64-74 | building fails exactly when the policy rejects duplicates and some name repeats |
| NameIndex.BuildDistinctPositions | src/include/duckdb/planner/table_binding.hpp:63-66 | with distinct names, under any policy, name_map[names[i]] == i and name_map has one key per name |
| NameIndex.BuildKeepLastIsLastOccurrence | src/include/duckdb/planner/table_binding.hpp:66 | under the last-wins policy a name maps to its last occurrence |
| NameIndex.BuildKeepFirstIsFirstOccurrence | src/include/duckdb/planner/table_binding.hpp:66 | under the first-wins policy a name maps to its first occurrence |
| NameIndex.BuildPrefix | src/include/duckdb/planner/table_binding.hpp:74 | if adding a list of names succeeds, adding any prefix of it succeeds too |
| TableBindings.TableBinding.constructor | src/include/duckdb/planner/table_binding.hpp:48-50 | a table binding stores kind TABLE, the given alias, the bound table's index and its declared columns unchanged |
| TableBindings.TableBinding.HasMatchingBinding | src/include/duckdb/planner/table_binding.hpp:53 | true exactly when the table declares a column of that name; total, false for unknown names |
| TableBindings.TableBinding.Bind | src/include/duckdb/planner/table_binding.hpp:54 | binds exactly when HasMatchingBinding holds; the reference carries the binding's table index, the caller's depth, and the position and type of the column of that name; otherwise a not-found result for that name |
| TableBindings.TableBinding.GenerateAllColumnExpressions | src/include/duckdb/planner/table_binding.hpp:55 | appends one alias-qualified entry per declared column in catalog order, leaving earlier entries unchanged |
| TableBindings.SubqueryBinding.Empty | src/include/duckdb/planner/table_binding.hpp:60-66 | a subquery binding starts with kind SUBQUERY, the given alias, index and output types, and no names |
| TableBindings.SubqueryBinding.Create | src/include/duckdb/planner/table_binding.hpp:60 | the constructor adds the subquery's output names in order; it succeeds exactly when building those names succeeds; the binding is then valid and keeps alias, index and types unchanged, with names equal to the output names; a failure happens only under the rejecting policy, and names the alias and an output name that occurs at two positions |
| TableBindings.SubqueryBinding.AddName | src/include/duckdb/planner/table_binding.hpp:74 | keeps names/name_map built from names; when accepted, names grows by the name at the end and it maps to the new position unless an earlier one is kept; a rejected duplicate changes nothing |
| TableBindings.SubqueryBinding.HasMatchingBinding | src/include/duckdb/planner/table_binding.hpp:69 | true exactly when the name is one of the subquery's output names |
| TableBindings.SubqueryBinding.Bind | src/include/duckdb/planner/table_binding.hpp:70 | binds exactly when HasMatchingBinding holds, to a position that holds the name (which occurrence, for a repeated name, is fixed by NamedBindFollowsPolicy); the reference has the binding's table index, the output type at that position and the caller's depth |
| TableBindings.SubqueryBinding.GenerateAllColumnExpressions | src/include/duckdb/planner/table_binding.hpp:71 | appends one alias-qualified entry per output name in names order, leaving earlier entries unchanged |
| TableBindings.GenericBinding.FromParts | src/include/duckdb/planner/table_binding.hpp:79-85 | stores kind GENERIC, alias, index, types, names and the map unchanged |
| TableBindings.GenericBinding.Create | src/include/duckdb/planner/table_binding.hpp:79 | given parallel types and names, fills name_map position by position; succeeds exactly when building the names succeeds; the binding is then valid with types and names stored verbatim; a failure happens only under the rejecting policy, and names the alias and a name that occurs at two positions |
| TableBindings.GenericBinding.HasMatchingBinding | src/include/duckdb/planner/table_binding.hpp:88 | true exactly when the name is one of the binding's names |
| TableBindings.GenericBinding.Bind | src/include/duckdb/planner/table_binding.hpp:89 | binds exactly when HasMatchingBinding holds, to a position that holds the name (which occurrence, for a repeated name, is fixed by NamedBindFollowsPolicy); the type is the parallel entry of types; the reference has the binding's table index and the caller's depth |
| TableBindings.GenericBinding.GenerateAllColumnExpressions | src/include/duckdb/planner/table_binding.hpp:90 | appends one alias-qualified entry per name in names order, leaving earlier entries unchanged |
| TableBindings.Binding.Kind | src/include/duckdb/planner/table_binding.hpp:26-37 | the stored kind matches the variant (TABLE, SUBQUERY, GENERIC); no binding here has kind TABLE_FUNCTION |
| TableBindings.Binding.HasMatchingBinding | src/include/duckdb/planner/table_binding.hpp:40 | dispatches to the variant; true exactly when the binding has a column of that name |
| TableBindings.Binding.Bind | src/include/duckdb/planner/table_binding.hpp:41 | dispatches to the variant; resolves exactly when HasMatchingBinding holds, tagged with the binding's table index, the caller's depth, a position holding the name and the binding's column type at that position; otherwise not found |
| TableBindings.Binding.GenerateAllColumnExpressions | src/include/duckdb/planner/table_binding.hpp:42-43 | dispatches to the variant; the select list becomes its old entries followed by the binding's alias-qualified columns in order |
| TableBindings.ExpandedColumnsBindBack | src/include/duckdb/planner/table_binding.hpp:40-43 | every entry the expansion produces binds back to the same binding, to a column of that name; with distinct names, to exactly the position it was expanded from |
| TableBindings.NamedBindFollowsPolicy | src/include/duckdb/planner/table_binding.hpp:63-89 | for subquery and generic bindings, a repeated name binds to its last occurrence under KeepLast, its first under KeepFirst, and the one occurrence under RejectDuplicate |
| TableBindings.SubqueryMiddleColumn | src/include/duckdb/planner/table_binding.hpp:60-70 | a subquery with output names a, b, c for any a and c other than b, binds b to position 1 at depth 0 with the binding's index; construction succeeds unless duplicates are rejected and a equals c |

## Left out

- Scope-level resolution is not part of this model: `BindContext`, alias uniqueness, ambiguity between bindings, qualified lookup by alias, and the outward walk that increases the depth. `Bind` only records the depth its caller passes in.
- TABLE_FUNCTION: none of the binding structures declared here has this kind. It is modelled only as a value of `BindingType` with its byte code. `Binding` has no variant for it.
- The `SubqueryRef` argument of the subquery binding's constructor is not modelled. How it might rename output columns is not visible in the declarations. The model names the columns after the bound subquery's output names.
- The catalog behind a table binding is replaced by its list of declared columns and the bound table's index. The model does not cover:
  - what a table bind records in the bound table reference;
  - hidden or pseudo columns;
  - any column selection beyond the declared list.

  The position a table bind reports is the column's catalog position.
- TableBindings.TableBinding.Bind: with repeated column names it returns the first declared one. The catalog's own uniqueness rule for column names is not part of this model.
- `SQLType` is an abstract type. The parsed-expression hierarchy is reduced to the `ColumnRef` value, and the constructed select-list expressions are reduced to `(column name, alias)` pairs. The text of error messages is not modelled: a not-found result carries only the column name, and a construction failure carries only the alias and the repeated name.
- The `BindContext` argument of `GenerateAllColumnExpressions` is unused here, because no declared member depends on it.
- Virtual dispatch, raw pointers and references to the bound nodes are replaced by the `Binding` datatype and value copies. Object lifetimes are not modelled.
- `AddName` is private in the source. Dafny has no access control, so the model relies on `SubqueryBinding.Create` being its only caller.
- Names are compared as exact strings; no case folding is modelled. `idx_t` and `uint64_t` are unbounded naturals, because no operation here can overflow them.
- Parallel `types` and `names` for a generic binding are a precondition of `GenericBinding.Create`, as are parallel output names and types for the bound subquery. The source treats them as an invariant of the caller, not as an input error.
