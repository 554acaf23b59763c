/** The ordered column names of a subquery or generic binding together with
    the map from each name to its position. `AddName` appends one name; building
    a table from a list of names is the left fold of `AddName` over it.

    What the map does with a name that is already present is not fixed by the
    declarations, so it is a parameter: keep the first position (a map insert),
    keep the last position (a map assignment), or reject the name. */
module NameIndex {
  import opened Wrappers

  /** How a repeated column name is treated. */
  datatype DuplicatePolicy = KeepFirst | KeepLast | RejectDuplicate

  /** The `names` vector and its `name_map`. */
  datatype NameTable = NameTable(names: seq<string>, nameMap: map<string, nat>)

  const Empty: NameTable := NameTable([], map[])

  /** No name occurs twice. */
  ghost predicate Distinct(names: seq<string>) {
    forall i, j :: 0 <= i < j < |names| ==> names[i] != names[j]
  }

  /** `nameMap` inverts `names`: every key maps to a position holding that key,
      and every stored name is a key. */
  ghost predicate Consistent(t: NameTable) {
    && (forall n :: n in t.nameMap ==> t.nameMap[n] < |t.names| && t.names[t.nameMap[n]] == n)
    && (forall i :: 0 <= i < |t.names| ==> t.names[i] in t.nameMap)
  }

  /** Appends `name`: it becomes the last entry of `names`, and the map sends it
      to that entry unless the policy keeps an earlier position or rejects it. */
  function AddName(policy: DuplicatePolicy, t: NameTable, name: string): (r: Option<NameTable>)
    ensures r.None? <==> policy == RejectDuplicate && name in t.nameMap
    ensures r.Some? ==> r.value.names == t.names + [name]
    ensures r.Some? ==> r.value.nameMap.Keys == t.nameMap.Keys + {name}
  {
    if name !in t.nameMap || policy == KeepLast then
      Some(NameTable(t.names + [name], t.nameMap[name := |t.names|]))
    else if policy.KeepFirst? then
      Some(NameTable(t.names + [name], t.nameMap))
    else
      None
  }

  /** The table obtained by adding every name of `names`, in order, to the empty table. */
  function Build(policy: DuplicatePolicy, names: seq<string>): (r: Option<NameTable>)
    ensures r.Some? ==> r.value.names == names
    ensures r.None? ==> policy == RejectDuplicate && names != []
    decreases |names|
  {
    if names == [] then Some(Empty)
    else
      match Build(policy, names[..|names| - 1])
      case None => None
      case Some(t) => AddName(policy, t, names[|names| - 1])
  }

  /** A prefix one longer is the shorter prefix followed by the next name. */
  lemma PrefixSnoc(names: seq<string>, i: nat)
    requires i < |names|
    ensures names[..i + 1] == names[..i] + [names[i]]
  {
    assert (names[..i] + [names[i]])[i] == names[i];
  }

  /** Building from `names` and then adding `name` is building from `names + [name]`. */
  lemma BuildSnoc(policy: DuplicatePolicy, names: seq<string>, name: string)
    ensures Build(policy, names + [name]) ==
            match Build(policy, names)
            case None => None
            case Some(t) => AddName(policy, t, name)
  {
    assert (names + [name])[..|names|] == names;
  }

  /** The part of `AddName`'s contract that building relies on. */
  lemma AddNameStaysConsistent(policy: DuplicatePolicy, t: NameTable, name: string)
    requires Consistent(t)
    requires AddName(policy, t, name).Some?
    ensures AddName(policy, t, name).value.names == t.names + [name]
    ensures Consistent(AddName(policy, t, name).value)
  {
    var u := AddName(policy, t, name).value;
    forall n | n in u.nameMap
      ensures u.nameMap[n] < |u.names| && u.names[u.nameMap[n]] == n
    {
      if n != name || u.nameMap[n] != |t.names| {
        assert n in t.nameMap && u.nameMap[n] == t.nameMap[n];
      }
    }
    forall i | 0 <= i < |u.names|
      ensures u.names[i] in u.nameMap
    {
      if i < |t.names| {
        assert u.names[i] == t.names[i];
      }
    }
  }

  /** `AddName` keeps the map the inverse of the names, grows `names` by exactly
      `name`, leaves every other key where it was, and fails only for a repeated
      name under the rejecting policy. */
  lemma AddNameKeepsConsistent(policy: DuplicatePolicy, t: NameTable, name: string)
    requires Consistent(t)
    ensures AddName(policy, t, name).None? <==> policy == RejectDuplicate && name in t.names
    ensures AddName(policy, t, name).Some? ==>
              var u := AddName(policy, t, name).value;
              && Consistent(u)
              && u.names == t.names + [name]
              && u.nameMap.Keys == t.nameMap.Keys + {name}
              && (forall n :: n in t.nameMap && n != name ==> u.nameMap[n] == t.nameMap[n])
              && (name !in t.names ==> u.nameMap[name] == |t.names|)
  {
    assert name in t.names <==> name in t.nameMap by {
      if name in t.nameMap {
        assert t.names[t.nameMap[name]] == name;
      }
    }
    if AddName(policy, t, name).Some? {
      var u := AddName(policy, t, name).value;
      AddNameStaysConsistent(policy, t, name);
      assert u.nameMap.Keys == t.nameMap.Keys + {name};
      assert forall n :: n in t.nameMap && n != name ==> u.nameMap[n] == t.nameMap[n];
    }
  }

  /** A successful build stores the names verbatim, in insertion order, and its
      map is their inverse. */
  lemma {:induction false} BuildConsistent(policy: DuplicatePolicy, names: seq<string>)
    requires Build(policy, names).Some?
    ensures Build(policy, names).value.names == names
    ensures Consistent(Build(policy, names).value)
    decreases |names|
  {
    if names != [] {
      var k := |names| - 1;
      var init, last := names[..k], names[k];
      var t := Build(policy, init).value;
      var u := Build(policy, names).value;
      assert Some(u) == AddName(policy, t, last);
      BuildConsistent(policy, init);
      assert Consistent(u) && u.names == init + [last] by {
        AddNameStaysConsistent(policy, t, last);
      }
      assert init + [last] == names;
    }
  }

  /** Every prefix of a list that builds also builds. */
  lemma {:induction false} BuildPrefix(policy: DuplicatePolicy, names: seq<string>, k: nat)
    requires k <= |names|
    requires Build(policy, names).Some?
    ensures Build(policy, names[..k]).Some?
    decreases |names|
  {
    if k < |names| {
      var init := names[..|names| - 1];
      assert init[..k] == names[..k];
      BuildPrefix(policy, init, k);
    } else {
      assert names[..k] == names;
    }
  }

  /** One step of building: the prefix of length i + 1 is built by adding the
      name at position i to the table built from the prefix of length i. */
  lemma BuildStep(policy: DuplicatePolicy, names: seq<string>, i: nat, t: NameTable)
    requires i < |names|
    requires Build(policy, names[..i]) == Some(t)
    ensures t.names == names[..i]
    ensures Build(policy, names[..i + 1]) ==
            if names[i] !in t.nameMap || policy == KeepLast then
              Some(NameTable(names[..i + 1], t.nameMap[names[i] := i]))
            else if policy == KeepFirst then
              Some(NameTable(names[..i + 1], t.nameMap))
            else
              None
  {
    BuildSnoc(policy, names[..i], names[i]);
    PrefixSnoc(names, i);
  }

  /** Once adding the name at position i is refused, building the whole list fails. */
  lemma BuildFailsAtRejectedName(policy: DuplicatePolicy, names: seq<string>, i: nat) returns (j: nat)
    requires i < |names|
    requires Build(policy, names[..i]).Some?
    requires AddName(policy, Build(policy, names[..i]).value, names[i]).None?
    ensures Build(policy, names).None?
    ensures policy == RejectDuplicate && j < i && names[j] == names[i]
  {
    BuiltKeysAreNames(policy, Build(policy, names[..i]).value, names[i]);
    j :| 0 <= j < i && names[..i][j] == names[i];
    BuildSnoc(policy, names[..i], names[i]);
    PrefixSnoc(names, i);
    if Build(policy, names).Some? {
      BuildPrefix(policy, names, i + 1);
    }
  }

  /** A list with one more name is distinct exactly when the shorter list is
      and the new name is not already in it. */
  lemma DistinctSnoc(names: seq<string>, name: string)
    ensures Distinct(names + [name]) <==> Distinct(names) && name !in names
  {
    var all := names + [name];
    if Distinct(all) {
      forall k | 0 <= k < |names| ensures names[k] != name {
        assert all[k] == names[k] && all[|names|] == name;
      }
      forall i, j | 0 <= i < j < |names| ensures names[i] != names[j] {
        assert all[i] == names[i] && all[j] == names[j];
      }
    }
  }

  /** In a built table, the stored names are exactly the keys of the map. */
  lemma BuiltKeysAreNames(policy: DuplicatePolicy, t: NameTable, name: string)
    requires Build(policy, t.names) == Some(t)
    ensures name in t.nameMap <==> name in t.names
  {
    BuildConsistent(policy, t.names);
    if name in t.nameMap {
      assert t.names[t.nameMap[name]] == name;
    }
  }

  /** In a built table, a key maps to a position that holds it. */
  lemma BuiltLookup(policy: DuplicatePolicy, t: NameTable, name: string)
    requires Build(policy, t.names) == Some(t)
    requires name in t.nameMap
    ensures t.nameMap[name] < |t.names| && t.names[t.nameMap[name]] == name
  {
    BuildConsistent(policy, t.names);
  }

  /** Building fails only for a repeated name under the rejecting policy: the
      lenient policies always succeed, and the rejecting one succeeds exactly on
      distinct names. */
  lemma {:induction false} BuildFailsIffRejectedDuplicate(policy: DuplicatePolicy, names: seq<string>)
    ensures Build(policy, names).None? <==> policy == RejectDuplicate && !Distinct(names)
    decreases |names|
  {
    if names != [] {
      var init := names[..|names| - 1];
      var last := names[|names| - 1];
      assert init + [last] == names;
      BuildFailsIffRejectedDuplicate(policy, init);
      DistinctSnoc(init, last);
      if Build(policy, init).Some? {
        BuildConsistent(policy, init);
        AddNameKeepsConsistent(policy, Build(policy, init).value, last);
      }
    }
  }

  /** With distinct names, every policy builds a table whose map sends the name
      at position i to i and has one key per name. */
  lemma {:induction false} BuildDistinctPositions(policy: DuplicatePolicy, names: seq<string>)
    requires Distinct(names)
    ensures Build(policy, names).Some?
    ensures forall i :: 0 <= i < |names| ==>
              names[i] in Build(policy, names).value.nameMap && Build(policy, names).value.nameMap[names[i]] == i
    ensures |Build(policy, names).value.nameMap| == |names|
    decreases |names|
  {
    if names != [] {
      var k := |names| - 1;
      var init, last := names[..k], names[k];
      assert init + [last] == names;
      assert names[..k + 1] == names;
      DistinctSnoc(init, last);
      BuildDistinctPositions(policy, init);
      var t := Build(policy, init).value;
      BuildStep(policy, names, k, t);
      BuiltKeysAreNames(policy, t, last);
      var u := Build(policy, names).value;
      assert u.nameMap == t.nameMap[last := k];
      forall i | 0 <= i < |names|
        ensures names[i] in u.nameMap && u.nameMap[names[i]] == i
      {
        if i < k {
          assert names[i] == init[i];
        }
      }
    }
  }

  /** Under KeepLast a name maps to its last occurrence. */
  lemma {:induction false} BuildKeepLastIsLastOccurrence(names: seq<string>)
    ensures Build(KeepLast, names).Some?
    ensures forall n, j ::
              (n in Build(KeepLast, names).value.nameMap && Build(KeepLast, names).value.nameMap[n] < j < |names|)
              ==> names[j] != n
    decreases |names|
  {
    BuildFailsIffRejectedDuplicate(KeepLast, names);
    if names != [] {
      var k := |names| - 1;
      var init, last := names[..k], names[k];
      assert names[..k + 1] == names;
      BuildKeepLastIsLastOccurrence(init);
      var t := Build(KeepLast, init).value;
      BuildStep(KeepLast, names, k, t);
      var u := Build(KeepLast, names).value;
      assert u.nameMap == t.nameMap[last := k];
      forall n, j | n in u.nameMap && u.nameMap[n] < j < |names|
        ensures names[j] != n
      {
        if n != last {
          assert n in t.nameMap && u.nameMap[n] == t.nameMap[n];
          if j < k {
            assert names[j] == init[j];
          }
        }
      }
    }
  }

  /** Under KeepFirst a name maps to its first occurrence. */
  lemma {:induction false} BuildKeepFirstIsFirstOccurrence(names: seq<string>)
    ensures Build(KeepFirst, names).Some?
    ensures forall n, j ::
              (n in Build(KeepFirst, names).value.nameMap && 0 <= j < |names| && j < Build(KeepFirst, names).value.nameMap[n])
              ==> names[j] != n
    decreases |names|
  {
    BuildFailsIffRejectedDuplicate(KeepFirst, names);
    if names != [] {
      var k := |names| - 1;
      var init, last := names[..k], names[k];
      assert names[..k + 1] == names;
      BuildKeepFirstIsFirstOccurrence(init);
      var t := Build(KeepFirst, init).value;
      BuildStep(KeepFirst, names, k, t);
      var u := Build(KeepFirst, names).value;
      BuiltKeysAreNames(KeepFirst, t, last);
      forall n, j | n in u.nameMap && 0 <= j < |names| && j < u.nameMap[n]
        ensures names[j] != n
      {
        if n in t.nameMap {
          BuiltLookup(KeepFirst, t, n);
          assert u.nameMap[n] == t.nameMap[n] && names[j] == init[j];
        } else {
          assert n == last && names[j] == init[j] && init[j] in init;
        }
      }
    }
  }
}
