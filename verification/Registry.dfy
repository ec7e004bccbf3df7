/** The schema registry's validator, and what a registry it accepts is guaranteed to be. */
module Registry {
  datatype Family = Family(name: string, constName: string, id: nat, version: nat, dependencies: seq<string>)

  predicate ConstChar(c: char) { 'A' <= c <= 'Z' || '0' <= c <= '9' || c == '_' }

  /** Upper-case letters, digits and underscores, not starting with a digit. */
  predicate ConstName(name: string) {
    name != "" && (forall i :: 0 <= i < |name| ==> ConstChar(name[i])) && !('0' <= name[0] <= '9')
  }

  method ValidateConst(name: string) returns (ok: bool)
    ensures ok <==> ConstName(name)
  {
    if name == "" {
      return false;
    }
    var i := 0;
    while i < |name|
      invariant 0 <= i <= |name| && forall k :: 0 <= k < i ==> ConstChar(name[k])
    {
      if !ConstChar(name[i]) {
        return false;
      }
      i := i + 1;
    }
    ok := !('0' <= name[0] <= '9');
  }

  /** The ids by name; a repeated name keeps the last. */
  function IdsByName(families: seq<Family>): map<string, nat> {
    if families == [] then map[]
    else IdsByName(families[..|families| - 1])[families[|families| - 1].name := families[|families| - 1].id]
  }

  /** Dependencies are known, come before the family, and are listed in increasing order. */
  predicate DependenciesOk(ids: map<string, nat>, f: Family, n: nat)
    requires n <= |f.dependencies|
  {
    && (forall i :: 0 <= i < n ==> f.dependencies[i] in ids && ids[f.dependencies[i]] < f.id)
    && (forall i, j :: 0 <= i < j < n ==> ids[f.dependencies[i]] < ids[f.dependencies[j]])
  }

  /** What the validator accepts. */
  predicate RegistryOk(families: seq<Family>, n: nat)
    requires n <= |families|
  {
    && (forall i :: 0 <= i < n ==>
          && ConstName(families[i].constName) && families[i].version != 0
          && DependenciesOk(IdsByName(families), families[i], |families[i].dependencies|))
    && (forall i, j :: 0 <= i < j < n ==>
          families[i].name != families[j].name
              && families[i].constName != families[j].constName && families[i].id < families[j].id)
  }

  method ValidateRegistry(families: seq<Family>) returns (ok: bool)
    ensures ok <==> RegistryOk(families, |families|)
  {
    hide ConstName, IdsByName;
    var names: set<string>, constNames: set<string>, ids: set<nat> := {}, {}, {};
    var familyIds := IdsByName(families);
    var i := 0;
    while i < |families|
      invariant 0 <= i <= |families| && RegistryOk(families, i)
      invariant names == set k | 0 <= k < i :: families[k].name
      invariant constNames == set k | 0 <= k < i :: families[k].constName
      invariant ids == set k | 0 <= k < i :: families[k].id
    {
      var f := families[i];
      if f.name in names || f.constName in constNames || f.id in ids {
        return false;
      }
      names, constNames, ids := names + {f.name}, constNames + {f.constName}, ids + {f.id};
      ok := ValidateConst(f.constName);
      if !ok {
        return;
      }
      if i > 0 && families[i - 1].id >= f.id {
        return false;
      }
      if f.version == 0 {
        return false;
      }
      ok := ValidateDependencies(familyIds, f);
      if !ok {
        return;
      }
      i := i + 1;
    }
    ok := true;
  }

  method ValidateDependencies(ids: map<string, nat>, f: Family) returns (ok: bool)
    ensures ok <==> DependenciesOk(ids, f, |f.dependencies|)
  {
    var i := 0;
    while i < |f.dependencies|
      invariant 0 <= i <= |f.dependencies| && DependenciesOk(ids, f, i)
    {
      var dependency := f.dependencies[i];
      if dependency !in ids {
        return false;
      }
      if ids[dependency] >= f.id || (i > 0 && ids[f.dependencies[i - 1]] >= ids[dependency]) {
        return false;
      }
      i := i + 1;
    }
    ok := true;
  }

  // ---------------------------------------------------------------------------------------
  // Accepted registries
  // ---------------------------------------------------------------------------------------

  predicate DependsOn(families: seq<Family>, i: nat, j: nat) {
    i < |families| && j < |families| && families[j].name in families[i].dependencies
  }

  lemma {:induction false} IdsAreTheirs(families: seq<Family>, i: nat)
    requires i < |families| && forall a, b :: 0 <= a < b < |families| ==> families[a].name != families[b].name
    ensures families[i].name in IdsByName(families) && IdsByName(families)[families[i].name] == families[i].id
    decreases |families|
  {
    var init := families[..|families| - 1];
    if i < |init| {
      IdsAreTheirs(init, i);
      assert families[i].name != families[|families| - 1].name;
    }
  }

  lemma {:induction false} NamesHaveFamilies(families: seq<Family>, name: string) returns (j: nat)
    requires name in IdsByName(families)
    ensures j < |families| && families[j].name == name
    decreases |families|
  {
    var last := families[|families| - 1];
    if name == last.name {
      j := |families| - 1;
    } else {
      j := NamesHaveFamilies(families[..|families| - 1], name);
    }
  }

  lemma DependenciesComeFirst(families: seq<Family>, i: nat, j: nat)
    requires RegistryOk(families, |families|) && DependsOn(families, i, j)
    ensures j < i
  {
    hide ConstName, IdsByName;
    IdsAreTheirs(families, j);
    var d :| 0 <= d < |families[i].dependencies| && families[i].dependencies[d] == families[j].name;
    assert DependenciesOk(IdsByName(families), families[i], |families[i].dependencies|);
    assert families[j].id < families[i].id;
  }

  /** Every dependency names a family, and that family comes earlier in the list. */
  lemma TopologicalOrder(families: seq<Family>, i: nat, d: nat) returns (j: nat)
    requires RegistryOk(families, |families|) && i < |families| && d < |families[i].dependencies|
    ensures j < i && families[j].name == families[i].dependencies[d]
    ensures forall k: nat :: k < |families| && families[k].name == families[i].dependencies[d] ==> k == j
  {
    hide ConstName, IdsByName;
    assert DependenciesOk(IdsByName(families), families[i], |families[i].dependencies|);
    j := NamesHaveFamilies(families, families[i].dependencies[d]);
    assert DependsOn(families, i, j);
    DependenciesComeFirst(families, i, j);
  }

  /** A walk along dependencies, by index. */
  predicate Walk(families: seq<Family>, path: seq<nat>) {
    forall k :: 0 <= k < |path| - 1 ==> DependsOn(families, path[k], path[k + 1])
  }

  lemma {:induction false} WalksDescend(families: seq<Family>, path: seq<nat>)
    requires RegistryOk(families, |families|) && Walk(families, path) && |path| >= 2
    ensures path[|path| - 1] < path[0]
    decreases |path|
  {
    hide RegistryOk;
    assert DependsOn(families, path[|path| - 2], path[|path| - 1]);
    DependenciesComeFirst(families, path[|path| - 2], path[|path| - 1]);
    if |path| > 2 {
      WalksDescend(families, path[..|path| - 1]);
    }
  }

  /** The dependency graph of an accepted registry has no cycle. */
  lemma Acyclic(families: seq<Family>, path: seq<nat>)
    requires RegistryOk(families, |families|) && Walk(families, path) && |path| >= 2
    ensures path[0] != path[|path| - 1]
  {
    WalksDescend(families, path);
  }

  // ---------------------------------------------------------------------------------------
  // Without the table of ids
  // ---------------------------------------------------------------------------------------

  /** Every name is well formed, every version positive. */
  predicate NamesFormed(families: seq<Family>) {
    forall i :: 0 <= i < |families| ==>
      && families[i].version >= 1 && |families[i].constName| >= 1 && !('0' <= families[i].constName[0] <= '9')
      && forall k :: 0 <= k < |families[i].constName| ==> AllowedCode(families[i].constName[k] as int)
  }

  /** Codes 65 to 90, 48 to 57 and 95: A to Z, 0 to 9 and the underscore. */
  predicate AllowedCode(code: int) { 65 <= code <= 90 || 48 <= code <= 57 || code == 95 }

  /** No two families share a name or a constant, and ids rise. */
  predicate Ordered(families: seq<Family>) {
    forall i, j :: 0 <= i < j < |families| ==>
      && families[i].name != families[j].name && families[i].constName != families[j].constName
      && families[i].id < families[j].id
  }

  predicate NamesEarlier(families: seq<Family>, i: nat, name: string)
    requires i <= |families|
  {
    exists j :: 0 <= j < i && families[j].name == name
  }

  /** Dependencies name earlier families, in the order of the list. */
  predicate DependenciesOrdered(families: seq<Family>, i: nat)
    requires i < |families|
  {
    && (forall d :: 0 <= d < |families[i].dependencies| ==> NamesEarlier(families, i, families[i].dependencies[d]))
    && (forall d, e, j, k ::
          0 <= d < e < |families[i].dependencies| && 0 <= j < |families| && 0 <= k < |families|
          && families[j].name == families[i].dependencies[d] && families[k].name == families[i].dependencies[e] ==>
          j < k)
  }

  lemma NamesInWords(families: seq<Family>)
    ensures NamesFormed(families) <==>
      forall i :: 0 <= i < |families| ==> ConstName(families[i].constName) && families[i].version != 0
  {
  }

  lemma DependenciesInWords(families: seq<Family>, i: nat)
    requires Ordered(families) && i < |families|
    ensures DependenciesOk(IdsByName(families), families[i], |families[i].dependencies|)
       <==> DependenciesOrdered(families, i)
  {
    hide IdsByName;
    var ids, deps := IdsByName(families), families[i].dependencies;
    forall j: nat | j < |families| ensures families[j].name in ids && ids[families[j].name] == families[j].id {
      IdsAreTheirs(families, j);
    }
    if DependenciesOk(ids, families[i], |deps|) {
      forall d | 0 <= d < |deps| ensures NamesEarlier(families, i, deps[d]) {
        var j := NamesHaveFamilies(families, deps[d]);
        assert families[j].id < families[i].id;
        assert j < i;
      }
    }
    if DependenciesOrdered(families, i) {
      OrderedIsOk(families, i);
    }
  }

  lemma OrderedIsOk(families: seq<Family>, i: nat)
    requires Ordered(families) && i < |families| && DependenciesOrdered(families, i)
    ensures DependenciesOk(IdsByName(families), families[i], |families[i].dependencies|)
  {
    hide IdsByName;
    var ids, deps := IdsByName(families), families[i].dependencies;
    forall d | 0 <= d < |deps| ensures deps[d] in ids && ids[deps[d]] < families[i].id {
      assert NamesEarlier(families, i, deps[d]);
      var j :| 0 <= j < i && families[j].name == deps[d];
      IdsAreTheirs(families, j);
    }
    forall d, e | 0 <= d < e < |deps| ensures ids[deps[d]] < ids[deps[e]] {
      assert NamesEarlier(families, i, deps[d]) && NamesEarlier(families, i, deps[e]);
      var j :| 0 <= j < i && families[j].name == deps[d];
      var k :| 0 <= k < i && families[k].name == deps[e];
      IdsAreTheirs(families, j);
      IdsAreTheirs(families, k);
    }
  }

  /** The validator accepts exactly the registries with these three properties. */
  lemma AcceptedInWords(families: seq<Family>)
    ensures RegistryOk(families, |families|) <==>
      && NamesFormed(families) && Ordered(families)
      && forall i :: 0 <= i < |families| ==> DependenciesOrdered(families, i)
  {
    hide ConstName, IdsByName, DependenciesOk, NamesFormed, DependenciesOrdered;
    NamesInWords(families);
    if Ordered(families) {
      forall i: nat | i < |families|
        ensures DependenciesOk(IdsByName(families), families[i], |families[i].dependencies|)
           <==> DependenciesOrdered(families, i)
      {
        DependenciesInWords(families, i);
      }
    }
  }
}
