/** The reverse index built by `resolveUniqueContractStateTypes`: from each
    contract interface to the concrete contract state classes stored in the
    vault that implement it. */
module ContractIndex {
  import opened Outcomes
  import opened ContractTypes

  /** Raised when a class name recorded in the vault cannot be loaded. */
  datatype ResolveError = ClassNotFound(className: TypeName)

  /** Interface name to the concrete class names that implement it. */
  type Index = map<TypeName, seq<TypeName>>

  predicate NoDuplicates(s: seq<TypeName>)
  {
    forall i, j :: 0 <= i < j < |s| ==> s[i] != s[j]
  }

  /** `select distinct contractStateClassName` over the vault's rows: every
      stored class name once, in order of first appearance (SQL leaves the
      order open; first appearance is one order it may choose). */
  function DistinctNames(column: seq<TypeName>): (names: seq<TypeName>)
    ensures NoDuplicates(names)
    ensures forall n :: n in names <==> n in column
  {
    if column == [] then []
    else
      var names := DistinctNames(column[..|column| - 1]);
      var last := column[|column| - 1];
      if last in names then names else names + [last]
  }

  ghost predicate AllLoadable(reg: Registry, names: seq<TypeName>)
  {
    forall n :: n in names ==> n in reg.interfaces
  }

  /** One `getOrPut(...).add(name)` for every interface in ifaces. */
  function AddConcrete(index: Index, ifaces: set<TypeName>, name: TypeName): Index
  {
    map i | i in index.Keys + ifaces ::
      (if i in index then index[i] else []) + (if i in ifaces then [name] else [])
  }

  /** The index `resolveUniqueContractStateTypes` builds from the distinct names, in order. */
  function IndexOf(reg: Registry, names: seq<TypeName>): Index
    requires reg.Valid() && AllLoadable(reg, names)
  {
    if names == [] then map[]
    else
      var last := names[|names| - 1];
      AddConcrete(IndexOf(reg, names[..|names| - 1]), Ancestors(reg, last), last)
  }

  /** `resolveUniqueContractStateTypes`: nested loops filling a mutable map.
      A name that cannot be loaded aborts the whole resolution. */
  method ResolveUniqueContractStateTypes(reg: Registry, storedNames: seq<TypeName>)
      returns (r: Result<Index, ResolveError>)
    requires reg.Valid()
    ensures r.Success? <==> AllLoadable(reg, storedNames)
    ensures r.Failure? ==> r.error.className in storedNames && r.error.className !in reg.interfaces
    ensures r.Success? ==>
      AllLoadable(reg, DistinctNames(storedNames)) && r.value == IndexOf(reg, DistinctNames(storedNames))
  {
    var distinctTypes := DistinctNames(storedNames);
    var contractInterfaceToConcreteTypes: Index := map[];
    for j := 0 to |distinctTypes|
      invariant AllLoadable(reg, distinctTypes[..j])
      invariant contractInterfaceToConcreteTypes == IndexOf(reg, distinctTypes[..j])
    {
      var concreteType := distinctTypes[j];
      if concreteType !in reg.interfaces {
        return Failure(ClassNotFound(concreteType));
      }
      var contractInterfaces := DeriveContractInterfaces(reg, concreteType);
      contractInterfaceToConcreteTypes := AddToEach(contractInterfaceToConcreteTypes, contractInterfaces, concreteType);
      assert distinctTypes[..j + 1][..j] == distinctTypes[..j];
    }
    assert distinctTypes[..|distinctTypes|] == distinctTypes;
    return Success(contractInterfaceToConcreteTypes);
  }

  /** The inner loop of `resolveUniqueContractStateTypes`: for every derived
      interface, `getOrPut(interface, mutableListOf()).add(concreteType)`. */
  method AddToEach(index: Index, contractInterfaces: set<TypeName>, concreteType: TypeName) returns (updated: Index)
    ensures updated == AddConcrete(index, contractInterfaces, concreteType)
  {
    updated := index;
    var pending := contractInterfaces;
    assert contractInterfaces - pending == {};
    AddConcreteNone(index, concreteType);
    while pending != {}
      invariant pending <= contractInterfaces
      invariant updated == AddConcrete(index, contractInterfaces - pending, concreteType)
      decreases pending
    {
      var it :| it in pending;
      var concretes := if it in updated then updated[it] else [];
      updated := updated[it := concretes + [concreteType]];
      AddConcreteStep(index, contractInterfaces - pending, it, concreteType);
      assert contractInterfaces - pending + {it} == contractInterfaces - (pending - {it});
      pending := pending - {it};
    }
    assert contractInterfaces - pending == contractInterfaces;
  }

  lemma AddConcreteNone(index: Index, name: TypeName)
    ensures AddConcrete(index, {}, name) == index
  {
    var added := AddConcrete(index, {}, name);
    assert added.Keys == index.Keys;
    forall i | i in index
      ensures added[i] == index[i]
    {
      assert index[i] + [] == index[i];
    }
  }

  lemma AddConcreteStep(index: Index, done: set<TypeName>, it: TypeName, name: TypeName)
    requires it !in done
    ensures AddConcrete(index, done + {it}, name) ==
      AddConcrete(index, done, name)[it := (if it in index then index[it] else []) + [name]]
  {
  }

  // ---------------------------------------------------------------------
  // A reference definition per interface, and what the index promises.
  // ---------------------------------------------------------------------

  /** The names, in their order, whose derived interfaces include iface. */
  function Implementers(reg: Registry, names: seq<TypeName>, iface: TypeName): seq<TypeName>
    requires reg.Valid() && AllLoadable(reg, names)
  {
    if names == [] then []
    else
      var last := names[|names| - 1];
      Implementers(reg, names[..|names| - 1], iface) + (if iface in Ancestors(reg, last) then [last] else [])
  }

  /** Each list in the index is exactly the implementers of its key, and a key
      is present exactly when it has an implementer. */
  lemma {:induction false} IndexIsImplementers(reg: Registry, names: seq<TypeName>, iface: TypeName)
    requires reg.Valid() && AllLoadable(reg, names)
    ensures iface in IndexOf(reg, names) <==> Implementers(reg, names, iface) != []
    ensures iface in IndexOf(reg, names) ==> IndexOf(reg, names)[iface] == Implementers(reg, names, iface)
  {
    if names != [] {
      IndexIsImplementers(reg, names[..|names| - 1], iface);
    }
  }

  lemma {:induction false} ImplementersMembers(reg: Registry, names: seq<TypeName>, iface: TypeName, n: TypeName)
    requires reg.Valid() && AllLoadable(reg, names)
    ensures n in Implementers(reg, names, iface) <==> n in names && n in reg.interfaces && iface in Ancestors(reg, n)
  {
    if names != [] {
      var prefix := names[..|names| - 1];
      assert names == prefix + [names[|names| - 1]];
      ImplementersMembers(reg, prefix, iface, n);
    }
  }

  lemma {:induction false} ImplementersNoDuplicates(reg: Registry, names: seq<TypeName>, iface: TypeName)
    requires reg.Valid() && AllLoadable(reg, names) && NoDuplicates(names)
    ensures NoDuplicates(Implementers(reg, names, iface))
  {
    if names != [] {
      var prefix := names[..|names| - 1];
      var last := names[|names| - 1];
      ImplementersNoDuplicates(reg, prefix, iface);
      ImplementersMembers(reg, prefix, iface, last);
      assert last !in prefix;
    }
  }

  /** Concrete name n is listed under interface iface exactly when n is stored
      and iface is among the interfaces derived from n. */
  lemma IndexMembership(reg: Registry, names: seq<TypeName>, iface: TypeName, n: TypeName)
    requires reg.Valid() && AllLoadable(reg, names)
    ensures (iface in IndexOf(reg, names) && n in IndexOf(reg, names)[iface]) <==>
            (n in names && n in reg.interfaces && iface in Ancestors(reg, n))
  {
    IndexIsImplementers(reg, names, iface);
    ImplementersMembers(reg, names, iface, n);
  }

  /** A key exists only when some stored name derives it. */
  lemma IndexKeys(reg: Registry, names: seq<TypeName>, iface: TypeName)
    requires reg.Valid() && AllLoadable(reg, names)
    ensures iface in IndexOf(reg, names) <==>
            exists n :: n in names && n in reg.interfaces && iface in Ancestors(reg, n)
  {
    IndexIsImplementers(reg, names, iface);
    var imps := Implementers(reg, names, iface);
    if imps != [] {
      ImplementersMembers(reg, names, iface, imps[0]);
    }
    forall n | n in names && n in reg.interfaces && iface in Ancestors(reg, n)
      ensures iface in IndexOf(reg, names)
    {
      ImplementersMembers(reg, names, iface, n);
    }
  }

  /** Distinct stored names give lists without repeats. */
  lemma IndexNoDuplicates(reg: Registry, names: seq<TypeName>, iface: TypeName)
    requires reg.Valid() && AllLoadable(reg, names) && NoDuplicates(names)
    requires iface in IndexOf(reg, names)
    ensures NoDuplicates(IndexOf(reg, names)[iface])
  {
    IndexIsImplementers(reg, names, iface);
    ImplementersNoDuplicates(reg, names, iface);
  }

  /** The root `ContractState` is never a key of the index. */
  lemma RootNotIndexed(reg: Registry, names: seq<TypeName>)
    requires reg.Valid() && AllLoadable(reg, names)
    ensures ContractStateName !in IndexOf(reg, names)
  {
    IndexKeys(reg, names, ContractStateName);
    forall n | n in names && n in reg.interfaces
      ensures ContractStateName !in Ancestors(reg, n)
    {
      RootAndSelfExcluded(reg, n);
    }
  }
}
