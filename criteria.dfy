/** Merging the caller's query criteria with the defaults the vault query
    service enforces: unconsumed states of the contract types derived from
    the requested type. */
module Criteria {
  import opened Outcomes
  import opened ContractTypes
  import opened Vault

  /** The kinds of leaf criteria other than the general vault criteria. */
  datatype LeafKind = LinearStateQuery | FungibleAssetQuery | VaultCustomQuery

  /** A query criteria expression. The vault criteria's fields other than
      status and contract types (state references, notaries, soft-lock and
      time conditions, ...) are kept by name in `otherFields`, which only the
      criteria parser reads; an empty map stands for all of them at their
      defaults. */
  datatype QueryCriteria =
    | VaultQueryCriteria(status: StateStatus, contractStateTypes: Option<set<TypeName>>, otherFields: map<string, string>)
    | OtherCriteria(kind: LeafKind, fields: map<string, string>)
    | AndComposition(a: QueryCriteria, b: QueryCriteria)
    | OrComposition(a: QueryCriteria, b: QueryCriteria)

  /** The vault criteria `VaultQueryCriteria(status = UNCONSUMED, contractStateTypes = contractTypes)`. */
  function DefaultCriteria(contractTypes: set<TypeName>): QueryCriteria
  {
    VaultQueryCriteria(UNCONSUMED, Some(contractTypes), map[])
  }

  /** The criteria `_queryBy` hands to the parser: a vault criteria gets its
      contract types unioned with the derived ones (or replaced by them when it
      has none); any other criteria is ANDed with the default criteria. */
  function WithDefaults(criteria: QueryCriteria, contractTypes: set<TypeName>): (merged: QueryCriteria)
    ensures criteria.VaultQueryCriteria? ==>
      && merged.VaultQueryCriteria?
      && merged.status == criteria.status
      && merged.otherFields == criteria.otherFields
      && merged.contractStateTypes.Some?
      && contractTypes <= merged.contractStateTypes.value
      && (criteria.contractStateTypes.Some? ==> criteria.contractStateTypes.value <= merged.contractStateTypes.value)
      && (criteria.contractStateTypes.None? ==> merged.contractStateTypes.value <= contractTypes)
      && (criteria.contractStateTypes.Some? ==>
            merged.contractStateTypes.value <= criteria.contractStateTypes.value + contractTypes)
    ensures !criteria.VaultQueryCriteria? ==>
      merged.AndComposition? && merged.a == criteria && merged.b == DefaultCriteria(contractTypes)
  {
    if criteria.VaultQueryCriteria? then
      var combinedContractStateTypes :=
        if criteria.contractStateTypes.Some? then criteria.contractStateTypes.value + contractTypes else contractTypes;
      criteria.(contractStateTypes := Some(combinedContractStateTypes))
    else
      AndComposition(criteria, DefaultCriteria(contractTypes))
  }

  // ---------------------------------------------------------------------
  // A reference semantics: which stored states a criteria admits.
  // ---------------------------------------------------------------------

  /** What a criteria can look at in a stored state. */
  datatype StateView = StateView(className: TypeName, status: StateStatus)

  /** The parser's lookups, which are not part of this model: whether a
      requested type name covers a stored class name (directly or through the
      contract index), whether the remaining vault fields admit a state, and
      how the other leaf kinds judge a state. */
  datatype LeafSemantics = LeafSemantics(
    covers: (TypeName, TypeName) -> bool,
    otherFieldsAdmit: (map<string, string>, StateView) -> bool,
    leafAdmits: (LeafKind, map<string, string>, StateView) -> bool)

  predicate StatusAdmits(wanted: StateStatus, actual: StateStatus)
  {
    wanted == ALL || wanted == actual
  }

  predicate TypesAdmit(sem: LeafSemantics, types: set<TypeName>, className: TypeName)
  {
    exists t :: t in types && sem.covers(t, className)
  }

  predicate Admits(sem: LeafSemantics, criteria: QueryCriteria, s: StateView)
  {
    match criteria
    case VaultQueryCriteria(status, types, other) =>
      && StatusAdmits(status, s.status)
      && (types.Some? ==> TypesAdmit(sem, types.value, s.className))
      && sem.otherFieldsAdmit(other, s)
    case OtherCriteria(kind, fields) => sem.leafAdmits(kind, fields, s)
    case AndComposition(a, b) => Admits(sem, a, s) && Admits(sem, b, s)
    case OrComposition(a, b) => Admits(sem, a, s) || Admits(sem, b, s)
  }

  lemma TypesAdmitUnion(sem: LeafSemantics, own: set<TypeName>, derived: set<TypeName>, className: TypeName)
    ensures TypesAdmit(sem, own + derived, className) <==>
            TypesAdmit(sem, own, className) || TypesAdmit(sem, derived, className)
  {
    if TypesAdmit(sem, own + derived, className) {
      var t :| t in own + derived && sem.covers(t, className);
      assert t in own ==> TypesAdmit(sem, own, className);
      assert t in derived ==> TypesAdmit(sem, derived, className);
    }
  }

  /** Any criteria other than a vault criteria keeps its meaning and is
      further restricted to unconsumed states of the derived contract types. */
  lemma NonVaultCriteriaRestricted(sem: LeafSemantics, criteria: QueryCriteria, contractTypes: set<TypeName>, s: StateView)
    requires !criteria.VaultQueryCriteria?
    ensures Admits(sem, WithDefaults(criteria, contractTypes), s) <==>
      && Admits(sem, criteria, s)
      && s.status == UNCONSUMED
      && TypesAdmit(sem, contractTypes, s.className)
      && sem.otherFieldsAdmit(map[], s)
  {
  }

  /** A vault criteria keeps its own status and other fields; its type filter
      admits a state of its own types or of the derived ones, and only the
      derived ones when it had no type filter. */
  lemma VaultCriteriaWidened(sem: LeafSemantics, criteria: QueryCriteria, contractTypes: set<TypeName>, s: StateView)
    requires criteria.VaultQueryCriteria?
    ensures Admits(sem, WithDefaults(criteria, contractTypes), s) <==>
      && StatusAdmits(criteria.status, s.status)
      && sem.otherFieldsAdmit(criteria.otherFields, s)
      && (|| TypesAdmit(sem, contractTypes, s.className)
          || (criteria.contractStateTypes.Some? && TypesAdmit(sem, criteria.contractStateTypes.value, s.className)))
  {
    if criteria.contractStateTypes.Some? {
      TypesAdmitUnion(sem, criteria.contractStateTypes.value, contractTypes, s.className);
    }
  }

  /** A vault criteria that already filters by type only gains states through the merge. */
  lemma TypedVaultCriteriaOnlyGains(sem: LeafSemantics, criteria: QueryCriteria, contractTypes: set<TypeName>, s: StateView)
    requires criteria.VaultQueryCriteria? && criteria.contractStateTypes.Some?
    requires Admits(sem, criteria, s)
    ensures Admits(sem, WithDefaults(criteria, contractTypes), s)
  {
    VaultCriteriaWidened(sem, criteria, contractTypes, s);
  }

  /** Merging a vault criteria a second time with the same types changes nothing. */
  lemma VaultMergeIdempotent(criteria: QueryCriteria, contractTypes: set<TypeName>)
    requires criteria.VaultQueryCriteria?
    ensures WithDefaults(WithDefaults(criteria, contractTypes), contractTypes) == WithDefaults(criteria, contractTypes)
  {
    var once := WithDefaults(criteria, contractTypes);
    assert once.contractStateTypes.value + contractTypes == once.contractStateTypes.value;
  }
}
