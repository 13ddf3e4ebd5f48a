/** `_queryBy` of the Hibernate vault query service, end to end: defaults
    merged into the criteria, the contract index resolved, the ordering and
    the page window applied, the total counted and the page rebuilt. */
module VaultQuery {
  import opened Outcomes
  import opened ContractTypes
  import opened ContractIndex
  import opened Vault
  import opened Criteria
  import opened Paging
  import opened Reconstruction

  /** One page of query results. */
  datatype Page<S> = Page(
    states: seq<StateAndRef<S>>,
    statesMetadata: seq<StateMetadata>,
    pageable: PageSpecification,
    totalStatesAvailable: Int32)

  datatype VaultQueryError =
    | TypeResolution(resolveError: ResolveError)
    | CriteriaRejected(parseError: ParseError)
    | UnknownSort(sortError: SortError)
    | InvalidPaging(pagingError: PagingError)
    | BadRow(rowError: RowError)

  /** `HibernateQueryCriteriaParser.parse` refused the criteria. */
  datatype ParseError = ParseError(reason: string)

  /** What the query runs against, none of which is part of this model: the
      attribute names of the vault states entity, the criteria parser's
      verdict on a criteria (given the contract index it consults), and the
      storage engine returning the matching rows of the parsed query, in the
      given ordering. */
  datatype Storage = Storage(
    attributes: set<string>,
    parse: (Index, QueryCriteria) -> Option<ParseError>,
    rows: (Index, QueryCriteria, seq<Order>) -> seq<VaultStatesRow>)

  /** The class name column of the vault states table. */
  function ClassNames(table: seq<VaultStatesRow>): (names: seq<TypeName>)
    ensures |names| == |table|
    ensures forall i :: 0 <= i < |table| ==> names[i] == table[i].contractStateClassName
  {
    seq(|table|, i requires 0 <= i < |table| => table[i].contractStateClassName)
  }

  /** Some row of the table holds the class name `name`, which cannot be loaded. */
  predicate StoredButUnloadable(reg: Registry, table: seq<VaultStatesRow>, name: TypeName)
  {
    name !in reg.interfaces && exists i :: 0 <= i < |table| && table[i].contractStateClassName == name
  }

  /** The rows the paged query returns, once the contract index is known. */
  function PagedRows(index: Index, storage: Storage, criteria: QueryCriteria, paging: PageSpecification,
                     sorting: Sort, contractTypes: set<TypeName>): Result<seq<VaultStatesRow>, PagingError>
  {
    Slice(storage.rows(index, WithDefaults(criteria, contractTypes), Replay([], sorting.columns)), PageWindow(paging))
  }

  /** `_queryBy`. Failures come in the source's order: an unloadable stored
      class, a criteria the parser refuses, a sort column that is not an
      attribute, a negative window, a row that does not rebuild. The total is
      the count of the whole table, whatever the criteria. */
  method QueryBy<S>(reg: Registry, table: seq<VaultStatesRow>, storage: Storage, codec: Codec<S>,
                    criteria: QueryCriteria, paging: PageSpecification, sorting: Sort, contractTypes: set<TypeName>)
      returns (r: Result<Page<S>, VaultQueryError>)
    requires reg.Valid()
    ensures !AllLoadable(reg, ClassNames(table)) ==>
      && r.Failure? && r.error.TypeResolution?
      && StoredButUnloadable(reg, table, r.error.resolveError.className)
    ensures AllLoadable(reg, ClassNames(table)) ==>
      var index := IndexOf(reg, DistinctNames(ClassNames(table)));
      var verdict := storage.parse(index, WithDefaults(criteria, contractTypes));
      var rows := PagedRows(index, storage, criteria, paging, sorting, contractTypes);
      && (verdict.Some? ==> r == Failure(CriteriaRejected(verdict.value)))
      && (verdict.None? && !AllKnown(sorting.columns, storage.attributes) ==>
            r.Failure? && r.error.UnknownSort? &&
            exists k: nat :: FirstUnknown(sorting.columns, storage.attributes, k) &&
              r.error.sortError == UnknownSortColumn(sorting.columns[k].columnName))
      && (verdict.None? && AllKnown(sorting.columns, storage.attributes) ==>
            && (rows.Failure? ==> r == Failure(InvalidPaging(rows.error)))
            && (rows.Success? ==>
                  && (r.Success? <==> forall i :: 0 <= i < |rows.value| ==> RowOk(codec, rows.value[i]))
                  && (r.Failure? ==> r.error.BadRow? && FirstFailure(codec, rows.value, r.error.rowError))))
    ensures r.Success? ==>
      && AllLoadable(reg, ClassNames(table))
      && var index := IndexOf(reg, DistinctNames(ClassNames(table)));
      && var rows := PagedRows(index, storage, criteria, paging, sorting, contractTypes);
      && storage.parse(index, WithDefaults(criteria, contractTypes)).None?
      && AllKnown(sorting.columns, storage.attributes)
      && rows.Success?
      && |r.value.states| == |rows.value| && |r.value.statesMetadata| == |rows.value|
      && (forall i :: 0 <= i < |rows.value| ==>
            && RowRef(codec, rows.value[i], i).Success?
            && r.value.states[i] == StateAndRef(codec.deserialize(rows.value[i].contractState).value, RowRef(codec, rows.value[i], i).value)
            && r.value.statesMetadata[i] == MetadataOf(rows.value[i], RowRef(codec, rows.value[i], i).value))
      && r.value.pageable == paging
      && r.value.totalStatesAvailable == WrapInt32(|table|)
  {
    var criteria' := WithDefaults(criteria, contractTypes);
    var resolved := ResolveUniqueContractStateTypes(reg, ClassNames(table));
    if resolved.Failure? {
      return Failure(TypeResolution(resolved.error));
    }
    var contractTypeMappings := resolved.value;
    var criteriaQuery := new CriteriaQuery();
    var rejected := storage.parse(contractTypeMappings, criteria');
    if rejected.Some? {
      return Failure(CriteriaRejected(rejected.value));
    }
    var unknownColumn := ApplySorting(criteriaQuery, sorting, storage.attributes);
    if unknownColumn.Some? {
      return Failure(UnknownSort(unknownColumn.value));
    }
    var totalStates := WrapInt32(|table|);
    var rows := Slice(storage.rows(contractTypeMappings, criteria', criteriaQuery.orderList), PageWindow(paging));
    if rows.Failure? {
      return Failure(InvalidPaging(rows.error));
    }
    var rebuilt := Reconstruct(codec, rows.value);
    if rebuilt.Failure? {
      return Failure(BadRow(rebuilt.error));
    }
    var (statesAndRefs, statesMeta) := rebuilt.value;
    return Success(Page(statesAndRefs, statesMeta, paging, totalStates));
  }
}
