# Vault query core of the Hibernate vault query service

This project models the core of `HibernateVaultQueryImpl`, the vault query
service of a Corda node. A vault query takes a criteria expression, a page
specification, a sort and a requested contract state type. It then:

1. merges the caller's criteria with the enforced defaults: unconsumed
   states of the contract types derived from the requested type;
2. resolves the contract index. The index maps every contract interface to
   the concrete contract state classes stored in the vault that implement it.
   It is built by walking each stored class's declared interfaces
   recursively, skipping the root `ContractState`;
3. parses the criteria, applies the sort columns to the criteria query
   (each must name an attribute of the vault states entity), and sets the
   page window (first result and maximum results);
4. counts the states and rebuilds the page. The decoded states and their
   metadata are two index-aligned lists that share one state reference per
   row.

Modules, one per component:

- `ContractTypes` (`contract_types.dfy`): `deriveContractInterfaces`. Class
  loading and reflection are replaced by a `Registry`: a map from class name
  to directly declared interfaces, plus a rank that proves the hierarchy is
  acyclic. The walk is a recursive method proved equal to the function
  `Ancestors`. `Ancestors` is then shown to be exactly the set of interfaces
  reachable by chains of non-root declared interfaces.
- `ContractIndex` (`contract_index.dfy`): `resolveUniqueContractStateTypes`.
  It has nested loops filling a map, and it is proved equal to `IndexOf`.
  `IndexOf` is characterised through the reference definition
  `Implementers`.
- `Criteria` (`criteria.dfy`): the default-criteria merge. A reference
  semantics, `Admits`, states which stored states a criteria admits.
- `Paging` (`paging.dfy`): the sort loop over a `CriteriaQuery` object whose
  `orderBy` replaces the ordering. It also holds the page window, with
  32-bit `Int` wrap-around, and the rows a window selects.
- `Reconstruction` (`reconstruction.dfy`): the loop that rebuilds states and
  metadata from the rows.
- `VaultQuery` (`vault_query.dfy`): `_queryBy`, composing all of the above.
- `Vault` and `Outcomes`: shared record types, `Option` and `Result`.

The model follows what the code does, including these behaviours, which a
caller might not expect:

- A stored class name that cannot be loaded aborts the whole resolution
  (`Class.forName` throws). It is not skipped.
- The total is the count of the whole table, not of the filtered states.
- Each sort column replaces the ordering set by the previous one, so only
  the last column orders the page.
- There is no check that the page size is positive. Only a negative first
  result or maximum is refused, by the query's own contract.

## Model

| member | source | states |
|---|---|---|
| `ContractTypes.DeriveContractInterfaces` | node/src/main/kotlin/net/corda/node/services/vault/HibernateVaultQueryImpl.kt:133-142 | the recursive walk, which accumulates into a set, returns exactly `Ancestors(reg, c)` |
| `ContractTypes.AncestorsExact` | node/src/main/kotlin/net/corda/node/services/vault/HibernateVaultQueryImpl.kt:133-142 | x is derived from c iff a chain of declared non-root interfaces leads from c to x (the transitive non-root ancestors) |
| `ContractTypes.RootAndSelfExcluded` | node/src/main/kotlin/net/corda/node/services/vault/HibernateVaultQueryImpl.kt:135-139 | the root `ContractState` is never derived, and neither is the class itself |
| `ContractTypes.OnlyThroughRootExcluded` | node/src/main/kotlin/net/corda/node/services/vault/HibernateVaultQueryImpl.kt:135-139 | an interface that no root-free chain reaches (reachable only through `ContractState`) is not derived |
| `ContractTypes.DeclaredInterfacesDerived` | node/src/main/kotlin/net/corda/node/services/vault/HibernateVaultQueryImpl.kt:135-138 | every declared interface of the class other than the root is derived |
| `ContractTypes.AncestorsClosed` | node/src/main/kotlin/net/corda/node/services/vault/HibernateVaultQueryImpl.kt:135-139 | the derived set is closed under taking declared non-root interfaces of its members |
| `ContractTypes.AncestorsLeast` | node/src/main/kotlin/net/corda/node/services/vault/HibernateVaultQueryImpl.kt:133-142 | the derived set is contained in every set that holds the class's non-root interfaces and is closed as above |
| `ContractIndex.DistinctNames` | node/src/main/kotlin/net/corda/node/services/vault/HibernateVaultQueryImpl.kt:114-119 | `select distinct` yields every stored class name, and each only once |
| `ContractIndex.ResolveUniqueContractStateTypes` | node/src/main/kotlin/net/corda/node/services/vault/HibernateVaultQueryImpl.kt:112-131 | succeeds iff every stored name can be loaded, and then returns `IndexOf` of the distinct names; otherwise fails with a stored name that cannot be loaded |
| `ContractIndex.AddToEach` | node/src/main/kotlin/net/corda/node/services/vault/HibernateVaultQueryImpl.kt:125-128 | `getOrPut(...).add(name)` over every derived interface appends the name to each of their lists, creating missing lists, and leaves other keys alone |
| `ContractIndex.IndexIsImplementers` | node/src/main/kotlin/net/corda/node/services/vault/HibernateVaultQueryImpl.kt:121-129 | each list is exactly the stored names, in order, whose derived interfaces include the key, and a key exists iff that list is non-empty |
| `ContractIndex.IndexMembership` | node/src/main/kotlin/net/corda/node/services/vault/HibernateVaultQueryImpl.kt:121-129 | name n is listed under interface I iff n is stored and I is derived from n |
| `ContractIndex.IndexKeys` | node/src/main/kotlin/net/corda/node/services/vault/HibernateVaultQueryImpl.kt:121-129 | a key exists iff some stored name derives it |
| `ContractIndex.IndexNoDuplicates` | node/src/main/kotlin/net/corda/node/services/vault/HibernateVaultQueryImpl.kt:116-128 | with distinct stored names, no list holds a name twice |
| `ContractIndex.RootNotIndexed` | node/src/main/kotlin/net/corda/node/services/vault/HibernateVaultQueryImpl.kt:122-128 | `ContractState` is never a key of the index |
| `Criteria.WithDefaults` | node/src/main/kotlin/net/corda/node/services/vault/HibernateVaultQueryImpl.kt:36-44 | a vault criteria keeps its status and other fields, and its types become own ∪ derived (just derived when own is null); any other criteria becomes `criteria AND VaultQueryCriteria(UNCONSUMED, derived)` with the original as left operand |
| `Criteria.NonVaultCriteriaRestricted` | node/src/main/kotlin/net/corda/node/services/vault/HibernateVaultQueryImpl.kt:42-43 | a non-vault criteria, once merged, admits a state iff the original admits it and the default vault leaf of line 43 admits it: the state is unconsumed, of a derived type, and admitted by that leaf's other fields at their defaults |
| `Criteria.VaultCriteriaWidened` | node/src/main/kotlin/net/corda/node/services/vault/HibernateVaultQueryImpl.kt:39-41 | a merged vault criteria admits a state iff its own status and fields do and the state is of a derived type or of one of its own types |
| `Criteria.TypedVaultCriteriaOnlyGains` | node/src/main/kotlin/net/corda/node/services/vault/HibernateVaultQueryImpl.kt:39-41 | a vault criteria that already filters by type loses no state through the merge |
| `Criteria.VaultMergeIdempotent` | node/src/main/kotlin/net/corda/node/services/vault/HibernateVaultQueryImpl.kt:39-41 | merging a vault criteria twice with the same derived types equals merging it once |
| `Paging.CriteriaQuery.OrderBy` | node/src/main/kotlin/net/corda/node/services/vault/HibernateVaultQueryImpl.kt:63-67 | `orderBy` replaces the query's ordering with the one order given |
| `Paging.ApplySorting` | node/src/main/kotlin/net/corda/node/services/vault/HibernateVaultQueryImpl.kt:62-69 | succeeds iff every sort column names an attribute of the vault states entity, and the ordering is then that of issuing one `orderBy` per column, in turn; otherwise it fails on the first unknown column, with the orderings of the columns before it already issued |
| `Paging.LastColumnWins` | node/src/main/kotlin/net/corda/node/services/vault/HibernateVaultQueryImpl.kt:62-69 | the resulting ordering is the last column's order alone; an empty sort leaves the ordering unchanged |
| `Paging.PrimaryKeyDropped` | node/src/main/kotlin/net/corda/node/services/vault/HibernateVaultQueryImpl.kt:62-69 | with two or more columns, the first column's order is not in the ordering (unless it equals the last one's) |
| `Paging.WrapInt32` | node/src/main/kotlin/net/corda/node/services/vault/HibernateVaultQueryImpl.kt:77-79 | a JVM `Int` result agrees with the exact value modulo 2^32, and equals it when it fits |
| `Paging.PageWindow` | node/src/main/kotlin/net/corda/node/services/vault/HibernateVaultQueryImpl.kt:79-80 | the limit is `pageSize`, and the offset is `pageNumber * pageSize` modulo 2^32 |
| `Paging.PageOffset` | node/src/main/kotlin/net/corda/node/services/vault/HibernateVaultQueryImpl.kt:79 | when the product fits in an `Int`, the offset is exactly `pageNumber * pageSize` |
| `Paging.PageOffsetWraps` | node/src/main/kotlin/net/corda/node/services/vault/HibernateVaultQueryImpl.kt:79 | page 65536 of size 65536 overflows to offset 0 |
| `Paging.ConsecutivePagesAdjacent` | node/src/main/kotlin/net/corda/node/services/vault/HibernateVaultQueryImpl.kt:79-80 | for a non-negative page number and size, when page n + 1's offset still fits in an `Int`, page n + 1 starts exactly one page size after page n |
| `Paging.ConsecutivePagesWrap` | node/src/main/kotlin/net/corda/node/services/vault/HibernateVaultQueryImpl.kt:79 | once the next offset overflows an `Int`, consecutive pages are not adjacent: page 1 of size 2^31 - 1 starts at 2^31 - 1, and page 2 starts at -2 |
| `Paging.Slice` | node/src/main/kotlin/net/corda/node/services/vault/HibernateVaultQueryImpl.kt:79-83 | a window succeeds iff offset and limit are non-negative; it then returns min(limit, rows left after the offset) rows, the k-th being row offset + k |
| `Paging.AdjacentWindows` | node/src/main/kotlin/net/corda/node/services/vault/HibernateVaultQueryImpl.kt:79-83 | two windows of one size, the second starting where the first ends, together select the rows between their bounds |
| `Paging.SecondPageOfTen` | node/src/main/kotlin/net/corda/node/services/vault/HibernateVaultQueryImpl.kt:79-83 | on a result of at least 20 rows, page 1 of size 10 returns rows 10 to 19 |
| `Reconstruction.RowRef` | node/src/main/kotlin/net/corda/node/services/vault/HibernateVaultQueryImpl.kt:89 | the reference is `StateRef(parse(txId), index)`; it fails iff a null is dereferenced or the id does not parse |
| `Reconstruction.Reconstruct` | node/src/main/kotlin/net/corda/node/services/vault/HibernateVaultQueryImpl.kt:84-93 | succeeds iff every row rebuilds; both lists then have the rows' length and order, and the same reference at each index; otherwise the first failing row aborts with its error |
| `VaultQuery.QueryBy` | node/src/main/kotlin/net/corda/node/services/vault/HibernateVaultQueryImpl.kt:32-95 | fails, in this order, on an unloadable stored class, on criteria the parser refuses, on the first sort column that is not an entity attribute, on a negative window, or on the first row that does not rebuild (with that row's own error); a resolution failure names a stored class that cannot be loaded; otherwise the page is the rebuilt window of the rows the merged criteria and last-column ordering select, it echoes the page specification, and its total is the unfiltered table count as an `Int` |

## Left out

- Hibernate session, `EntityManager`, criteria builder and transaction handling (`session.use`, `TransactionManager`): storage plumbing.
- `HibernateQueryCriteriaParser.parse` and the database engine running the query are not part of this model. `VaultQuery.QueryBy` takes them as a `Storage` value: the parser's verdict on the merged criteria (refusal or acceptance), the entity's attribute names, and a function from index, criteria and ordering to the matching rows in order. `Criteria.Admits` takes the parser's type, field and leaf lookups as parameters.
- `deriveContractTypes` is not part of this model; its result is an input set.
- The full `QueryCriteria` class hierarchy and its leaf fields are not modelled: `Criteria.QueryCriteria` keeps the vault criteria and the two compositions, and every other leaf is one `OtherCriteria` case. A vault criteria's fields other than status and contract types are one opaque map, copied unchanged by the merge.
- Class loading and reflection become the `Registry` value. As with `Class.getInterfaces`, only directly declared interfaces are listed, so interfaces inherited from a superclass are not walked.
- Kryo deserialization and `SecureHash.parse` are foreign calls. They are the `Codec` parameters, each of which may fail.
- `ContractIndex.DistinctNames`: fixes the order of `select distinct` to first appearance, which SQL leaves open. Only the order within the index's lists depends on it.
- `Paging.Slice`: models the window as the JPA query contract states it (negative arguments refused, at most the maximum rows from the offset). Hibernate, not the database, reads a maximum of 0 as "no limit", so in the source `PageSpecification(n, 0)` may return every row from the offset, while the model returns none.
- `ContractTypes.DeriveContractInterfaces` and `ContractIndex.ResolveUniqueContractStateTypes`: `mutableSetOf` and `mutableMapOf` (source lines 121 and 134) keep insertion order; the model's `set` and `map` do not, so the order in which interfaces and index keys are found is not captured.
- `trackBy`: it is only a `TODO()`.
- Logging, and the rethrow of `e.cause ?: e`: every failure is one `VaultQueryError` value; the exception chain is not modelled.
