/** Rebuilding the page's states and metadata from the rows a vault query
    returned: one state reference per row, shared by the decoded state and
    its metadata, in two index-aligned lists. */
module Reconstruction {
  import opened Outcomes
  import opened Vault

  /** Why a row could not be turned into a state; `row` is its position. */
  datatype RowError =
    | NullStateRef(row: nat)        // `stateRef!!`, `txId!!` or `index!!` on a null
    | BadTxId(row: nat)             // `SecureHash.parse` refused the stored id
    | Undecodable(row: nat)         // the stored bytes do not deserialize

  /** The foreign calls of reconstruction: parsing a transaction id and
      deserializing a stored state. Both may fail. */
  datatype Codec<S> = Codec(parseHash: string -> Option<SecureHash>, deserialize: seq<bv8> -> Option<S>)

  /** The state reference of a row, `StateRef(SecureHash.parse(txId!!), index!!)`,
      failing as that expression does, in evaluation order. */
  function RowRef<S>(codec: Codec<S>, row: VaultStatesRow, at: nat): (r: Result<StateRef, RowError>)
    ensures r.Success? <==>
      && row.stateRef.Some? && row.stateRef.value.txId.Some? && row.stateRef.value.index.Some?
      && codec.parseHash(row.stateRef.value.txId.value).Some?
    ensures r.Success? ==>
      r.value == StateRef(codec.parseHash(row.stateRef.value.txId.value).value, row.stateRef.value.index.value)
    ensures r.Failure? ==> r.error.row == at
  {
    if row.stateRef.None? || row.stateRef.value.txId.None? then Failure(NullStateRef(at))
    else
      var hash := codec.parseHash(row.stateRef.value.txId.value);
      if hash.None? then Failure(BadTxId(at))
      else if row.stateRef.value.index.None? then Failure(NullStateRef(at))
      else Success(StateRef(hash.value, row.stateRef.value.index.value))
  }

  /** The metadata recorded for a row under the given reference. */
  function MetadataOf(row: VaultStatesRow, ref: StateRef): StateMetadata
  {
    StateMetadata(ref, row.contractStateClassName, row.recordedTime, row.consumedTime, row.stateStatus,
                  row.notaryName, row.notaryKey, row.lockId, row.lockUpdateTime)
  }

  /** Whether a row reconstructs without error. */
  predicate RowOk<S>(codec: Codec<S>, row: VaultStatesRow)
  {
    RowRef(codec, row, 0).Success? && codec.deserialize(row.contractState).Some?
  }

  /** The error a failing row raises: first its reference, then its payload. */
  function RowFailure<S>(codec: Codec<S>, row: VaultStatesRow, at: nat): RowError
  {
    var ref := RowRef(codec, row, at);
    if ref.Failure? then ref.error else Undecodable(at)
  }

  /** `e` is what the first failing row of `results` throws. */
  predicate FirstFailure<S>(codec: Codec<S>, results: seq<VaultStatesRow>, e: RowError)
  {
    && e.row < |results|
    && !RowOk(codec, results[e.row])
    && e == RowFailure(codec, results[e.row], e.row)
    && forall i :: 0 <= i < e.row ==> RowOk(codec, results[i])
  }

  /** The reconstruction loop of `_queryBy`: appends to `statesAndRefs` and
      `statesMeta` row by row; the first row that fails aborts the page. */
  method Reconstruct<S>(codec: Codec<S>, results: seq<VaultStatesRow>)
      returns (r: Result<(seq<StateAndRef<S>>, seq<StateMetadata>), RowError>)
    ensures r.Success? <==> forall i :: 0 <= i < |results| ==> RowOk(codec, results[i])
    ensures r.Success? ==>
      var (statesAndRefs, statesMeta) := r.value;
      && |statesAndRefs| == |results| && |statesMeta| == |results|
      && forall i :: 0 <= i < |results| ==>
           && RowRef(codec, results[i], i).Success?
           && statesAndRefs[i] == StateAndRef(codec.deserialize(results[i].contractState).value, RowRef(codec, results[i], i).value)
           && statesMeta[i] == MetadataOf(results[i], RowRef(codec, results[i], i).value)
           && statesAndRefs[i].ref == statesMeta[i].ref
    ensures r.Failure? ==> FirstFailure(codec, results, r.error)
  {
    var statesAndRefs: seq<StateAndRef<S>> := [];
    var statesMeta: seq<StateMetadata> := [];
    for i := 0 to |results|
      invariant |statesAndRefs| == i && |statesMeta| == i
      invariant forall j :: 0 <= j < i ==> RowOk(codec, results[j])
      invariant forall j :: 0 <= j < i ==>
        && RowRef(codec, results[j], j).Success?
        && statesAndRefs[j] == StateAndRef(codec.deserialize(results[j].contractState).value, RowRef(codec, results[j], j).value)
        && statesMeta[j] == MetadataOf(results[j], RowRef(codec, results[j], j).value)
    {
      var it := results[i];
      var stateRef := RowRef(codec, it, i);
      if stateRef.Failure? {
        return Failure(stateRef.error);
      }
      var state := codec.deserialize(it.contractState);
      if state.None? {
        return Failure(Undecodable(i));
      }
      statesMeta := statesMeta + [MetadataOf(it, stateRef.value)];
      statesAndRefs := statesAndRefs + [StateAndRef(state.value, stateRef.value)];
    }
    return Success((statesAndRefs, statesMeta));
  }
}
