/** The vault's stored records and the values a query hands back. */
module Vault {
  import opened Outcomes
  import opened ContractTypes

  /** Lifecycle status of a stored state; ALL is only meaningful as a filter. */
  datatype StateStatus = UNCONSUMED | CONSUMED | ALL

  /** A JVM `Int`: the range of a 32-bit two's complement integer. */
  type Int32 = x: int | -0x8000_0000 <= x < 0x8000_0000

  /** A point in time, as stored in the vault (milliseconds; only compared for equality here). */
  type Instant = int

  /** A transaction identifier. */
  datatype SecureHash = SecureHash(bytes: seq<bv8>)

  /** A reference to one output of one transaction. */
  datatype StateRef = StateRef(txhash: SecureHash, index: Int32)

  /** The persisted form of a state reference; both columns are nullable. */
  datatype PersistentStateRef = PersistentStateRef(txId: Option<string>, index: Option<Int32>)

  /** One row of the vault states table (the `VaultStates` entity). */
  datatype VaultStatesRow = VaultStatesRow(
    stateRef: Option<PersistentStateRef>,
    contractStateClassName: TypeName,
    contractState: seq<bv8>,
    recordedTime: Instant,
    consumedTime: Option<Instant>,
    stateStatus: StateStatus,
    notaryName: string,
    notaryKey: string,
    lockId: Option<string>,
    lockUpdateTime: Option<Instant>)

  /** The per-state metadata a query page carries beside each state. */
  datatype StateMetadata = StateMetadata(
    ref: StateRef,
    contractStateClassName: TypeName,
    recordedTime: Instant,
    consumedTime: Option<Instant>,
    status: StateStatus,
    notaryName: string,
    notaryKey: string,
    lockId: Option<string>,
    lockUpdateTime: Option<Instant>)

  /** A decoded state together with the reference it was stored under. */
  datatype StateAndRef<S> = StateAndRef(state: S, ref: StateRef)
}
