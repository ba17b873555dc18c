/** Values the gateway exchanges with its callers. */
module Domain {
  import opened Outcomes

  type FeltHex = string
  type OperationId = string

  datatype ChainId = Mainnet | Sepolia

  datatype ErrorCode =
    | ChainMismatch | InvalidCachePolicy | InvalidWaitPolicy | InvalidRequest | InvalidDerivationPath
    | UnsupportedKeyDomain | UnsupportedAccountClass | Internal
    | Reported(name: string)  // codes only a backend or resolver produces

  datatype GatewayError = GatewayError(code: ErrorCode, retryable: bool, message: string)

  datatype GatewayResult<+T> = Success(value: T) | Failure(error: GatewayError) {
    predicate IsFailure() {
      Failure?
    }

    function PropagateFailure<U>(): GatewayResult<U>
      requires Failure?
    {
      Failure(error)
    }

    function Extract(): T
      requires Success?
    {
      value
    }
  }

  datatype KeyDomain = StarknetAccount | TongoAccount | NostrEvent

  datatype DerivationPath = DerivationPath(coinType: nat, accountIndex: nat, addressIndex: nat)

  datatype Provenance = Provenance(chain: ChainId, domain: KeyDomain, path: DerivationPath, classHash: Option<FeltHex>)

  datatype OperationKind = DeriveAccount | CheckDeployment | DeployAccount | Sign | QueryAccountSnapshot

  datatype OperationState =
    | Queued | Running | Completed
    | Submitted(txHash: FeltHex) | Accepted(txHash: FeltHex)
    | Rejected(error: GatewayError) | Expired

  datatype OperationStatus = OperationStatus(id: OperationId, kind: OperationKind, state: OperationState,
                                             provenance: Option<Provenance>)

  // ----- snapshots

  datatype BlockSelector = Latest | Pending | Number(number: nat) | Hash(hash: FeltHex)
  datatype QueryMode = ActiveView | BackgroundView
  datatype TrackedToken = TrackedToken(symbol: string, address: FeltHex, decimals: nat)
  datatype CachePolicy = CachePolicy(ttlMs: nat, staleMs: nat)
  datatype CacheStatus = Miss | Hit | Stale
  datatype CacheMetadata = CacheMetadata(status: CacheStatus, generatedAtMs: nat, ageMs: nat)

  datatype SnapshotRequest = SnapshotRequest(chain: ChainId, address: FeltHex, tokens: seq<TrackedToken>,
                                             block: BlockSelector, mode: QueryMode, policy: CachePolicy)

  datatype BlockMetadata = BlockMetadata(selector: BlockSelector, hash: Option<FeltHex>, number: Option<nat>)
  datatype TokenBalance = TokenBalance(token: TrackedToken, amount: string)

  datatype Snapshot = Snapshot(address: FeltHex, deployed: bool, nonce: Option<FeltHex>,
                               balances: seq<TokenBalance>, block: BlockMetadata, cache: CacheMetadata)
}
