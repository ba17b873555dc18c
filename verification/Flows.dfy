/** What each gateway call decides, given what the resolver, the signer and the
    backend answer it. */
module Flows {
  import opened Outcomes
  import opened Domain

  const MAX_WAIT_TIMEOUT_MS: nat := 15 * 60 * 1000
  const MIN_WAIT_POLL_INTERVAL_MS: nat := 250
  const MAX_SNAPSHOT_TOKENS: nat := 16

  datatype AccountClassKind = OpenZeppelin | Argent | Braavos
  datatype DerivationRequest = DerivationRequest(secret: string, domain: KeyDomain, chain: ChainId,
                                                 path: DerivationPath, classKind: AccountClassKind)
  datatype DeployMode = SubmitOnly | WaitForAcceptance(pollMs: nat, timeoutMs: nat)

  datatype StarkKeyDomain = StarknetKey | TongoKey
  datatype SignRequest =
    | StarkHash(starkDomain: StarkKeyDomain, path: DerivationPath, chain: ChainId, hash: FeltHex, allowRaw: bool)
    | StarkRawMessage(starkDomain: StarkKeyDomain, path: DerivationPath, message: FeltHex, allowRaw: bool)
    | NostrEventId(path: DerivationPath, eventId: seq<bv8>)
    | NostrRawMessage(path: DerivationPath, payload: seq<bv8>)

  /** A derived account.  The address arithmetic is an answer, not modelled. */
  datatype Account = Account(address: FeltHex, publicKey: FeltHex, classHash: FeltHex, provenance: Provenance)
  datatype Derived = Derived(address: FeltHex, publicKey: FeltHex, classHash: FeltHex)
  datatype Deployment = Undeployed | Deploying(txHash: FeltHex) | Deployed
  datatype DeployExecution = AlreadyDeployed | DeploySubmitted(txHash: FeltHex) | DeployAccepted(txHash: FeltHex)

  datatype Value =
    | AccountValue(account: Account)
    | DeploymentValue(account: Account, deployment: Deployment)
    | DeployValue(account: Account, deployment: Deployment, already: bool)
    | SignatureValue(signature: string)
    | SnapshotValue(snapshot: Snapshot)

  /** The terminal state a call writes, the provenance it writes with it, and
      what it returns. */
  datatype Outcome = Outcome(state: OperationState, provenance: Option<Provenance>, answer: GatewayResult<Value>)

  /** What the world answers one call, where it is asked. */
  datatype Answers = Answers(resolve: GatewayResult<string>, derive: GatewayResult<Derived>,
                             deployed: GatewayResult<bool>, deploy: GatewayResult<DeployExecution>,
                             sign: GatewayResult<string>)

  function Refusal(code: ErrorCode): GatewayError {
    GatewayError(code, false, "")
  }

  function Reject(error: GatewayError, provenance: Option<Provenance>): Outcome {
    Outcome(Rejected(error), provenance, Failure(error))
  }

  // ----- checks

  function CoinType(domain: KeyDomain): nat {
    match domain
    case StarknetAccount => 9004
    case TongoAccount => 5454
    case NostrEvent => 1237
  }

  function CheckChain(chain: ChainId, requested: ChainId): GatewayResult<bool> {
    if requested != chain then Failure(Refusal(ChainMismatch)) else Success(true)
  }

  function CheckPath(path: DerivationPath, domain: KeyDomain): GatewayResult<bool> {
    if path.coinType != CoinType(domain) then Failure(Refusal(InvalidDerivationPath)) else Success(true)
  }

  /** Waits are accepted exactly within the bounds on interval and timeout. */
  function CheckWait(mode: DeployMode): (r: GatewayResult<bool>)
    ensures r.Success? <==> (mode.WaitForAcceptance? ==> 250 <= mode.pollMs <= 900_000 && 1 <= mode.timeoutMs <= 900_000)
    ensures r.Failure? ==> r.error.code == InvalidWaitPolicy
  {
    match mode
    case SubmitOnly => Success(true)
    case WaitForAcceptance(poll, timeout) =>
      if poll < MIN_WAIT_POLL_INTERVAL_MS then Failure(Refusal(InvalidWaitPolicy))
      else if poll > MAX_WAIT_TIMEOUT_MS then Failure(Refusal(InvalidWaitPolicy))
      else if timeout == 0 then Failure(Refusal(InvalidWaitPolicy))
      else if timeout > MAX_WAIT_TIMEOUT_MS then Failure(Refusal(InvalidWaitPolicy))
      else Success(true)
  }

  function CheckSnapshot(chain: ChainId, r: SnapshotRequest): (result: GatewayResult<bool>)
    ensures result.Success? <==> r.chain == chain && r.policy.ttlMs > 0 && |r.tokens| <= MAX_SNAPSHOT_TOKENS
  {
    var _ :- CheckChain(chain, r.chain);
    if r.policy.ttlMs == 0 then Failure(Refusal(InvalidCachePolicy))
    else if |r.tokens| > MAX_SNAPSHOT_TOKENS then Failure(Refusal(InvalidRequest))
    else Success(true)
  }

  // ----- account flows

  function DeriveAccount(chain: ChainId, r: DerivationRequest, a: Answers): GatewayResult<Account> {
    var _ :- CheckChain(chain, r.chain);
    var _ :- CheckPath(r.path, r.domain);
    if r.domain != StarknetAccount then Failure(Refusal(UnsupportedKeyDomain))
    else
      var _ :- a.resolve;
      var d :- a.derive;
      Success(Account(d.address, d.publicKey, d.classHash, Provenance(r.chain, r.domain, r.path, Some(d.classHash))))
  }

  function Derive(chain: ChainId, r: DerivationRequest, a: Answers): Outcome {
    match DeriveAccount(chain, r, a)
    case Success(account) => Outcome(Completed, Some(account.provenance), Success(AccountValue(account)))
    case Failure(error) => Reject(error, None)
  }

  function Check(chain: ChainId, r: DerivationRequest, a: Answers): Outcome {
    match DeriveAccount(chain, r, a)
    case Success(account) => (
      match a.deployed
      case Success(true) =>
        Outcome(Completed, Some(account.provenance), Success(DeploymentValue(account, Deployed)))
      case Success(false) =>
        Outcome(Completed, Some(account.provenance), Success(DeploymentValue(account, Undeployed)))
      case Failure(error) => Reject(error, Some(account.provenance)))
    case Failure(error) => Reject(error, None)
  }

  function Deploy(chain: ChainId, r: DerivationRequest, mode: DeployMode, a: Answers): Outcome {
    var wait := CheckWait(mode);
    if wait.Failure? then Reject(wait.error, None)
    else
      match DeriveAccount(chain, r, a)
      case Success(account) => (
        if !r.classKind.OpenZeppelin? then Reject(Refusal(UnsupportedAccountClass), Some(account.provenance))
        else
          match a.deploy
          case Success(AlreadyDeployed) =>
            Outcome(Completed, Some(account.provenance), Success(DeployValue(account, Deployed, true)))
          case Success(DeploySubmitted(tx)) =>
            Outcome(Submitted(tx), Some(account.provenance), Success(DeployValue(account, Deploying(tx), false)))
          case Success(DeployAccepted(tx)) =>
            Outcome(Accepted(tx), Some(account.provenance), Success(DeployValue(account, Deployed, false)))
          case Failure(error) => Reject(error, Some(account.provenance)))
      case Failure(error) => Reject(error, None)
  }

  // ----- signing

  function SignDomain(r: SignRequest): KeyDomain {
    match r
    case StarkHash(d, _, _, _, _) => StarkDomain(d)
    case StarkRawMessage(d, _, _, _) => StarkDomain(d)
    case NostrEventId(_, _) => NostrEvent
    case NostrRawMessage(_, _) => NostrEvent
  }

  function StarkDomain(d: StarkKeyDomain): KeyDomain {
    if d.StarknetKey? then StarknetAccount else TongoAccount
  }

  function SignChain(r: SignRequest): Option<ChainId> {
    if r.StarkHash? then Some(r.chain) else None
  }

  function SignProvenance(r: SignRequest): Option<Provenance> {
    match SignChain(r)
    case Some(chain) => Some(Provenance(chain, SignDomain(r), r.path, None))
    case None => None
  }

  function CheckSign(r: SignRequest): GatewayResult<bool> {
    var _ :- CheckPath(r.path, SignDomain(r));
    match r
    case StarkHash(_, _, _, _, allowRaw) => if allowRaw then Success(true) else Failure(Refusal(InvalidRequest))
    case StarkRawMessage(_, _, _, allowRaw) => if allowRaw then Success(true) else Failure(Refusal(InvalidRequest))
    case NostrEventId(_, eventId) => if |eventId| == 32 then Success(true) else Failure(Refusal(InvalidRequest))
    case NostrRawMessage(_, _) => Success(true)
  }

  function SignPayload(chain: ChainId, r: SignRequest, a: Answers): Outcome {
    var valid := CheckSign(r);
    if valid.Failure? then Reject(valid.error, None)
    else if SignChain(r).Some? && CheckChain(chain, SignChain(r).value).Failure? then
      Reject(CheckChain(chain, SignChain(r).value).error, None)
    else if a.resolve.Failure? then Reject(a.resolve.error, None)
    else
      match a.sign
      case Success(signature) => Outcome(Completed, SignProvenance(r), Success(SignatureValue(signature)))
      case Failure(error) => Reject(error, SignProvenance(r))
  }

  // ----- what the decisions have in common

  /** The written state is Rejected with the returned error exactly when an
      error is returned, and terminal either way. */
  predicate Agrees(o: Outcome) {
    match o.answer
    case Failure(error) => o.state == Rejected(error)
    case Success(_) => o.state.Completed? || o.state.Submitted? || o.state.Accepted?
  }

  /** Recorded provenance names the backend's own chain and a path of its
      key domain: facts the gateway checked, not caller claims. */
  predicate Attested(chain: ChainId, p: Option<Provenance>) {
    p.Some? ==>
      && p.value.chain == chain
      && p.value.path.coinType == (match p.value.domain case StarknetAccount => 9004 case TongoAccount => 5454 case NostrEvent => 1237)
  }

  datatype Request =
    | DeriveRequest(derivation: DerivationRequest)
    | CheckRequest(derivation: DerivationRequest)
    | DeployRequest(derivation: DerivationRequest, mode: DeployMode)
    | SignCall(sign: SignRequest)
    | QueryRequest(query: SnapshotRequest)

  function KindOf(r: Request): OperationKind {
    match r
    case DeriveRequest(_) => OperationKind.DeriveAccount
    case CheckRequest(_) => CheckDeployment
    case DeployRequest(_, _) => DeployAccount
    case SignCall(_) => Sign
    case QueryRequest(_) => QueryAccountSnapshot
  }

  function Decide(chain: ChainId, r: Request, a: Answers): Outcome
    requires !r.QueryRequest?
  {
    match r
    case DeriveRequest(d) => Derive(chain, d, a)
    case CheckRequest(d) => Check(chain, d, a)
    case DeployRequest(d, mode) => Deploy(chain, d, mode, a)
    case SignCall(s) => SignPayload(chain, s, a)
  }

  /** What a request must satisfy for its call to succeed. */
  predicate Admissible(chain: ChainId, r: Request) {
    match r
    case DeriveRequest(d) => AdmissibleAccount(chain, d)
    case CheckRequest(d) => AdmissibleAccount(chain, d)
    case DeployRequest(d, mode) =>
      && AdmissibleAccount(chain, d) && d.classKind.OpenZeppelin?
      && (mode.WaitForAcceptance? ==> 250 <= mode.pollMs <= 900_000 && 1 <= mode.timeoutMs <= 900_000)
    case SignCall(s) =>
      && s.path.coinType == SignCoin(s)
      && (s.StarkHash? ==> s.allowRaw && s.chain == chain)
      && (s.StarkRawMessage? ==> s.allowRaw)
      && (s.NostrEventId? ==> |s.eventId| == 32)
    case QueryRequest(q) => q.chain == chain && q.policy.ttlMs > 0 && |q.tokens| <= 16
  }

  /** The coin type a signing path must have. */
  function SignCoin(s: SignRequest): nat {
    if s.NostrEventId? || s.NostrRawMessage? then 1237 else if s.starkDomain.StarknetKey? then 9004 else 5454
  }

  predicate AdmissibleAccount(chain: ChainId, d: DerivationRequest) {
    d.chain == chain && d.domain.StarknetAccount? && d.path.coinType == 9004
  }

  /** A call whose request is not admissible fails, whatever the world answers;
      an admissible one succeeds exactly when every answer it asks for does. */
  lemma SucceedsWhen(chain: ChainId, r: Request, a: Answers)
    requires !r.QueryRequest?
    ensures Decide(chain, r, a).answer.Success? <==> Admissible(chain, r) && Answered(r, a)
  {
  }

  predicate Answered(r: Request, a: Answers) {
    && a.resolve.Success?
    && (if r.SignCall? then a.sign.Success? else a.derive.Success?)
    && (r.CheckRequest? ==> a.deployed.Success?)
    && (r.DeployRequest? ==> a.deploy.Success?)
  }

  lemma DecisionsAgree(chain: ChainId, r: Request, a: Answers)
    requires !r.QueryRequest?
    ensures Agrees(Decide(chain, r, a)) && Attested(chain, Decide(chain, r, a).provenance)
  {
  }

  /** The account is the derived one, for this request. */
  predicate IsAccount(account: Account, r: DerivationRequest, d: Derived) {
    && account.address == d.address && account.publicKey == d.publicKey && account.classHash == d.classHash
    && account.provenance.chain == r.chain && account.provenance.domain == r.domain
    && account.provenance.path == r.path && account.provenance.classHash == Some(d.classHash)
  }

  /** A successful response says what the world answered, and agrees with the
      operation written for it. */
  predicate Reports(r: Request, a: Answers, state: OperationState, p: Option<Provenance>, v: Value)
    requires !r.QueryRequest?
  {
    match r
    case DeriveRequest(d) =>
      && state == Completed && a.derive.Success? && v.AccountValue?
      && IsAccount(v.account, d, a.derive.value) && p == Some(v.account.provenance)
    case CheckRequest(d) =>
      && state == Completed && a.derive.Success? && v.DeploymentValue?
      && IsAccount(v.account, d, a.derive.value) && p == Some(v.account.provenance)
      && a.deployed.Success? && (if a.deployed.value then v.deployment == Deployed else v.deployment == Undeployed)
    case DeployRequest(d, _) =>
      && a.derive.Success? && v.DeployValue? && a.deploy.Success?
      && IsAccount(v.account, d, a.derive.value) && p == Some(v.account.provenance)
      && (match a.deploy.value
          case AlreadyDeployed => state == Completed && v.deployment == Deployed && v.already
          case DeploySubmitted(tx) => state == Submitted(tx) && v.deployment == Deploying(tx) && !v.already
          case DeployAccepted(tx) => state == Accepted(tx) && v.deployment == Deployed && !v.already)
    case SignCall(s) =>
      && state == Completed && a.sign.Success? && v == SignatureValue(a.sign.value)
      && p == if !s.StarkHash? then None
              else Some(Provenance(s.chain, if s.starkDomain.StarknetKey? then StarknetAccount else TongoAccount, s.path, None))
  }

  lemma DecisionsReport(chain: ChainId, r: Request, a: Answers)
    requires !r.QueryRequest?
    ensures var o := Decide(chain, r, a);
            o.answer.Success? ==> Reports(r, a, o.state, o.provenance, o.answer.value)
  {
  }

  // ----- why a call fails

  function When(failed: bool, code: ErrorCode): Option<GatewayError> {
    if failed then Some(GatewayError(code, false, "")) else None
  }

  function ErrorOf<T>(answer: GatewayResult<T>): Option<GatewayError> {
    if answer.Failure? then Some(answer.error) else None
  }

  function AccountObstacles(chain: ChainId, d: DerivationRequest, a: Answers): seq<Option<GatewayError>> {
    var coin := match d.domain case StarknetAccount => 9004 case TongoAccount => 5454 case NostrEvent => 1237;
    [When(d.chain != chain, ChainMismatch), When(d.path.coinType != coin, InvalidDerivationPath),
     When(d.domain != StarknetAccount, UnsupportedKeyDomain), ErrorOf(a.resolve), ErrorOf(a.derive)]
  }

  /** Everything that can stop a call, in the order it is met. */
  function Obstacles(chain: ChainId, r: Request, a: Answers): seq<Option<GatewayError>>
    requires !r.QueryRequest?
  {
    match r
    case DeriveRequest(d) => AccountObstacles(chain, d, a)
    case CheckRequest(d) => AccountObstacles(chain, d, a) + [ErrorOf(a.deployed)]
    case DeployRequest(d, mode) =>
      var badWait := mode.WaitForAcceptance? && !(250 <= mode.pollMs <= 900_000 && 1 <= mode.timeoutMs <= 900_000);
      [When(badWait, InvalidWaitPolicy)] + AccountObstacles(chain, d, a)
      + [When(!d.classKind.OpenZeppelin?, UnsupportedAccountClass), ErrorOf(a.deploy)]
    case SignCall(s) =>
      var badPayload := ((s.StarkHash? || s.StarkRawMessage?) && !s.allowRaw) || (s.NostrEventId? && |s.eventId| != 32);
      [When(s.path.coinType != SignCoin(s), InvalidDerivationPath), When(badPayload, InvalidRequest),
       When(s.StarkHash? && s.chain != chain, ChainMismatch), ErrorOf(a.resolve), ErrorOf(a.sign)]
  }

  /** Position of the first obstacle, or the length. */
  function First(obstacles: seq<Option<GatewayError>>): (i: nat)
    ensures i <= |obstacles| && (i < |obstacles| ==> obstacles[i].Some?)
    ensures forall j :: 0 <= j < i ==> obstacles[j] == None
  {
    if obstacles == [] || obstacles[0].Some? then 0 else 1 + First(obstacles[1..])
  }

  /** `e` is the first obstacle. */
  predicate StoppedBy(chain: ChainId, r: Request, a: Answers, e: GatewayError)
    requires !r.QueryRequest?
  {
    var obstacles := Obstacles(chain, r, a);
    First(obstacles) < |obstacles| && obstacles[First(obstacles)] == Some(e)
  }

  lemma FirstIs(obstacles: seq<Option<GatewayError>>, i: nat)
    requires i <= |obstacles| && (i < |obstacles| ==> obstacles[i].Some?)
    requires forall j :: 0 <= j < i ==> obstacles[j] == None
    ensures First(obstacles) == i
  {
    hide First;
  }

  lemma FirstOfAccount(chain: ChainId, d: DerivationRequest, a: Answers)
    ensures var o := AccountObstacles(chain, d, a);
            match DeriveAccount(chain, d, a)
            case Success(_) => First(o) == 5
            case Failure(e) => First(o) < 5 && o[First(o)] == Some(e)
  {
    hide First;
    var i := if d.chain != chain then 0 else if d.path.coinType != CoinType(d.domain) then 1
             else if !d.domain.StarknetAccount? then 2 else if a.resolve.Failure? then 3 else if a.derive.Failure? then 4 else 5;
    FirstIs(AccountObstacles(chain, d, a), i);
  }

  lemma FirstOfSign(chain: ChainId, s: SignRequest, a: Answers)
    ensures var o := Obstacles(chain, SignCall(s), a);
            match SignPayload(chain, s, a).answer
            case Success(_) => First(o) == 5
            case Failure(e) => First(o) < 5 && o[First(o)] == Some(e)
  {
    hide First;
    var i := if CheckPath(s.path, SignDomain(s)).Failure? then 0 else if CheckSign(s).Failure? then 1
             else if s.StarkHash? && s.chain != chain then 2 else if a.resolve.Failure? then 3 else if a.sign.Failure? then 4 else 5;
    FirstIs(Obstacles(chain, SignCall(s), a), i);
  }

  /** A call fails exactly when something stops it, and with the error of the
      first obstacle. */
  lemma FailsWithFirst(chain: ChainId, r: Request, a: Answers, e: GatewayError)
    requires !r.QueryRequest?
    ensures Decide(chain, r, a).answer == Failure(e) <==> StoppedBy(chain, r, a, e)
  {
    hide First, AccountObstacles;
    var o := Obstacles(chain, r, a);
    match r
    case DeriveRequest(d) =>
      FirstOfAccount(chain, d, a);
      FiveObstacles(chain, d, a);
    case CheckRequest(d) =>
      FirstOfAccount(chain, d, a);
      var i := First(AccountObstacles(chain, d, a));
      FiveObstacles(chain, d, a);
      FirstIs(o, if i < 5 then i else if a.deployed.Failure? then 5 else 6);
    case DeployRequest(d, mode) =>
      FirstOfAccount(chain, d, a);
      var i := First(AccountObstacles(chain, d, a));
      FiveObstacles(chain, d, a);
      FirstIs(o, if CheckWait(mode).Failure? then 0 else if i < 5 then i + 1
                 else if !d.classKind.OpenZeppelin? then 6 else if a.deploy.Failure? then 7 else 8);
    case SignCall(s) => FirstOfSign(chain, s, a);
  }

  lemma FiveObstacles(chain: ChainId, d: DerivationRequest, a: Answers)
    ensures |AccountObstacles(chain, d, a)| == 5
  {
  }

  /** A rejection names the account once it was derived, and the signing chain
      once the key was resolved; earlier ones name nothing. */
  lemma RejectedWith(chain: ChainId, r: Request, a: Answers)
    requires !r.QueryRequest? && Decide(chain, r, a).answer.Failure?
    ensures Decide(chain, r, a).provenance ==
            match r
            case DeriveRequest(_) => None
            case CheckRequest(d) => DerivedProvenance(d, a, DeriveAccount(chain, d, a).Success?)
            case DeployRequest(d, mode) =>
              DerivedProvenance(d, a, CheckWait(mode).Success? && DeriveAccount(chain, d, a).Success?)
            case SignCall(s) =>
              if s.StarkHash? && Admissible(chain, r) && a.resolve.Success?
              then Some(Provenance(s.chain, if s.starkDomain.StarknetKey? then StarknetAccount else TongoAccount, s.path, None))
              else None
  {
  }

  function DerivedProvenance(d: DerivationRequest, a: Answers, derived: bool): Option<Provenance> {
    if derived && a.derive.Success? then Some(Provenance(d.chain, d.domain, d.path, Some(a.derive.value.classHash))) else None
  }
}
