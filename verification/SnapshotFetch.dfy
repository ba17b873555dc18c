/** Building a snapshot from backend queries. */
module SnapshotFetch {
  import opened Outcomes
  import opened Domain
  import opened SnapshotCache

  /** A backend's answers during one fetch. */
  datatype Backend = Backend(
    checkDeployed: (FeltHex, BlockSelector) -> GatewayResult<bool>,
    nonce: (FeltHex, BlockSelector) -> GatewayResult<FeltHex>,
    tokenBalance: (FeltHex, TrackedToken, BlockSelector) -> GatewayResult<string>,
    blockMetadata: BlockSelector -> GatewayResult<BlockMetadata>)

  datatype Query =
    | CheckDeployed(address: FeltHex, block: BlockSelector)
    | Nonce(address: FeltHex, block: BlockSelector)
    | Balance(address: FeltHex, token: TrackedToken, block: BlockSelector)
    | Block(block: BlockSelector)

  /** Balances of the first `n` tokens: all of them, or the first failure. */
  function Balances(backend: Backend, key: Key, n: nat): GatewayResult<seq<TokenBalance>>
    requires n <= |key.tokens|
  {
    if n == 0 then Success([])
    else
      var init :- Balances(backend, key, n - 1);
      var amount :- backend.tokenBalance(key.address, key.tokens[n - 1], key.block);
      Success(init + [TokenBalance(key.tokens[n - 1], amount)])
  }

  function NonceOf(backend: Backend, key: Key, deployed: bool): GatewayResult<Option<FeltHex>> {
    if deployed then
      var nonce :- backend.nonce(key.address, key.block);
      Success(Some(nonce))
    else Success(None)
  }

  /** Block metadata is best effort: a failure leaves only the selector. */
  function BlockOf(backend: Backend, key: Key): BlockMetadata {
    match backend.blockMetadata(key.block)
    case Success(block) => block
    case Failure(_) => BlockMetadata(key.block, None, None)
  }

  /** What a fetch for `key` yields: a function of the key alone, so requests
      that differ only in mode or policy get the same. */
  function Fetched(backend: Backend, key: Key, atMs: nat): GatewayResult<Snapshot> {
    var deployed :- backend.checkDeployed(key.address, key.block);
    var nonce :- NonceOf(backend, key, deployed);
    var balances :- Balances(backend, key, |key.tokens|);
    Success(Snapshot(key.address, deployed, nonce, balances, BlockOf(backend, key),
                     CacheMetadata(Miss, QuantizeDown(atMs), 0)))
  }

  /** Balance queries issued: up to and including the first failure. */
  function BalanceQueries(backend: Backend, key: Key, n: nat): seq<Query>
    requires n <= |key.tokens|
  {
    if n == 0 then []
    else if Balances(backend, key, n - 1).Success? then
      BalanceQueries(backend, key, n - 1) + [Balance(key.address, key.tokens[n - 1], key.block)]
    else BalanceQueries(backend, key, n - 1)
  }

  /** The queries a fetch issues, in order. */
  function Queries(backend: Backend, key: Key): seq<Query> {
    var deployed := backend.checkDeployed(key.address, key.block);
    var first := [CheckDeployed(key.address, key.block)];
    if deployed.Failure? then first
    else
      var second := if deployed.value then first + [Nonce(key.address, key.block)] else first;
      if NonceOf(backend, key, deployed.value).Failure? then second
      else
        var third := second + BalanceQueries(backend, key, |key.tokens|);
        if Balances(backend, key, |key.tokens|).Success? then third + [Block(key.block)] else third
  }

  /** `fetch_snapshot`, recording the queries it issues. */
  method FetchSnapshot(backend: Backend, request: SnapshotRequest, atMs: nat)
    returns (r: GatewayResult<Snapshot>, queries: seq<Query>)
    ensures r == Fetched(backend, KeyOf(request), atMs)
    ensures queries == Queries(backend, KeyOf(request))
  {
    ghost var key := KeyOf(request);
    queries := [CheckDeployed(request.address, request.block)];
    var deployed := backend.checkDeployed(request.address, request.block);
    if deployed.Failure? {
      return Failure(deployed.error), queries;
    }
    var nonce: Option<FeltHex> := None;
    if deployed.value {
      queries := queries + [Nonce(request.address, request.block)];
      var answer := backend.nonce(request.address, request.block);
      if answer.Failure? {
        return Failure(answer.error), queries;
      }
      nonce := Some(answer.value);
    }
    ghost var before := queries;
    var balances: seq<TokenBalance> := [];
    for i := 0 to |request.tokens|
      invariant Balances(backend, key, i) == Success(balances)
      invariant queries == before + BalanceQueries(backend, key, i)
    {
      queries := queries + [Balance(request.address, request.tokens[i], request.block)];
      var amount := backend.tokenBalance(request.address, request.tokens[i], request.block);
      if amount.Failure? {
        FirstFailure(backend, key, i + 1, |key.tokens|);
        return Failure(amount.error), queries;
      }
      balances := balances + [TokenBalance(request.tokens[i], amount.value)];
    }
    queries := queries + [Block(request.block)];
    var answer := backend.blockMetadata(request.block);
    var block := if answer.Success? then answer.value else BlockMetadata(request.block, None, None);
    r := Success(Snapshot(request.address, deployed.value, nonce, balances, block,
                          CacheMetadata(Miss, QuantizeDown(atMs), 0)));
  }

  /** Nothing is asked after a failed balance. */
  lemma {:induction false} FirstFailure(backend: Backend, key: Key, i: nat, n: nat)
    requires i <= n <= |key.tokens| && Balances(backend, key, i).Failure?
    ensures Balances(backend, key, n) == Balances(backend, key, i)
    ensures BalanceQueries(backend, key, n) == BalanceQueries(backend, key, i)
  {
    if i < n {
      FirstFailure(backend, key, i, n - 1);
    }
  }

  ghost predicate AllBalances(backend: Backend, key: Key, n: nat)
    requires n <= |key.tokens|
  {
    forall i :: 0 <= i < n ==> backend.tokenBalance(key.address, key.tokens[i], key.block).Success?
  }

  /** A fetch succeeds exactly when deployment, the nonce if deployed, and every
      balance are answered, whatever the block metadata. */
  lemma FetchedWhen(backend: Backend, key: Key, atMs: nat)
    ensures var deployed := backend.checkDeployed(key.address, key.block);
            Fetched(backend, key, atMs).Success? <==>
              && deployed.Success?
              && (deployed.value ==> backend.nonce(key.address, key.block).Success?)
              && AllBalances(backend, key, |key.tokens|)
  {
    BalancesInOrder(backend, key, |key.tokens|);
  }

  /** A fetch costs at most three queries and one per token, and asks for a
      nonce only of a deployed account; a successful one reports every token in
      order with the backend's amount for it. */
  lemma FetchCost(backend: Backend, key: Key, atMs: nat)
    ensures |Queries(backend, key)| <= |key.tokens| + 3
    ensures Nonce(key.address, key.block) in Queries(backend, key) <==> backend.checkDeployed(key.address, key.block) == Success(true)
    ensures Fetched(backend, key, atMs).Success? ==>
              var s := Fetched(backend, key, atMs).value;
              && |s.balances| == |key.tokens|
              && forall i :: 0 <= i < |key.tokens| ==>
                   && s.balances[i].token == key.tokens[i]
                   && backend.tokenBalance(key.address, key.tokens[i], key.block) == Success(s.balances[i].amount)
  {
    BalancesInOrder(backend, key, |key.tokens|);
  }

  lemma {:induction false} BalancesInOrder(backend: Backend, key: Key, n: nat)
    requires n <= |key.tokens|
    ensures |BalanceQueries(backend, key, n)| <= n && forall q :: q in BalanceQueries(backend, key, n) ==> q.Balance?
    ensures Balances(backend, key, n).Success? <==> AllBalances(backend, key, n)
    ensures Balances(backend, key, n).Success? ==>
              var balances := Balances(backend, key, n).value;
              && |balances| == n
              && forall i :: 0 <= i < n ==>
                   && balances[i].token == key.tokens[i]
                   && backend.tokenBalance(key.address, key.tokens[i], key.block) == Success(balances[i].amount)
  {
    if n > 0 {
      BalancesInOrder(backend, key, n - 1);
    }
  }

  /** The contents of a snapshot are what the backend answered. */
  ghost predicate Shows(backend: Backend, key: Key, s: Snapshot) {
    && s.address == key.address
    && backend.checkDeployed(key.address, key.block) == Success(s.deployed)
    && (if s.deployed then s.nonce.Some? && backend.nonce(key.address, key.block) == Success(s.nonce.value) else s.nonce == None)
    && |s.balances| == |key.tokens|
    && (forall i :: 0 <= i < |key.tokens| ==>
          && s.balances[i].token == key.tokens[i]
          && backend.tokenBalance(key.address, key.tokens[i], key.block) == Success(s.balances[i].amount))
    && (match backend.blockMetadata(key.block)
        case Success(block) => s.block == block
        case Failure(_) => s.block.selector == key.block && s.block.hash == None && s.block.number == None)
  }

  /** A fetched snapshot shows the backend's answers, as a Miss of age 0 with the
      fetch time rounded down to five seconds. */
  lemma FetchedShows(backend: Backend, key: Key, atMs: nat)
    requires Fetched(backend, key, atMs).Success?
    ensures var s := Fetched(backend, key, atMs).value;
            && Shows(backend, key, s) && s.cache.status == Miss && s.cache.ageMs == 0
            && s.cache.generatedAtMs % 5_000 == 0 && s.cache.generatedAtMs <= atMs < s.cache.generatedAtMs + 5_000
  {
    BalancesInOrder(backend, key, |key.tokens|);
  }

  /** Balance queries for the first n tokens. */
  function BalanceList(key: Key, n: nat): (s: seq<Query>)
    requires n <= |key.tokens|
    ensures |s| == n && forall i :: 0 <= i < n ==> s[i] == Balance(key.address, key.tokens[i], key.block)
  {
    seq(n, i requires 0 <= i < n => Balance(key.address, key.tokens[i], key.block))
  }

  lemma {:induction false} AskedInOrder(backend: Backend, key: Key, n: nat)
    requires n <= |key.tokens| && (n == 0 || AllBalances(backend, key, n - 1))
    ensures BalanceQueries(backend, key, n) == BalanceList(key, n)
  {
    if n > 0 {
      BalancesInOrder(backend, key, n - 1);
      if n > 1 {
        assert AllBalances(backend, key, n - 2);
      }
      AskedInOrder(backend, key, n - 1);
    }
  }

  /** The queries of a successful fetch: deployment, the nonce of a deployed
      account, every balance in order, the block. */
  lemma AsksAll(backend: Backend, key: Key, atMs: nat)
    requires Fetched(backend, key, atMs).Success?
    ensures var first := [CheckDeployed(key.address, key.block)];
            var second := if Fetched(backend, key, atMs).value.deployed then [Nonce(key.address, key.block)] else [];
            Queries(backend, key) == first + second + BalanceList(key, |key.tokens|) + [Block(key.block)]
  {
    BalancesInOrder(backend, key, |key.tokens|);
    AskedInOrder(backend, key, |key.tokens|);
  }

  /** Every answer before token i's balance came, and that one failed. */
  ghost predicate FailsAtBalance(backend: Backend, key: Key, i: nat, e: GatewayError) {
    && i < |key.tokens|
    && backend.checkDeployed(key.address, key.block).Success?
    && (backend.checkDeployed(key.address, key.block).value ==> backend.nonce(key.address, key.block).Success?)
    && AllBalances(backend, key, i) && backend.tokenBalance(key.address, key.tokens[i], key.block) == Failure(e)
  }

  lemma BalancesStop(backend: Backend, key: Key, i: nat, e: GatewayError)
    requires i < |key.tokens|
    requires AllBalances(backend, key, i) && backend.tokenBalance(key.address, key.tokens[i], key.block) == Failure(e)
    ensures Balances(backend, key, |key.tokens|) == Failure(e)
    ensures BalanceQueries(backend, key, |key.tokens|) == BalanceList(key, i + 1)
  {
    BalancesInOrder(backend, key, i);
    FirstFailure(backend, key, i + 1, |key.tokens|);
    AskedInOrder(backend, key, i + 1);
  }

  lemma BalanceFails(backend: Backend, key: Key, atMs: nat, i: nat, e: GatewayError)
    requires FailsAtBalance(backend, key, i, e)
    ensures Fetched(backend, key, atMs) == Failure(e)
    ensures Queries(backend, key) == [CheckDeployed(key.address, key.block)]
              + (if backend.checkDeployed(key.address, key.block).value then [Nonce(key.address, key.block)] else [])
              + BalanceList(key, i + 1)
  {
    hide Balances, BalanceQueries, BalanceList, AllBalances;
    BalancesStop(backend, key, i, e);
  }

  /** A fetch stops at the first failing answer and reports it. */
  lemma FailsFirst(backend: Backend, key: Key, atMs: nat, i: nat, e: GatewayError)
    ensures backend.checkDeployed(key.address, key.block) == Failure(e) ==>
              && Fetched(backend, key, atMs) == Failure(e)
              && Queries(backend, key) == [CheckDeployed(key.address, key.block)]
    ensures backend.checkDeployed(key.address, key.block) == Success(true) && backend.nonce(key.address, key.block) == Failure(e) ==>
              && Fetched(backend, key, atMs) == Failure(e)
              && Queries(backend, key) == [CheckDeployed(key.address, key.block), Nonce(key.address, key.block)]
    ensures FailsAtBalance(backend, key, i, e) ==>
              && Fetched(backend, key, atMs) == Failure(e)
              && Queries(backend, key) == [CheckDeployed(key.address, key.block)]
                   + (if backend.checkDeployed(key.address, key.block).value then [Nonce(key.address, key.block)] else [])
                   + BalanceList(key, i + 1)
  {
    hide Balances, BalanceQueries, BalanceList;
    if FailsAtBalance(backend, key, i, e) {
      BalanceFails(backend, key, atMs, i, e);
    }
  }
}
