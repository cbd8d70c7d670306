/** The values the invariant rules reason over. */
module Context {
  import opened Wrappers
  import opened Words

  datatype LoanPosition = LoanPosition(borrowed: U256, collateral: U256, liquidationThresholdBps: U64)

  datatype FeeRecord = FeeRecord(collected: U256, expected: U256)

  datatype CdpPosition = CdpPosition(collateralValue: U256, debtValue: U256, liquidationThresholdBps: U64)

  datatype AuditError =
    | MissingBalance
    | MissingReserve
    | MissingPoolReserves
    | MissingHolderBalance
    | MissingTotalSupply
    | MissingCdpPosition
    | MissingLoanTotal
    | MissingFeeRecord
    | MissingPrice(asset: Address)
    | CallFailed(contract: Address)
    | CustomError(message: string)

  function Lookup<K, V>(m: map<K, V>, key: K): Option<V> {
    if key in m then Some(m[key]) else None
  }

  /** The contents of a context, as a value. */
  datatype ContextView = ContextView(
    tokenBalances: map<(Address, Address), U256>,
    tokenReserves: map<(Address, Address), U256>,
    poolReserves: map<Address, (U256, U256)>,
    totalSupplies: map<Address, U256>,
    cdpPositions: map<Address, CdpPosition>,
    prices: map<Address, U256>,
    loanPositions: map<(Address, Address), LoanPosition>,
    loanTotals: map<Address, U256>,
    feeRecords: map<Address, FeeRecord>)
  {
    function TokenBalance(token: Address, owner: Address): Option<U256> {
      Lookup(tokenBalances, (token, owner))
    }

    function TokenReserve(pool: Address, token: Address): Option<U256> {
      Lookup(tokenReserves, (pool, token))
    }

    /** The keys of the protocol's loan positions. */
    function LoanKeys(protocol: Address): set<(Address, Address)> {
      set key | key in loanPositions && key.0 == protocol
    }
  }

  const EMPTY_CONTEXT := ContextView(map[], map[], map[], map[], map[], map[], map[], map[], map[])

  class InvariantContext {
    var tokenBalances: map<(Address, Address), U256>
    var tokenReserves: map<(Address, Address), U256>
    var poolReserves: map<Address, (U256, U256)>
    var totalSupplies: map<Address, U256>
    var cdpPositions: map<Address, CdpPosition>
    var prices: map<Address, U256>
    var loanPositions: map<(Address, Address), LoanPosition>
    var loanTotals: map<Address, U256>
    var feeRecords: map<Address, FeeRecord>

    function View(): ContextView
      reads this
    {
      ContextView(
        tokenBalances, tokenReserves, poolReserves, totalSupplies, cdpPositions, prices,
        loanPositions, loanTotals, feeRecords)
    }

    constructor ()
      ensures View() == EMPTY_CONTEXT
    {
      tokenBalances, tokenReserves, poolReserves := map[], map[], map[];
      totalSupplies, cdpPositions, prices := map[], map[], map[];
      loanPositions, loanTotals, feeRecords := map[], map[], map[];
    }

    method SetTokenBalance(token: Address, owner: Address, amount: U256)
      modifies this
      ensures View() == old(View()).(tokenBalances := old(tokenBalances)[(token, owner) := amount])
    {
      tokenBalances := tokenBalances[(token, owner) := amount];
    }

    method SetTokenReserve(pool: Address, token: Address, reserve: U256)
      modifies this
      ensures View() == old(View()).(tokenReserves := old(tokenReserves)[(pool, token) := reserve])
    {
      tokenReserves := tokenReserves[(pool, token) := reserve];
    }

    method SetPoolReserves(pool: Address, reserve0: U256, reserve1: U256)
      modifies this
      ensures View() == old(View()).(poolReserves := old(poolReserves)[pool := (reserve0, reserve1)])
    {
      poolReserves := poolReserves[pool := (reserve0, reserve1)];
    }

    method SetTotalSupply(token: Address, amount: U256)
      modifies this
      ensures View() == old(View()).(totalSupplies := old(totalSupplies)[token := amount])
    {
      totalSupplies := totalSupplies[token := amount];
    }

    method SetCdpPosition(owner: Address, position: CdpPosition)
      modifies this
      ensures View() == old(View()).(cdpPositions := old(cdpPositions)[owner := position])
    {
      cdpPositions := cdpPositions[owner := position];
    }

    method SetPrice(asset: Address, price: U256)
      modifies this
      ensures View() == old(View()).(prices := old(prices)[asset := price])
    {
      prices := prices[asset := price];
    }

    method SetLoanPosition(protocol: Address, borrower: Address, position: LoanPosition)
      modifies this
      ensures View() == old(View()).(loanPositions := old(loanPositions)[(protocol, borrower) := position])
    {
      loanPositions := loanPositions[(protocol, borrower) := position];
    }

    method SetLoanTotal(protocol: Address, total: U256)
      modifies this
      ensures View() == old(View()).(loanTotals := old(loanTotals)[protocol := total])
    {
      loanTotals := loanTotals[protocol := total];
    }

    method SetFeeRecord(protocol: Address, record: FeeRecord)
      modifies this
      ensures View() == old(View()).(feeRecords := old(feeRecords)[protocol := record])
    {
      feeRecords := feeRecords[protocol := record];
    }
  }
}
