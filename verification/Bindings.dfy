/** Filling a context from the storage of a forked database. */
module Bindings {
  import opened Wrappers
  import opened Words
  import opened Bits
  import opened Context

  datatype AccountInfo = AccountInfo(balance: U256, nonce: U64, codeHash: U256, code: Option<Bytes>)

  datatype DbAccount = DbAccount(info: AccountInfo, storage: map<U256, U256>)

  /** The accounts cached by the database. */
  datatype CacheDb = CacheDb(accounts: map<Address, DbAccount>)

  datatype MappingLayout = Solidity | Vyper

  datatype DbField =
    | RawSlot(contract: Address, slot: U256)
    | RawBits(contract: Address, slot: U256, offsetBits: U16, widthBits: U16)
    | Mapping(contract: Address, key: Address, mappingSlot: U256, layout: MappingLayout)
    | GetReservesWord(contract: Address, wordIndex: Byte)

  /** What the extraction takes from libraries: the hashed slot of a mapping entry, and one word
      of the answer to a `getReserves` call. */
  datatype Library = Library(
    slotKey: (Address, U256, MappingLayout) -> U256,
    reservesWord: (CacheDb, Address, Byte) -> Result<U256, AuditError>)

  datatype TokenBalanceBinding = TokenBalanceBinding(token: Address, owner: Address, field: DbField)

  datatype TokenReserveBinding = TokenReserveBinding(pool: Address, token: Address, field: DbField)

  datatype PoolReserveBinding = PoolReserveBinding(pool: Address, reserve0: DbField, reserve1: DbField)

  datatype TotalSupplyBinding = TotalSupplyBinding(token: Address, field: DbField)

  datatype CdpBinding = CdpBinding(
    owner: Address,
    collateralField: DbField,
    debtField: DbField,
    collateralPriceAsset: Option<Address>,
    debtPriceAsset: Option<Address>,
    liquidationThresholdBps: U64)

  datatype LoanPositionBinding = LoanPositionBinding(
    protocol: Address,
    borrower: Address,
    borrowedField: DbField,
    collateralField: DbField,
    liquidationThresholdBps: U64)

  datatype LoanTotalBinding = LoanTotalBinding(protocol: Address, field: DbField)

  datatype FeeBinding = FeeBinding(protocol: Address, collectedField: DbField, expectedField: DbField)

  datatype DbInvariantBindings = DbInvariantBindings(
    tokenBalances: seq<TokenBalanceBinding>,
    tokenReserves: seq<TokenReserveBinding>,
    poolReserves: seq<PoolReserveBinding>,
    totalSupplies: seq<TotalSupplyBinding>,
    cdpPositions: seq<CdpBinding>,
    prices: seq<(Address, U256)>,
    loanPositions: seq<LoanPositionBinding>,
    loanTotals: seq<LoanTotalBinding>,
    feeRecords: seq<FeeBinding>)

  /* ----- Reading one field ----- */

  /** `read_raw_slot`: zero for an account or slot that is not cached. */
  function ReadRawSlot(db: CacheDb, contract: Address, slot: U256): U256 {
    if contract in db.accounts && slot in db.accounts[contract].storage
    then db.accounts[contract].storage[slot]
    else 0
  }

  /** `read_db_field` */
  function ReadDbField(db: CacheDb, field: DbField, lib: Library): Result<U256, AuditError> {
    match field
    case RawSlot(contract, slot) => Ok(ReadRawSlot(db, contract, slot))
    case RawBits(contract, slot, offsetBits, widthBits) =>
      Ok(ExtractBits(ReadRawSlot(db, contract, slot), offsetBits, widthBits))
    case Mapping(contract, key, mappingSlot, layout) =>
      Ok(ReadRawSlot(db, contract, lib.slotKey(key, mappingSlot, layout)))
    case GetReservesWord(contract, wordIndex) => lib.reservesWord(db, contract, wordIndex)
  }

  /** `multiply_by_price` */
  function MultiplyByPrice(prices: map<Address, U256>, raw: U256, priceAsset: Option<Address>)
    : Result<U256, AuditError>
  {
    match priceAsset
    case None => Ok(raw)
    case Some(asset) => if asset in prices then Ok(SatMul(raw, prices[asset])) else Err(MissingPrice(asset))
  }

  /* ----- The entry each binding sets ----- */

  type Entry<K, V> = Result<(K, V), AuditError>

  function One<K>(key: K, value: Result<U256, AuditError>): Entry<K, U256> {
    if value.Ok? then Ok((key, value.value)) else Err(value.error)
  }

  /** Two reads, of which the first error counts. */
  function Both(a: Result<U256, AuditError>, b: Result<U256, AuditError>): Result<(U256, U256), AuditError> {
    if a.Err? then Err(a.error) else if b.Err? then Err(b.error) else Ok((a.value, b.value))
  }

  function TokenBalanceEntry(db: CacheDb, lib: Library): TokenBalanceBinding -> Entry<(Address, Address), U256> {
    (b: TokenBalanceBinding) => One((b.token, b.owner), ReadDbField(db, b.field, lib))
  }

  function TokenReserveEntry(db: CacheDb, lib: Library): TokenReserveBinding -> Entry<(Address, Address), U256> {
    (b: TokenReserveBinding) => One((b.pool, b.token), ReadDbField(db, b.field, lib))
  }

  function PoolReserveEntry(db: CacheDb, lib: Library): PoolReserveBinding -> Entry<Address, (U256, U256)> {
    (b: PoolReserveBinding) =>
      var reserves := Both(ReadDbField(db, b.reserve0, lib), ReadDbField(db, b.reserve1, lib));
      if reserves.Err? then Err(reserves.error) else Ok((b.pool, reserves.value))
  }

  function TotalSupplyEntry(db: CacheDb, lib: Library): TotalSupplyBinding -> Entry<Address, U256> {
    (b: TotalSupplyBinding) => One(b.token, ReadDbField(db, b.field, lib))
  }

  function CdpEntry(db: CacheDb, lib: Library, prices: map<Address, U256>): CdpBinding -> Entry<Address, CdpPosition> {
    (b: CdpBinding) =>
      var raw := Both(ReadDbField(db, b.collateralField, lib), ReadDbField(db, b.debtField, lib));
      if raw.Err? then Err(raw.error)
      else
        var values := Both(
          MultiplyByPrice(prices, raw.value.0, b.collateralPriceAsset),
          MultiplyByPrice(prices, raw.value.1, b.debtPriceAsset));
        if values.Err? then Err(values.error)
        else Ok((b.owner, CdpPosition(values.value.0, values.value.1, b.liquidationThresholdBps)))
  }

  function LoanPositionEntry(db: CacheDb, lib: Library)
    : LoanPositionBinding -> Entry<(Address, Address), LoanPosition>
  {
    (b: LoanPositionBinding) =>
      var values := Both(ReadDbField(db, b.borrowedField, lib), ReadDbField(db, b.collateralField, lib));
      if values.Err? then Err(values.error)
      else Ok(((b.protocol, b.borrower), LoanPosition(values.value.0, values.value.1, b.liquidationThresholdBps)))
  }

  function LoanTotalEntry(db: CacheDb, lib: Library): LoanTotalBinding -> Entry<Address, U256> {
    (b: LoanTotalBinding) => One(b.protocol, ReadDbField(db, b.field, lib))
  }

  function FeeEntry(db: CacheDb, lib: Library): FeeBinding -> Entry<Address, FeeRecord> {
    (b: FeeBinding) =>
      var values := Both(ReadDbField(db, b.collectedField, lib), ReadDbField(db, b.expectedField, lib));
      if values.Err? then Err(values.error) else Ok((b.protocol, FeeRecord(values.value.0, values.value.1)))
  }

  function PriceEntry(): ((Address, U256)) -> Entry<Address, U256> {
    (price: (Address, U256)) => Ok(price)
  }

  /* ----- A loop over bindings ----- */

  /** The map after the first `n` bindings, or the error of the first of them that has one. */
  function Fill<B, K, V>(bindings: seq<B>, n: nat, entry: B -> Entry<K, V>): Result<map<K, V>, AuditError>
    requires n <= |bindings|
  {
    if n == 0 then Ok(map[])
    else
      match Fill(bindings, n - 1, entry)
      case Err(error) => Err(error)
      case Ok(m) =>
        match entry(bindings[n - 1])
        case Err(error) => Err(error)
        case Ok(kv) => Ok(m[kv.0 := kv.1])
  }

  /** An error is final. */
  lemma {:induction false} FillErrs<B, K, V>(bindings: seq<B>, n: nat, to: nat, entry: B -> Entry<K, V>)
    requires n <= to <= |bindings| && Fill(bindings, n, entry).Err?
    ensures Fill(bindings, to, entry) == Fill(bindings, n, entry)
  {
    if to == n {
    } else {
      FillErrs(bindings, n, to - 1, entry);
    }
  }

  /** Binding `j` is the last that sets `key`. */
  ghost predicate LastSets<B, K, V>(bindings: seq<B>, n: nat, entry: B -> Entry<K, V>, key: K, j: nat) {
    && j < n <= |bindings|
    && entry(bindings[j]).Ok? && entry(bindings[j]).value.0 == key
    && forall k :: j < k < n ==> entry(bindings[k]).Ok? && entry(bindings[k]).value.0 != key
  }

  /** The last binding of a key decides its entry. */
  lemma {:induction false} LastWins<B, K, V>(bindings: seq<B>, n: nat, entry: B -> Entry<K, V>, key: K, j: nat)
    requires LastSets(bindings, n, entry, key, j) && Fill(bindings, n, entry).Ok?
    ensures key in Fill(bindings, n, entry).value
    ensures Fill(bindings, n, entry).value[key] == entry(bindings[j]).value.1
  {
    if n - 1 == j {
    } else {
      LastWins(bindings, n - 1, entry, key, j);
    }
  }

  /** The loop succeeds exactly when every binding reads, and then sets exactly the keys bound. */
  lemma {:induction false} FillOkIff<B, K, V>(bindings: seq<B>, n: nat, entry: B -> Entry<K, V>)
    requires n <= |bindings|
    ensures Fill(bindings, n, entry).Ok? <==> forall k :: 0 <= k < n ==> entry(bindings[k]).Ok?
    ensures Fill(bindings, n, entry).Ok? ==>
              Fill(bindings, n, entry).value.Keys == set k | 0 <= k < n :: entry(bindings[k]).value.0
  {
    if n == 0 {
    } else {
      FillOkIff(bindings, n - 1, entry);
    }
  }

  /* ----- The whole extraction ----- */

  function FillAll<B, K, V>(bindings: seq<B>, entry: B -> Entry<K, V>): Result<map<K, V>, AuditError> {
    Fill(bindings, |bindings|, entry)
  }

  /** `extract_context`: the nine loops in order, stopping at the first error. */
  function Extract(bindings: DbInvariantBindings, db: CacheDb, lib: Library): Result<ContextView, AuditError> {
    var prices := FillAll(bindings.prices, PriceEntry());
    if prices.Err? then Err(prices.error) else
    var balances := FillAll(bindings.tokenBalances, TokenBalanceEntry(db, lib));
    if balances.Err? then Err(balances.error) else
    var reserves := FillAll(bindings.tokenReserves, TokenReserveEntry(db, lib));
    if reserves.Err? then Err(reserves.error) else
    var pools := FillAll(bindings.poolReserves, PoolReserveEntry(db, lib));
    if pools.Err? then Err(pools.error) else
    var supplies := FillAll(bindings.totalSupplies, TotalSupplyEntry(db, lib));
    if supplies.Err? then Err(supplies.error) else
    var cdps := FillAll(bindings.cdpPositions, CdpEntry(db, lib, prices.value));
    if cdps.Err? then Err(cdps.error) else
    var loans := FillAll(bindings.loanPositions, LoanPositionEntry(db, lib));
    if loans.Err? then Err(loans.error) else
    var totals := FillAll(bindings.loanTotals, LoanTotalEntry(db, lib));
    if totals.Err? then Err(totals.error) else
    var fees := FillAll(bindings.feeRecords, FeeEntry(db, lib));
    if fees.Err? then Err(fees.error) else
    Ok(ContextView(
      balances.value, reserves.value, pools.value, supplies.value, cdps.value, prices.value,
      loans.value, totals.value, fees.value))
  }

  /** How a loop leaves its map, or what it returns early. */
  ghost predicate Leaves<K, V>(error: Option<AuditError>, result: Result<map<K, V>, AuditError>, m: map<K, V>) {
    if error.None? then result == Ok(m) else result == Err(error.value)
  }

  method FillPrices(ctx: InvariantContext, prices: seq<(Address, U256)>)
    requires ctx.prices == map[]
    modifies ctx
    ensures ctx.View() == old(ctx.View()).(prices := ctx.prices)
    ensures FillAll(prices, PriceEntry()) == Ok(ctx.prices)
  {
    for i := 0 to |prices|
      invariant ctx.View() == old(ctx.View()).(prices := ctx.prices)
      invariant Fill(prices, i, PriceEntry()) == Ok(ctx.prices)
    {
      ctx.SetPrice(prices[i].0, prices[i].1);
    }
  }

  method FillTokenBalances(ctx: InvariantContext, bindings: seq<TokenBalanceBinding>, db: CacheDb, lib: Library)
    returns (error: Option<AuditError>)
    requires ctx.tokenBalances == map[]
    modifies ctx
    ensures ctx.View() == old(ctx.View()).(tokenBalances := ctx.tokenBalances)
    ensures Leaves(error, FillAll(bindings, TokenBalanceEntry(db, lib)), ctx.tokenBalances)
  {
    ghost var entry := TokenBalanceEntry(db, lib);
    for i := 0 to |bindings|
      invariant ctx.View() == old(ctx.View()).(tokenBalances := ctx.tokenBalances)
      invariant Fill(bindings, i, entry) == Ok(ctx.tokenBalances)
    {
      var binding := bindings[i];
      var value := ReadDbField(db, binding.field, lib);
      if value.Err? {
        FillErrs(bindings, i + 1, |bindings|, entry);
        return Some(value.error);
      }
      ctx.SetTokenBalance(binding.token, binding.owner, value.value);
    }
    return None;
  }

  method FillTokenReserves(ctx: InvariantContext, bindings: seq<TokenReserveBinding>, db: CacheDb, lib: Library)
    returns (error: Option<AuditError>)
    requires ctx.tokenReserves == map[]
    modifies ctx
    ensures ctx.View() == old(ctx.View()).(tokenReserves := ctx.tokenReserves)
    ensures Leaves(error, FillAll(bindings, TokenReserveEntry(db, lib)), ctx.tokenReserves)
  {
    ghost var entry := TokenReserveEntry(db, lib);
    for i := 0 to |bindings|
      invariant ctx.View() == old(ctx.View()).(tokenReserves := ctx.tokenReserves)
      invariant Fill(bindings, i, entry) == Ok(ctx.tokenReserves)
    {
      var binding := bindings[i];
      var value := ReadDbField(db, binding.field, lib);
      if value.Err? {
        FillErrs(bindings, i + 1, |bindings|, entry);
        return Some(value.error);
      }
      ctx.SetTokenReserve(binding.pool, binding.token, value.value);
    }
    return None;
  }

  method FillPoolReserves(ctx: InvariantContext, bindings: seq<PoolReserveBinding>, db: CacheDb, lib: Library)
    returns (error: Option<AuditError>)
    requires ctx.poolReserves == map[]
    modifies ctx
    ensures ctx.View() == old(ctx.View()).(poolReserves := ctx.poolReserves)
    ensures Leaves(error, FillAll(bindings, PoolReserveEntry(db, lib)), ctx.poolReserves)
  {
    ghost var entry := PoolReserveEntry(db, lib);
    for i := 0 to |bindings|
      invariant ctx.View() == old(ctx.View()).(poolReserves := ctx.poolReserves)
      invariant Fill(bindings, i, entry) == Ok(ctx.poolReserves)
    {
      var binding := bindings[i];
      var reserve0 := ReadDbField(db, binding.reserve0, lib);
      if reserve0.Err? {
        FillErrs(bindings, i + 1, |bindings|, entry);
        return Some(reserve0.error);
      }
      var reserve1 := ReadDbField(db, binding.reserve1, lib);
      if reserve1.Err? {
        FillErrs(bindings, i + 1, |bindings|, entry);
        return Some(reserve1.error);
      }
      ctx.SetPoolReserves(binding.pool, reserve0.value, reserve1.value);
    }
    return None;
  }

  method FillTotalSupplies(ctx: InvariantContext, bindings: seq<TotalSupplyBinding>, db: CacheDb, lib: Library)
    returns (error: Option<AuditError>)
    requires ctx.totalSupplies == map[]
    modifies ctx
    ensures ctx.View() == old(ctx.View()).(totalSupplies := ctx.totalSupplies)
    ensures Leaves(error, FillAll(bindings, TotalSupplyEntry(db, lib)), ctx.totalSupplies)
  {
    ghost var entry := TotalSupplyEntry(db, lib);
    for i := 0 to |bindings|
      invariant ctx.View() == old(ctx.View()).(totalSupplies := ctx.totalSupplies)
      invariant Fill(bindings, i, entry) == Ok(ctx.totalSupplies)
    {
      var value := ReadDbField(db, bindings[i].field, lib);
      if value.Err? {
        FillErrs(bindings, i + 1, |bindings|, entry);
        return Some(value.error);
      }
      ctx.SetTotalSupply(bindings[i].token, value.value);
    }
    return None;
  }

  method FillCdpPositions(ctx: InvariantContext, bindings: seq<CdpBinding>, db: CacheDb, lib: Library)
    returns (error: Option<AuditError>)
    requires ctx.cdpPositions == map[]
    modifies ctx
    ensures ctx.View() == old(ctx.View()).(cdpPositions := ctx.cdpPositions)
    ensures Leaves(error, FillAll(bindings, CdpEntry(db, lib, ctx.prices)), ctx.cdpPositions)
  {
    ghost var entry := CdpEntry(db, lib, ctx.prices);
    for i := 0 to |bindings|
      invariant ctx.View() == old(ctx.View()).(cdpPositions := ctx.cdpPositions)
      invariant ctx.prices == old(ctx.prices)
      invariant Fill(bindings, i, entry) == Ok(ctx.cdpPositions)
    {
      var binding := bindings[i];
      var collateralRaw := ReadDbField(db, binding.collateralField, lib);
      if collateralRaw.Err? {
        FillErrs(bindings, i + 1, |bindings|, entry);
        return Some(collateralRaw.error);
      }
      var debtRaw := ReadDbField(db, binding.debtField, lib);
      if debtRaw.Err? {
        FillErrs(bindings, i + 1, |bindings|, entry);
        return Some(debtRaw.error);
      }
      var collateralValue := MultiplyByPrice(ctx.prices, collateralRaw.value, binding.collateralPriceAsset);
      if collateralValue.Err? {
        FillErrs(bindings, i + 1, |bindings|, entry);
        return Some(collateralValue.error);
      }
      var debtValue := MultiplyByPrice(ctx.prices, debtRaw.value, binding.debtPriceAsset);
      if debtValue.Err? {
        FillErrs(bindings, i + 1, |bindings|, entry);
        return Some(debtValue.error);
      }
      ctx.SetCdpPosition(
        binding.owner, CdpPosition(collateralValue.value, debtValue.value, binding.liquidationThresholdBps));
    }
    return None;
  }

  method FillLoanPositions(ctx: InvariantContext, bindings: seq<LoanPositionBinding>, db: CacheDb, lib: Library)
    returns (error: Option<AuditError>)
    requires ctx.loanPositions == map[]
    modifies ctx
    ensures ctx.View() == old(ctx.View()).(loanPositions := ctx.loanPositions)
    ensures Leaves(error, FillAll(bindings, LoanPositionEntry(db, lib)), ctx.loanPositions)
  {
    ghost var entry := LoanPositionEntry(db, lib);
    for i := 0 to |bindings|
      invariant ctx.View() == old(ctx.View()).(loanPositions := ctx.loanPositions)
      invariant Fill(bindings, i, entry) == Ok(ctx.loanPositions)
    {
      var binding := bindings[i];
      var borrowed := ReadDbField(db, binding.borrowedField, lib);
      if borrowed.Err? {
        FillErrs(bindings, i + 1, |bindings|, entry);
        return Some(borrowed.error);
      }
      var collateral := ReadDbField(db, binding.collateralField, lib);
      if collateral.Err? {
        FillErrs(bindings, i + 1, |bindings|, entry);
        return Some(collateral.error);
      }
      ctx.SetLoanPosition(
        binding.protocol, binding.borrower,
        LoanPosition(borrowed.value, collateral.value, binding.liquidationThresholdBps));
    }
    return None;
  }

  method FillLoanTotals(ctx: InvariantContext, bindings: seq<LoanTotalBinding>, db: CacheDb, lib: Library)
    returns (error: Option<AuditError>)
    requires ctx.loanTotals == map[]
    modifies ctx
    ensures ctx.View() == old(ctx.View()).(loanTotals := ctx.loanTotals)
    ensures Leaves(error, FillAll(bindings, LoanTotalEntry(db, lib)), ctx.loanTotals)
  {
    ghost var entry := LoanTotalEntry(db, lib);
    for i := 0 to |bindings|
      invariant ctx.View() == old(ctx.View()).(loanTotals := ctx.loanTotals)
      invariant Fill(bindings, i, entry) == Ok(ctx.loanTotals)
    {
      var total := ReadDbField(db, bindings[i].field, lib);
      if total.Err? {
        FillErrs(bindings, i + 1, |bindings|, entry);
        return Some(total.error);
      }
      ctx.SetLoanTotal(bindings[i].protocol, total.value);
    }
    return None;
  }

  method FillFeeRecords(ctx: InvariantContext, bindings: seq<FeeBinding>, db: CacheDb, lib: Library)
    returns (error: Option<AuditError>)
    requires ctx.feeRecords == map[]
    modifies ctx
    ensures ctx.View() == old(ctx.View()).(feeRecords := ctx.feeRecords)
    ensures Leaves(error, FillAll(bindings, FeeEntry(db, lib)), ctx.feeRecords)
  {
    ghost var entry := FeeEntry(db, lib);
    for i := 0 to |bindings|
      invariant ctx.View() == old(ctx.View()).(feeRecords := ctx.feeRecords)
      invariant Fill(bindings, i, entry) == Ok(ctx.feeRecords)
    {
      var binding := bindings[i];
      var collected := ReadDbField(db, binding.collectedField, lib);
      if collected.Err? {
        FillErrs(bindings, i + 1, |bindings|, entry);
        return Some(collected.error);
      }
      var expected := ReadDbField(db, binding.expectedField, lib);
      if expected.Err? {
        FillErrs(bindings, i + 1, |bindings|, entry);
        return Some(expected.error);
      }
      ctx.SetFeeRecord(binding.protocol, FeeRecord(collected.value, expected.value));
    }
    return None;
  }

  /** `DbInvariantBindings::extract_context` */
  method ExtractContext(bindings: DbInvariantBindings, db: CacheDb, lib: Library)
    returns (r: Result<ContextView, AuditError>)
    ensures r == Extract(bindings, db, lib)
  {
    var ctx := new InvariantContext();
    FillPrices(ctx, bindings.prices);
    var error := FillTokenBalances(ctx, bindings.tokenBalances, db, lib);
    if error.Some? { return Err(error.value); }
    error := FillTokenReserves(ctx, bindings.tokenReserves, db, lib);
    if error.Some? { return Err(error.value); }
    error := FillPoolReserves(ctx, bindings.poolReserves, db, lib);
    if error.Some? { return Err(error.value); }
    error := FillTotalSupplies(ctx, bindings.totalSupplies, db, lib);
    if error.Some? { return Err(error.value); }
    error := FillCdpPositions(ctx, bindings.cdpPositions, db, lib);
    if error.Some? { return Err(error.value); }
    error := FillLoanPositions(ctx, bindings.loanPositions, db, lib);
    if error.Some? { return Err(error.value); }
    error := FillLoanTotals(ctx, bindings.loanTotals, db, lib);
    if error.Some? { return Err(error.value); }
    error := FillFeeRecords(ctx, bindings.feeRecords, db, lib);
    if error.Some? { return Err(error.value); }
    return Ok(ctx.View());
  }
}
