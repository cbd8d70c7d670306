/** From storage reads to the verdicts of the rules. The conclusions speak of the bindings and of the
    fields they read; which binding counts is told from the names it gives. */
module ExtractedVerdicts {
  import opened Wrappers
  import opened Words
  import opened Context
  import opened Rules
  import opened Bindings

  /** An entry is that of the last binding of its key. */
  lemma LastEntry<B, K, V>(bindings: seq<B>, entry: B -> Entry<K, V>, j: nat)
    requires FillAll(bindings, entry).Ok? && j < |bindings|
    requires forall k :: j < k < |bindings| && entry(bindings[k]).Ok? && entry(bindings[j]).Ok? ==>
               entry(bindings[k]).value.0 != entry(bindings[j]).value.0
    ensures entry(bindings[j]).Ok?
    ensures entry(bindings[j]).value.0 in FillAll(bindings, entry).value
    ensures FillAll(bindings, entry).value[entry(bindings[j]).value.0] == entry(bindings[j]).value.1
  {
    FillOkIff(bindings, |bindings|, entry);
    LastWins(bindings, |bindings|, entry, entry(bindings[j]).value.0, j);
  }

  /** ... and there is such a binding. */
  lemma {:induction false} FilledByLast<B, K, V>(bindings: seq<B>, n: nat, entry: B -> Entry<K, V>, key: K)
    returns (j: nat)
    requires n <= |bindings| && Fill(bindings, n, entry).Ok? && key in Fill(bindings, n, entry).value
    ensures LastSets(bindings, n, entry, key, j)
  {
    if entry(bindings[n - 1]).value.0 == key {
      j := n - 1;
    } else {
      j := FilledByLast(bindings, n - 1, entry, key);
    }
  }

  /* ----- Which binding counts ----- */

  predicate LastBalance(bindings: seq<TokenBalanceBinding>, j: nat) {
    j < |bindings| && forall k :: j < k < |bindings| ==>
      bindings[k].token != bindings[j].token || bindings[k].owner != bindings[j].owner
  }

  predicate LastReserve(bindings: seq<TokenReserveBinding>, j: nat) {
    j < |bindings| && forall k :: j < k < |bindings| ==>
      bindings[k].pool != bindings[j].pool || bindings[k].token != bindings[j].token
  }

  predicate LastPool(bindings: seq<PoolReserveBinding>, j: nat) {
    j < |bindings| && forall k :: j < k < |bindings| ==> bindings[k].pool != bindings[j].pool
  }

  predicate LastSupply(bindings: seq<TotalSupplyBinding>, j: nat) {
    j < |bindings| && forall k :: j < k < |bindings| ==> bindings[k].token != bindings[j].token
  }

  predicate LastLoan(bindings: seq<LoanPositionBinding>, j: nat) {
    j < |bindings| && forall k :: j < k < |bindings| ==>
      bindings[k].protocol != bindings[j].protocol || bindings[k].borrower != bindings[j].borrower
  }

  predicate LastLoanTotal(bindings: seq<LoanTotalBinding>, j: nat) {
    j < |bindings| && forall k :: j < k < |bindings| ==> bindings[k].protocol != bindings[j].protocol
  }

  predicate LastFee(bindings: seq<FeeBinding>, j: nat) {
    j < |bindings| && forall k :: j < k < |bindings| ==> bindings[k].protocol != bindings[j].protocol
  }

  /* ----- The balance gap and the constant product ----- */

  /** End to end: the balance gap rule compares the balance read last for the pool with the reserve
      read last for it. */
  lemma BalanceGapVerdict(bindings: DbInvariantBindings, db: CacheDb, lib: Library, i: nat, j: nat)
    requires Extract(bindings, db, lib).Ok?
    requires LastBalance(bindings.tokenBalances, i) && LastReserve(bindings.tokenReserves, j)
    requires bindings.tokenBalances[i].token == bindings.tokenReserves[j].token
    requires bindings.tokenBalances[i].owner == bindings.tokenReserves[j].pool
    ensures var balance := ReadDbField(db, bindings.tokenBalances[i].field, lib);
            var reserve := ReadDbField(db, bindings.tokenReserves[j].field, lib);
            var rule := BalanceGap(bindings.tokenReserves[j].pool, bindings.tokenReserves[j].token);
            && balance.Ok? && reserve.Ok?
            && Decide(rule, Extract(bindings, db, lib).value) == Ok(balance.value >= reserve.value)
  {
    LastEntry(bindings.tokenBalances, TokenBalanceEntry(db, lib), i);
    LastEntry(bindings.tokenReserves, TokenReserveEntry(db, lib), j);
  }

  /** End to end: the constant product rule compares the true product of the reserves read last. */
  lemma ConstantProductVerdict(bindings: DbInvariantBindings, db: CacheDb, lib: Library, j: nat, baselineK: U256)
    requires Extract(bindings, db, lib).Ok? && LastPool(bindings.poolReserves, j)
    ensures var b := bindings.poolReserves[j];
            var reserve0, reserve1 := ReadDbField(db, b.reserve0, lib), ReadDbField(db, b.reserve1, lib);
            && reserve0.Ok? && reserve1.Ok?
            && Decide(ConstantProduct(b.pool, baselineK), Extract(bindings, db, lib).value)
               == Ok(reserve0.value * reserve1.value >= baselineK)
  {
    LastEntry(bindings.poolReserves, PoolReserveEntry(db, lib), j);
  }

  /* ----- Loans ----- */

  /** Both fields of every loan binding read. */
  ghost predicate LoansRead(loans: seq<LoanPositionBinding>, db: CacheDb, lib: Library) {
    forall j :: 0 <= j < |loans| ==>
      ReadDbField(db, loans[j].borrowedField, lib).Ok? && ReadDbField(db, loans[j].collateralField, lib).Ok?
  }

  /** The loan positions in the context are exactly those of the last bindings, with the borrowed
      amount, the collateral and the threshold that these read and name. */
  lemma ExtractedLoans(bindings: DbInvariantBindings, db: CacheDb, lib: Library)
    requires Extract(bindings, db, lib).Ok?
    ensures LoansRead(bindings.loanPositions, db, lib)
    ensures var positions := Extract(bindings, db, lib).value.loanPositions;
            forall j: nat :: LastLoan(bindings.loanPositions, j) ==>
              var b := bindings.loanPositions[j];
              && (b.protocol, b.borrower) in positions
              && positions[(b.protocol, b.borrower)].borrowed == ReadDbField(db, b.borrowedField, lib).value
              && positions[(b.protocol, b.borrower)].collateral == ReadDbField(db, b.collateralField, lib).value
              && positions[(b.protocol, b.borrower)].liquidationThresholdBps == b.liquidationThresholdBps
    ensures forall key :: key in Extract(bindings, db, lib).value.loanPositions ==>
              exists j: nat :: LastLoan(bindings.loanPositions, j)
                               && key == (bindings.loanPositions[j].protocol, bindings.loanPositions[j].borrower)
  {
    var loans, entry := bindings.loanPositions, LoanPositionEntry(db, lib);
    var positions := Extract(bindings, db, lib).value.loanPositions;
    FillOkIff(loans, |loans|, entry);
    forall j | 0 <= j < |loans|
      ensures ReadDbField(db, loans[j].borrowedField, lib).Ok? && ReadDbField(db, loans[j].collateralField, lib).Ok?
    {
      assert entry(loans[j]).Ok?;
    }
    forall j: nat | LastLoan(loans, j)
      ensures var b := loans[j];
              && (b.protocol, b.borrower) in positions
              && positions[(b.protocol, b.borrower)].borrowed == ReadDbField(db, b.borrowedField, lib).value
              && positions[(b.protocol, b.borrower)].collateral == ReadDbField(db, b.collateralField, lib).value
              && positions[(b.protocol, b.borrower)].liquidationThresholdBps == b.liquidationThresholdBps
    {
      LastEntry(loans, entry, j);
    }
    forall key | key in positions
      ensures exists j: nat :: LastLoan(loans, j) && key == (loans[j].protocol, loans[j].borrower)
    {
      var j := FilledByLast(loans, |loans|, entry, key);
      assert LastLoan(loans, j);
    }
  }

  /** End to end: the liquidation rule decides whether every position read for the protocol is within
      its threshold, as long as the products fit the word. */
  lemma LiquidationVerdict(bindings: DbInvariantBindings, db: CacheDb, lib: Library, protocol: Address)
    requires Extract(bindings, db, lib).Ok?
    requires forall j: nat :: LastLoan(bindings.loanPositions, j) && bindings.loanPositions[j].protocol == protocol ==>
               var b := bindings.loanPositions[j];
               && (ReadDbField(db, b.borrowedField, lib).Ok? ==>
                     ReadDbField(db, b.borrowedField, lib).value * 10_000 < TWO_256)
               && (ReadDbField(db, b.collateralField, lib).Ok? ==>
                     ReadDbField(db, b.collateralField, lib).value * b.liquidationThresholdBps < TWO_256)
    ensures LoansRead(bindings.loanPositions, db, lib)
    ensures Decide(LiquidationThreshold(protocol), Extract(bindings, db, lib).value)
         == Ok(forall j: nat ::
                 LastLoan(bindings.loanPositions, j) && bindings.loanPositions[j].protocol == protocol ==>
                   var b := bindings.loanPositions[j];
                   ReadDbField(db, b.borrowedField, lib).value * 10_000
                   <= ReadDbField(db, b.collateralField, lib).value * b.liquidationThresholdBps)
  {
    ExtractedLoans(bindings, db, lib);
    LiquidationExact(protocol, Extract(bindings, db, lib).value);
  }

  /** The borrowed amounts that the bindings read. */
  function BorrowedAmounts(loans: seq<LoanPositionBinding>, db: CacheDb, lib: Library): (amounts: seq<nat>)
    requires LoansRead(loans, db, lib)
    ensures |amounts| == |loans|
    ensures forall j :: 0 <= j < |loans| ==> amounts[j] == ReadDbField(db, loans[j].borrowedField, lib).value
  {
    seq(|loans|, j requires 0 <= j < |loans| => ReadDbField(db, loans[j].borrowedField, lib).value)
  }

  /** The amounts of the protocol's last bindings, added up over the first `n` bindings. */
  function SumOfLast(loans: seq<LoanPositionBinding>, amounts: seq<nat>, protocol: Address, n: nat): nat
    requires n <= |loans| == |amounts|
  {
    if n == 0 then 0
    else
      SumOfLast(loans, amounts, protocol, n - 1) +
      if LastLoan(loans, n - 1) && loans[n - 1].protocol == protocol then amounts[n - 1] else 0
  }

  /** The protocol's last bindings among the first `n` set these keys. */
  ghost function LastKeys(loans: seq<LoanPositionBinding>, protocol: Address, n: nat): set<(Address, Address)>
    requires n <= |loans|
  {
    if n == 0 then {}
    else
      LastKeys(loans, protocol, n - 1) +
      if LastLoan(loans, n - 1) && loans[n - 1].protocol == protocol then {(protocol, loans[n - 1].borrower)} else {}
  }

  lemma {:induction false} LastKeysAre(
    loans: seq<LoanPositionBinding>, protocol: Address, n: nat, key: (Address, Address))
    requires n <= |loans|
    ensures key in LastKeys(loans, protocol, n)
       <==> exists j: nat ::
              j < n && LastLoan(loans, j) && loans[j].protocol == protocol && key == (protocol, loans[j].borrower)
  {
    if n > 0 {
      LastKeysAre(loans, protocol, n - 1, key);
    }
  }

  /** The last bindings set these borrowed amounts. */
  ghost predicate BorrowedAsRead(
    positions: map<(Address, Address), LoanPosition>, loans: seq<LoanPositionBinding>, amounts: seq<nat>)
    requires |amounts| == |loans|
  {
    forall j: nat :: LastLoan(loans, j) ==>
      var key := (loans[j].protocol, loans[j].borrower);
      key in positions && positions[key].borrowed == amounts[j]
  }

  lemma FreshKey(loans: seq<LoanPositionBinding>, protocol: Address, n: nat)
    requires 0 < n <= |loans| && LastLoan(loans, n - 1)
    ensures (protocol, loans[n - 1].borrower) !in LastKeys(loans, protocol, n - 1) || loans[n - 1].protocol != protocol
  {
    LastKeysAre(loans, protocol, n - 1, (protocol, loans[n - 1].borrower));
  }

  lemma SumBorrowedAdds(
    positions: map<(Address, Address), LoanPosition>, keys: set<(Address, Address)>, key: (Address, Address))
    requires keys <= positions.Keys && key in positions && key !in keys
    ensures SumBorrowed(positions, keys + {key}) == SumBorrowed(positions, keys) + positions[key].borrowed
  {
    SumBorrowedAny(positions, keys + {key}, key);
    assert keys + {key} - {key} == keys;
  }

  lemma BorrowedAt(
    positions: map<(Address, Address), LoanPosition>, loans: seq<LoanPositionBinding>, amounts: seq<nat>, j: nat)
    requires |amounts| == |loans| && BorrowedAsRead(positions, loans, amounts) && LastLoan(loans, j)
    ensures (loans[j].protocol, loans[j].borrower) in positions
    ensures positions[(loans[j].protocol, loans[j].borrower)].borrowed == amounts[j]
  {
  }

  /** Adding a key that a last binding sets adds its amount, for any keys and sum before it. */
  lemma BorrowedStep(
    loans: seq<LoanPositionBinding>, amounts: seq<nat>, protocol: Address, n: nat,
    positions: map<(Address, Address), LoanPosition>, before: set<(Address, Address)>)
    requires 0 < n <= |loans| == |amounts| && BorrowedAsRead(positions, loans, amounts)
    requires before == LastKeys(loans, protocol, n - 1) && before <= positions.Keys
    requires LastLoan(loans, n - 1) && loans[n - 1].protocol == protocol
    ensures before + {(protocol, loans[n - 1].borrower)} <= positions.Keys
    ensures SumBorrowed(positions, before + {(protocol, loans[n - 1].borrower)})
         == SumBorrowed(positions, before) + amounts[n - 1]
  {
    BorrowedAt(positions, loans, amounts, n - 1);
    FreshKey(loans, protocol, n);
    SumBorrowedAdds(positions, before, (protocol, loans[n - 1].borrower));
  }

  lemma {:induction false} BorrowedIsRead(
    loans: seq<LoanPositionBinding>, amounts: seq<nat>, protocol: Address, n: nat,
    positions: map<(Address, Address), LoanPosition>)
    requires n <= |loans| == |amounts| && BorrowedAsRead(positions, loans, amounts)
    ensures LastKeys(loans, protocol, n) <= positions.Keys
    ensures SumBorrowed(positions, LastKeys(loans, protocol, n)) == SumOfLast(loans, amounts, protocol, n)
  {
    if n > 0 {
      BorrowedIsRead(loans, amounts, protocol, n - 1, positions);
      var before := LastKeys(loans, protocol, n - 1);
      if LastLoan(loans, n - 1) && loans[n - 1].protocol == protocol {
        BorrowedStep(loans, amounts, protocol, n, positions, before);
        assert LastKeys(loans, protocol, n) == before + {(protocol, loans[n - 1].borrower)};
      } else {
        assert LastKeys(loans, protocol, n) == before;
      }
    }
  }

  lemma LastKeysOfProtocol(
    loans: seq<LoanPositionBinding>, protocol: Address, positions: map<(Address, Address), LoanPosition>)
    requires forall j: nat :: LastLoan(loans, j) ==> (loans[j].protocol, loans[j].borrower) in positions
    requires forall key :: key in positions ==>
               exists j: nat :: LastLoan(loans, j) && key == (loans[j].protocol, loans[j].borrower)
    ensures LastKeys(loans, protocol, |loans|) == set key | key in positions && key.0 == protocol
  {
    forall key
      ensures key in LastKeys(loans, protocol, |loans|) <==> key in positions && key.0 == protocol
    {
      LastKeysAre(loans, protocol, |loans|, key);
    }
  }

  /** The protocol's borrowed amounts in the context add up to those that its last bindings read. */
  lemma LoansAddUp(bindings: DbInvariantBindings, db: CacheDb, lib: Library, protocol: Address)
    requires Extract(bindings, db, lib).Ok?
    ensures LoansRead(bindings.loanPositions, db, lib)
    ensures var positions := Extract(bindings, db, lib).value.loanPositions;
            SumBorrowed(positions, set key | key in positions && key.0 == protocol)
            == SumOfLast(
                 bindings.loanPositions, BorrowedAmounts(bindings.loanPositions, db, lib), protocol,
                 |bindings.loanPositions|)
  {
    var loans, positions := bindings.loanPositions, Extract(bindings, db, lib).value.loanPositions;
    ExtractedLoans(bindings, db, lib);
    var amounts := BorrowedAmounts(loans, db, lib);
    assert BorrowedAsRead(positions, loans, amounts);
    BorrowedIsRead(loans, amounts, protocol, |loans|, positions);
    LastKeysOfProtocol(loans, protocol, positions);
  }

  /** End to end: the loan total rule tests whether the amounts that the protocol's last bindings read
      add up to the total read last, or, for the last value of the word, to at least that. */
  lemma LoanTotalVerdict(bindings: DbInvariantBindings, db: CacheDb, lib: Library, j: nat)
    requires Extract(bindings, db, lib).Ok? && LastLoanTotal(bindings.loanTotals, j)
    ensures ReadDbField(db, bindings.loanTotals[j].field, lib).Ok? && LoansRead(bindings.loanPositions, db, lib)
    ensures var loans, protocol := bindings.loanPositions, bindings.loanTotals[j].protocol;
            var total := ReadDbField(db, bindings.loanTotals[j].field, lib).value;
            var sum := SumOfLast(loans, BorrowedAmounts(loans, db, lib), protocol, |loans|);
            var verdict := Decide(LoanCollateralConsistency(protocol), Extract(bindings, db, lib).value);
            && (total < MAX_U256 ==> verdict == Ok(sum == total))
            && (total == MAX_U256 ==> verdict == Ok(sum >= MAX_U256))
  {
    var protocol := bindings.loanTotals[j].protocol;
    LastEntry(bindings.loanTotals, LoanTotalEntry(db, lib), j);
    LoansAddUp(bindings, db, lib, protocol);
    LoanTotalExact(protocol, Extract(bindings, db, lib).value);
  }

  /* ----- Fees and supplies ----- */

  /** End to end: the fee rule decides whether the last pair of reads is within the tolerance, as
      long as that product fits the word. */
  lemma FeeVerdict(bindings: DbInvariantBindings, db: CacheDb, lib: Library, j: nat, toleranceBps: U64)
    requires Extract(bindings, db, lib).Ok? && LastFee(bindings.feeRecords, j)
    ensures var ctx, b := Extract(bindings, db, lib).value, bindings.feeRecords[j];
            var collected, expected := ReadDbField(db, b.collectedField, lib), ReadDbField(db, b.expectedField, lib);
            && collected.Ok? && expected.Ok?
            && (expected.value * toleranceBps < TWO_256 ==>
                  Decide(FeeAccounting(b.protocol, toleranceBps), ctx)
                  == Ok(AbsDiff(collected.value, expected.value) * 10_000 <= expected.value * toleranceBps))
  {
    var b := bindings.feeRecords[j];
    LastEntry(bindings.feeRecords, FeeEntry(db, lib), j);
    var record := Extract(bindings, db, lib).value.feeRecords[b.protocol];
    if record.expected * toleranceBps < TWO_256 {
      FeeExactIff(record.expected, toleranceBps);
      assert FeeIsNatural(FeeRecord(record.collected, record.expected), toleranceBps);
    }
  }

  /** Bindings `at` are the last ones for the holders' balances of a token, in order. */
  predicate HoldersBound(
    balances: seq<TokenBalanceBinding>, token: Address, holders: seq<Address>, at: seq<nat>)
  {
    |at| == |holders| &&
    forall i :: 0 <= i < |holders| ==>
      LastBalance(balances, at[i]) && balances[at[i]].token == token && balances[at[i]].owner == holders[i]
  }

  /** The balances that those bindings read. */
  function BalanceReads(balances: seq<TokenBalanceBinding>, db: CacheDb, lib: Library, at: seq<nat>): seq<U256>
    requires forall i :: 0 <= i < |at| ==>
               at[i] < |balances| && ReadDbField(db, balances[at[i]].field, lib).Ok?
  {
    seq(|at|, i requires 0 <= i < |at| => ReadDbField(db, balances[at[i]].field, lib).value)
  }

  /** End to end: the supply rule tests whether the balances read for its holders add up to the supply
      read last, or, for the last value of the word, to at least that. */
  lemma SupplyVerdict(
    bindings: DbInvariantBindings, db: CacheDb, lib: Library, holders: seq<Address>, at: seq<nat>, j: nat)
    requires Extract(bindings, db, lib).Ok? && LastSupply(bindings.totalSupplies, j)
    requires HoldersBound(bindings.tokenBalances, bindings.totalSupplies[j].token, holders, at)
    ensures ReadDbField(db, bindings.totalSupplies[j].field, lib).Ok?
    ensures forall i :: 0 <= i < |at| ==>
              at[i] < |bindings.tokenBalances| && ReadDbField(db, bindings.tokenBalances[at[i]].field, lib).Ok?
    ensures var token := bindings.totalSupplies[j].token;
            var total := ReadDbField(db, bindings.totalSupplies[j].field, lib).value;
            var sum := Sum(BalanceReads(bindings.tokenBalances, db, lib, at));
            var verdict := Decide(SupplyConsistency(token, holders), Extract(bindings, db, lib).value);
            && (total < MAX_U256 ==> verdict == Ok(sum == total))
            && (total == MAX_U256 ==> verdict == Ok(sum >= MAX_U256))
  {
    var ctx, token := Extract(bindings, db, lib).value, bindings.totalSupplies[j].token;
    LastEntry(bindings.totalSupplies, TotalSupplyEntry(db, lib), j);
    forall i | 0 <= i < |at|
      ensures at[i] < |bindings.tokenBalances| && ReadDbField(db, bindings.tokenBalances[at[i]].field, lib).Ok?
      ensures (token, holders[i]) in ctx.tokenBalances
      ensures ctx.tokenBalances[(token, holders[i])]
           == ReadDbField(db, bindings.tokenBalances[at[i]].field, lib).value
    {
      LastEntry(bindings.tokenBalances, TokenBalanceEntry(db, lib), at[i]);
    }
    SupplyExact(token, holders, ctx);
    var balances: seq<U256> :=
      seq(|holders|, i requires 0 <= i < |holders| => ctx.tokenBalances[(token, holders[i])]);
    assert balances == BalanceReads(bindings.tokenBalances, db, lib, at);
  }

  /* ----- What nothing is bound for ----- */

  ghost predicate BalanceBound(bindings: seq<TokenBalanceBinding>, token: Address, owner: Address) {
    exists k :: 0 <= k < |bindings| && bindings[k].token == token && bindings[k].owner == owner
  }

  lemma BalancesBound(bindings: DbInvariantBindings, db: CacheDb, lib: Library, token: Address, owner: Address)
    requires Extract(bindings, db, lib).Ok?
    ensures (token, owner) in Extract(bindings, db, lib).value.tokenBalances
       <==> BalanceBound(bindings.tokenBalances, token, owner)
  {
    FillOkIff(bindings.tokenBalances, |bindings.tokenBalances|, TokenBalanceEntry(db, lib));
  }

  /** The balance gap rule errs exactly when no balance, or no reserve, is bound for the pool. */
  lemma BalanceGapUnbound(bindings: DbInvariantBindings, db: CacheDb, lib: Library, pool: Address, token: Address)
    requires Extract(bindings, db, lib).Ok?
    ensures var verdict := Decide(BalanceGap(pool, token), Extract(bindings, db, lib).value);
            if !BalanceBound(bindings.tokenBalances, token, pool) then verdict == Err(MissingBalance)
            else if forall k :: 0 <= k < |bindings.tokenReserves| ==>
                   bindings.tokenReserves[k].pool != pool || bindings.tokenReserves[k].token != token
            then verdict == Err(MissingReserve)
            else verdict.Ok?
  {
    BalancesBound(bindings, db, lib, token, pool);
    FillOkIff(bindings.tokenReserves, |bindings.tokenReserves|, TokenReserveEntry(db, lib));
  }

  /** The supply rule errs exactly when no balance is bound for some holder, or no supply. */
  lemma SupplyUnbound(
    bindings: DbInvariantBindings, db: CacheDb, lib: Library, token: Address, holders: seq<Address>)
    requires Extract(bindings, db, lib).Ok?
    ensures var verdict := Decide(SupplyConsistency(token, holders), Extract(bindings, db, lib).value);
            if exists i :: 0 <= i < |holders| && !BalanceBound(bindings.tokenBalances, token, holders[i])
            then verdict == Err(MissingHolderBalance)
            else if forall k :: 0 <= k < |bindings.totalSupplies| ==> bindings.totalSupplies[k].token != token
            then verdict == Err(MissingTotalSupply)
            else verdict.Ok?
  {
    forall i | 0 <= i < |holders|
      ensures Extract(bindings, db, lib).value.TokenBalance(token, holders[i]).Some?
         <==> BalanceBound(bindings.tokenBalances, token, holders[i])
    {
      BalancesBound(bindings, db, lib, token, holders[i]);
    }
    FillOkIff(bindings.totalSupplies, |bindings.totalSupplies|, TotalSupplyEntry(db, lib));
  }

  /** The rules about one entry err exactly when nothing is bound for it. */
  lemma ConstantProductUnbound(
    bindings: DbInvariantBindings, db: CacheDb, lib: Library, pool: Address, baselineK: U256)
    requires Extract(bindings, db, lib).Ok?
    ensures var verdict := Decide(ConstantProduct(pool, baselineK), Extract(bindings, db, lib).value);
            if forall k :: 0 <= k < |bindings.poolReserves| ==> bindings.poolReserves[k].pool != pool
            then verdict == Err(MissingPoolReserves) else verdict.Ok?
  {
    FillOkIff(bindings.poolReserves, |bindings.poolReserves|, PoolReserveEntry(db, lib));
  }

  lemma CdpKey(db: CacheDb, lib: Library, prices: map<Address, U256>, b: CdpBinding)
    ensures CdpEntry(db, lib, prices)(b).Ok? ==> CdpEntry(db, lib, prices)(b).value.0 == b.owner
  {
  }

  lemma KeysBound<B, K, V>(bindings: seq<B>, entry: B -> Entry<K, V>, key: K)
    requires FillAll(bindings, entry).Ok?
    ensures forall k :: 0 <= k < |bindings| ==> entry(bindings[k]).Ok?
    ensures key in FillAll(bindings, entry).value
       <==> exists k :: 0 <= k < |bindings| && entry(bindings[k]).value.0 == key
  {
    FillOkIff(bindings, |bindings|, entry);
  }

  lemma CdpUnbound(bindings: DbInvariantBindings, db: CacheDb, lib: Library, owner: Address, maxLtvBps: U64)
    requires Extract(bindings, db, lib).Ok?
    ensures var verdict := Decide(CdpLtv(owner, maxLtvBps), Extract(bindings, db, lib).value);
            if forall k :: 0 <= k < |bindings.cdpPositions| ==> bindings.cdpPositions[k].owner != owner
            then verdict == Err(MissingCdpPosition) else verdict.Ok?
  {
    var prices := FillAll(bindings.prices, PriceEntry()).value;
    KeysBound(bindings.cdpPositions, CdpEntry(db, lib, prices), owner);
    forall k | 0 <= k < |bindings.cdpPositions|
      ensures CdpEntry(db, lib, prices)(bindings.cdpPositions[k]).Ok?
      ensures CdpEntry(db, lib, prices)(bindings.cdpPositions[k]).value.0 == bindings.cdpPositions[k].owner
    {
      CdpKey(db, lib, prices, bindings.cdpPositions[k]);
    }
  }

  lemma LoanTotalUnbound(bindings: DbInvariantBindings, db: CacheDb, lib: Library, protocol: Address)
    requires Extract(bindings, db, lib).Ok?
    ensures var verdict := Decide(LoanCollateralConsistency(protocol), Extract(bindings, db, lib).value);
            if forall k :: 0 <= k < |bindings.loanTotals| ==> bindings.loanTotals[k].protocol != protocol
            then verdict == Err(MissingLoanTotal) else verdict.Ok?
  {
    FillOkIff(bindings.loanTotals, |bindings.loanTotals|, LoanTotalEntry(db, lib));
  }

  lemma FeeKey(db: CacheDb, lib: Library, b: FeeBinding)
    ensures FeeEntry(db, lib)(b).Ok? ==> FeeEntry(db, lib)(b).value.0 == b.protocol
  {
  }

  lemma FeeUnbound(bindings: DbInvariantBindings, db: CacheDb, lib: Library, protocol: Address, toleranceBps: U64)
    requires Extract(bindings, db, lib).Ok?
    ensures var verdict := Decide(FeeAccounting(protocol, toleranceBps), Extract(bindings, db, lib).value);
            if forall k :: 0 <= k < |bindings.feeRecords| ==> bindings.feeRecords[k].protocol != protocol
            then verdict == Err(MissingFeeRecord) else verdict.Ok?
  {
    KeysBound(bindings.feeRecords, FeeEntry(db, lib), protocol);
    forall k | 0 <= k < |bindings.feeRecords|
      ensures FeeEntry(db, lib)(bindings.feeRecords[k]).Ok?
      ensures FeeEntry(db, lib)(bindings.feeRecords[k]).value.0 == bindings.feeRecords[k].protocol
    {
      FeeKey(db, lib, bindings.feeRecords[k]);
    }
  }
}
