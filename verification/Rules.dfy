/** The invariant rules and their composite. */
module Rules {
  import opened Division
  import opened Wrappers
  import opened Words
  import opened Context

  type Verdict = Result<bool, AuditError>

  datatype RuleViolation = RuleViolation(rule: string, message: string)

  datatype Rule =
    | BalanceGap(pool: Address, token: Address)
    | ConstantProduct(pool: Address, baselineK: U256)
    | SupplyConsistency(token: Address, holders: seq<Address>)
    | CdpLtv(owner: Address, maxLtvBps: U64)
    | LoanCollateralConsistency(protocol: Address)
    | LiquidationThreshold(protocol: Address)
    | FeeAccounting(protocol: Address, toleranceBps: U64)
    | Custom(name: string, condition: ContextView -> Verdict)
  {
    function Name(): string {
      match this
      case BalanceGap(_, _) => "balance_gap"
      case ConstantProduct(_, _) => "constant_product"
      case SupplyConsistency(_, _) => "supply_consistency"
      case CdpLtv(_, _) => "cdp_ltv"
      case LoanCollateralConsistency(_) => "loan_collateral_consistency"
      case LiquidationThreshold(_) => "liquidation_threshold"
      case FeeAccounting(_, _) => "fee_accounting"
      case Custom(name, _) => name
    }
  }

  /* ----- Sums ----- */

  function Sum(values: seq<U256>): nat {
    if |values| == 0 then 0 else Sum(values[..|values| - 1]) + values[|values| - 1]
  }

  /** The accumulator of a `saturating_add` loop. */
  function SatFold(values: seq<U256>): U256 {
    if |values| == 0 then 0 else SatAdd(SatFold(values[..|values| - 1]), values[|values| - 1])
  }

  /** A saturating sum is the true sum, cut off at the last value of the word. */
  lemma {:induction false} SatFoldIsCappedSum(values: seq<U256>)
    ensures SatFold(values) == Min(Sum(values), MAX_U256)
  {
    if |values| == 0 {
    } else {
      SatFoldIsCappedSum(values[..|values| - 1]);
    }
  }

  /** One occurrence of `x` may be added up last. */
  lemma {:induction false} SumExtract(b: seq<U256>, x: U256) returns (rest: seq<U256>)
    requires x in b
    ensures multiset(b) == multiset(rest) + multiset{x}
    ensures Sum(b) == Sum(rest) + x
  {
    var front, last := b[..|b| - 1], b[|b| - 1];
    assert b == front + [last];
    if last == x {
      rest := front;
    } else {
      var inner := SumExtract(front, x);
      rest := inner + [last];
      assert rest[..|rest| - 1] == inner;
    }
  }

  lemma {:induction false} SumPermutation(a: seq<U256>, b: seq<U256>)
    requires multiset(a) == multiset(b)
    ensures Sum(a) == Sum(b)
  {
    if |a| == 0 {
      assert |multiset(a)| == |multiset(b)|;
    } else {
      var x, front := a[|a| - 1], a[..|a| - 1];
      assert a == front + [x];
      assert x in multiset(b);
      var rest := SumExtract(b, x);
      assert multiset(front) == multiset(a) - multiset{x} == multiset(rest);
      SumPermutation(front, rest);
    }
  }

  /** The order in which a saturating loop meets the values does not matter. */
  lemma SatFoldOrderFree(a: seq<U256>, b: seq<U256>)
    requires multiset(a) == multiset(b)
    ensures SatFold(a) == SatFold(b)
  {
    SumPermutation(a, b);
    SatFoldIsCappedSum(a);
    SatFoldIsCappedSum(b);
  }

  /** The borrowed amounts at the given keys, added up in the natural numbers. */
  ghost function SumBorrowed(positions: map<(Address, Address), LoanPosition>, keys: set<(Address, Address)>): nat
    requires keys <= positions.Keys
  {
    if keys == {} then 0
    else
      var key :| key in keys;
      positions[key].borrowed + SumBorrowed(positions, keys - {key})
  }

  /** Any key may be added up first. */
  lemma {:induction false} SumBorrowedAny(
    positions: map<(Address, Address), LoanPosition>, keys: set<(Address, Address)>, key: (Address, Address))
    requires keys <= positions.Keys && key in keys
    ensures SumBorrowed(positions, keys) == positions[key].borrowed + SumBorrowed(positions, keys - {key})
    decreases keys
  {
    var first :| first in keys
      && SumBorrowed(positions, keys) == positions[first].borrowed + SumBorrowed(positions, keys - {first});
    if first != key {
      SumBorrowedAny(positions, keys - {first}, key);
      SumBorrowedAny(positions, keys - {key}, first);
      assert keys - {first} - {key} == keys - {key} - {first};
    }
  }

  /* ----- Verdicts ----- */

  /** The position is within `bps` basis points of its collateral, by the program's wrapping products. */
  predicate WithinRatio(debt: U256, collateral: U256, bps: U64) {
    debt == 0 || (collateral != 0 && WrapMul(debt, 10_000) <= WrapMul(collateral, bps))
  }

  function AbsDiff(a: nat, b: nat): nat {
    if a > b then a - b else b - a
  }

  /** The collected fees deviate from the expected ones by no more than the tolerance, as far as
      that is represented: its product is taken modulo the word. Nothing expected allows nothing collected. */
  predicate WithinTolerance(record: FeeRecord, toleranceBps: U64) {
    AbsDiff(record.collected, record.expected) * 10_000 <= WrapMul(record.expected, toleranceBps)
  }

  /** A sum capped at the last value of the word can be told from `total` only below that value. */
  predicate SumMatches(sum: nat, total: U256) {
    if total < MAX_U256 then sum == total else sum >= total
  }

  function Balances(ctx: ContextView, token: Address, holders: seq<Address>): seq<U256>
    requires forall i :: 0 <= i < |holders| ==> ctx.TokenBalance(token, holders[i]).Some?
  {
    seq(|holders|, i requires 0 <= i < |holders| => ctx.TokenBalance(token, holders[i]).value)
  }

  /** What each rule decides, in the natural numbers as far as the fixed width allows. */
  ghost function Decide(rule: Rule, ctx: ContextView): Verdict {
    match rule
    case BalanceGap(pool, token) =>
      if ctx.TokenBalance(token, pool).None? then Err(MissingBalance)
      else if ctx.TokenReserve(pool, token).None? then Err(MissingReserve)
      else Ok(ctx.TokenBalance(token, pool).value >= ctx.TokenReserve(pool, token).value)
    case ConstantProduct(pool, baselineK) =>
      if pool !in ctx.poolReserves then Err(MissingPoolReserves)
      else Ok(ctx.poolReserves[pool].0 * ctx.poolReserves[pool].1 >= baselineK)
    case SupplyConsistency(token, holders) =>
      if exists i :: 0 <= i < |holders| && ctx.TokenBalance(token, holders[i]).None? then Err(MissingHolderBalance)
      else if token !in ctx.totalSupplies then Err(MissingTotalSupply)
      else Ok(SumMatches(Sum(Balances(ctx, token, holders)), ctx.totalSupplies[token]))
    case CdpLtv(owner, maxLtvBps) =>
      if owner !in ctx.cdpPositions then Err(MissingCdpPosition)
      else Ok(WithinRatio(ctx.cdpPositions[owner].debtValue, ctx.cdpPositions[owner].collateralValue, maxLtvBps))
    case LoanCollateralConsistency(protocol) =>
      if protocol !in ctx.loanTotals then Err(MissingLoanTotal)
      else Ok(SumMatches(SumBorrowed(ctx.loanPositions, ctx.LoanKeys(protocol)), ctx.loanTotals[protocol]))
    case LiquidationThreshold(protocol) =>
      Ok(forall key :: key in ctx.LoanKeys(protocol) ==> PositionHealthy(ctx.loanPositions[key]))
    case FeeAccounting(protocol, toleranceBps) =>
      if protocol !in ctx.feeRecords then Err(MissingFeeRecord)
      else Ok(WithinTolerance(ctx.feeRecords[protocol], toleranceBps))
    case Custom(_, condition) => condition(ctx)
  }

  predicate PositionHealthy(position: LoanPosition) {
    WithinRatio(position.borrowed, position.collateral, position.liquidationThresholdBps)
  }

  /** `SupplyConsistencyRule::check` */
  method CheckSupply(token: Address, holders: seq<Address>, ctx: ContextView) returns (r: Verdict)
    ensures r == Decide(SupplyConsistency(token, holders), ctx)
  {
    var sum: U256 := 0;
    for i := 0 to |holders|
      invariant forall k :: 0 <= k < i ==> ctx.TokenBalance(token, holders[k]).Some?
      invariant sum == SatFold(Balances(ctx, token, holders[..i]))
    {
      var balance := ctx.TokenBalance(token, holders[i]);
      if balance.None? {
        return Err(MissingHolderBalance);
      }
      assert Balances(ctx, token, holders[..i + 1])[..i] == Balances(ctx, token, holders[..i]);
      sum := SatAdd(sum, balance.value);
    }
    assert holders[..|holders|] == holders;
    SatFoldIsCappedSum(Balances(ctx, token, holders));
    var total := Lookup(ctx.totalSupplies, token);
    if total.None? {
      return Err(MissingTotalSupply);
    }
    return Ok(sum == total.value);
  }

  /** `LoanCollateralConsistencyRule::check`. The map is iterated in an arbitrary order. */
  method CheckLoanTotal(protocol: Address, ctx: ContextView) returns (r: Verdict)
    ensures r == Decide(LoanCollateralConsistency(protocol), ctx)
  {
    var tracked := Lookup(ctx.loanTotals, protocol);
    if tracked.None? {
      return Err(MissingLoanTotal);
    }
    var sum: U256 := 0;
    var remaining := ctx.LoanKeys(protocol);
    ghost var done: set<(Address, Address)> := {};
    while remaining != {}
      invariant done + remaining == ctx.LoanKeys(protocol) && done !! remaining
      invariant sum == Min(SumBorrowed(ctx.loanPositions, done), MAX_U256)
      decreases remaining
    {
      var key :| key in remaining;
      SumBorrowedAny(ctx.loanPositions, done + {key}, key);
      assert done + {key} - {key} == done;
      sum := SatAdd(sum, ctx.loanPositions[key].borrowed);
      remaining := remaining - {key};
      done := done + {key};
    }
    assert done == ctx.LoanKeys(protocol);
    return Ok(tracked.value == sum);
  }

  /** `LiquidationThresholdRule::check`, which stops at the first unhealthy position it meets. */
  method CheckLiquidation(protocol: Address, ctx: ContextView) returns (r: Verdict)
    ensures r == Decide(LiquidationThreshold(protocol), ctx)
  {
    var remaining := ctx.LoanKeys(protocol);
    while remaining != {}
      invariant remaining <= ctx.LoanKeys(protocol)
      invariant forall key :: key in ctx.LoanKeys(protocol) && key !in remaining ==>
                  PositionHealthy(ctx.loanPositions[key])
      decreases remaining
    {
      var key :| key in remaining;
      var position := ctx.loanPositions[key];
      remaining := remaining - {key};
      if position.borrowed == 0 {
        continue;
      }
      if position.collateral == 0 {
        assert !PositionHealthy(position);
        return Ok(false);
      }
      var lhs := WrapMul(position.borrowed, 10_000);
      var rhs := WrapMul(position.collateral, position.liquidationThresholdBps);
      if lhs > rhs {
        assert !PositionHealthy(position);
        return Ok(false);
      }
    }
    return Ok(true);
  }

  /** `CdpLtvRule::check` */
  method CheckCdp(owner: Address, maxLtvBps: U64, ctx: ContextView) returns (r: Verdict)
    ensures r == Decide(CdpLtv(owner, maxLtvBps), ctx)
  {
    var position := Lookup(ctx.cdpPositions, owner);
    if position.None? {
      return Err(MissingCdpPosition);
    }
    if position.value.debtValue == 0 {
      return Ok(true);
    }
    if position.value.collateralValue == 0 {
      return Ok(false);
    }
    var lhs := WrapMul(position.value.debtValue, 10_000);
    var rhs := WrapMul(position.value.collateralValue, maxLtvBps);
    return Ok(lhs <= rhs);
  }

  /** `FeeAccountingRule::check` */
  method CheckFee(protocol: Address, toleranceBps: U64, ctx: ContextView) returns (r: Verdict)
    ensures r == Decide(FeeAccounting(protocol, toleranceBps), ctx)
  {
    var found := Lookup(ctx.feeRecords, protocol);
    if found.None? {
      return Err(MissingFeeRecord);
    }
    var record := found.value;
    if record.expected == 0 {
      WrapBelow(0, toleranceBps);
      return Ok(record.collected == 0);
    }
    var diff := if record.collected > record.expected then record.collected - record.expected
                else record.expected - record.collected;
    var maxDiff := WrapMul(record.expected, toleranceBps) / 10_000;
    FloorCompare(diff, WrapMul(record.expected, toleranceBps));
    return Ok(diff <= maxDiff);
  }

  /** `InvariantRule::check`, by dynamic dispatch in the program. */
  method Check(rule: Rule, ctx: ContextView) returns (r: Verdict)
    ensures r == Decide(rule, ctx)
  {
    match rule {
      case BalanceGap(pool, token) =>
        var balance, reserve := ctx.TokenBalance(token, pool), ctx.TokenReserve(pool, token);
        r := if balance.None? then Err(MissingBalance)
             else if reserve.None? then Err(MissingReserve)
             else Ok(balance.value >= reserve.value);
      case ConstantProduct(pool, baselineK) =>
        var reserves := Lookup(ctx.poolReserves, pool);
        r := if reserves.None? then Err(MissingPoolReserves)
             else Ok(SatMul(reserves.value.0, reserves.value.1) >= baselineK);
      case SupplyConsistency(token, holders) =>
        r := CheckSupply(token, holders, ctx);
      case CdpLtv(owner, maxLtvBps) =>
        r := CheckCdp(owner, maxLtvBps, ctx);
      case LoanCollateralConsistency(protocol) =>
        r := CheckLoanTotal(protocol, ctx);
      case LiquidationThreshold(protocol) =>
        r := CheckLiquidation(protocol, ctx);
      case FeeAccounting(protocol, toleranceBps) =>
        r := CheckFee(protocol, toleranceBps, ctx);
      case Custom(_, condition) =>
        r := condition(ctx);
    }
  }

  /* ----- The composite ----- */

  function ViolationOf(rule: Rule): RuleViolation {
    RuleViolation(rule.Name(), rule.Name() + " violated")
  }

  /** The rules before position `k` hold and rule `k` does not. */
  ghost predicate FirstFailing(rules: seq<Rule>, ctx: ContextView, k: nat) {
    k < |rules| && Decide(rules[k], ctx) != Ok(true) && forall i :: 0 <= i < k ==> Decide(rules[i], ctx) == Ok(true)
  }

  ghost function EvaluateRules(rules: seq<Rule>, ctx: ContextView): Result<Option<RuleViolation>, AuditError> {
    if |rules| == 0 then Ok(None)
    else
      match Decide(rules[0], ctx)
      case Err(error) => Err(error)
      case Ok(true) => EvaluateRules(rules[1..], ctx)
      case Ok(false) => Ok(Some(ViolationOf(rules[0])))
  }

  class CompositeInvariant {
    var rules: seq<Rule>

    constructor ()
      ensures rules == []
    {
      rules := [];
    }

    method PushRule(rule: Rule)
      modifies this
      ensures rules == old(rules) + [rule]
    {
      rules := rules + [rule];
    }

    /** `CompositeInvariant::evaluate` stops at the first rule that fails or errs. */
    method Evaluate(ctx: ContextView) returns (r: Result<Option<RuleViolation>, AuditError>)
      ensures r == EvaluateRules(rules, ctx)
    {
      for i := 0 to |rules|
        invariant EvaluateRules(rules, ctx) == EvaluateRules(rules[i..], ctx)
      {
        assert rules[i..][1..] == rules[i + 1..];
        var verdict := Check(rules[i], ctx);
        if verdict.Err? {
          return Err(verdict.error);
        }
        if !verdict.value {
          return Ok(Some(ViolationOf(rules[i])));
        }
      }
      return Ok(None);
    }
  }

  /** The composite reports nothing exactly when every rule holds. */
  lemma {:induction false} EvaluateCleanIff(rules: seq<Rule>, ctx: ContextView)
    ensures EvaluateRules(rules, ctx) == Ok(None)
       <==> forall i :: 0 <= i < |rules| ==> Decide(rules[i], ctx) == Ok(true)
  {
    if |rules| == 0 {
    } else {
      EvaluateCleanIff(rules[1..], ctx);
      assert forall i :: 0 < i < |rules| ==> rules[i] == rules[1..][i - 1];
      if forall i :: 0 <= i < |rules[1..]| ==> Decide(rules[1..][i], ctx) == Ok(true) {
        assert forall i :: 0 < i < |rules| ==> Decide(rules[i], ctx) == Ok(true);
      }
    }
  }

  /** Otherwise it reports the first rule that does not hold: its violation, or its error. */
  lemma {:induction false} EvaluateFirst(rules: seq<Rule>, ctx: ContextView, k: nat)
    requires FirstFailing(rules, ctx, k)
    ensures EvaluateRules(rules, ctx)
         == match Decide(rules[k], ctx)
            case Err(error) => Err(error)
            case Ok(_) => Ok(Some(ViolationOf(rules[k])))
  {
    if k > 0 {
      assert Decide(rules[0], ctx) == Ok(true);
      EvaluateFirst(rules[1..], ctx, k - 1);
    }
  }

  /* ----- What the sum rules decide, spelled out ----- */

  /** The supply rule tests equality of the true sum with every total but the last of the word, to
      which it only compares. */
  lemma SupplyExact(token: Address, holders: seq<Address>, ctx: ContextView)
    requires forall i :: 0 <= i < |holders| ==> (token, holders[i]) in ctx.tokenBalances
    requires token in ctx.totalSupplies
    ensures var balances: seq<U256> :=
              seq(|holders|, i requires 0 <= i < |holders| => ctx.tokenBalances[(token, holders[i])]);
            var verdict, total := Decide(SupplyConsistency(token, holders), ctx), ctx.totalSupplies[token];
            && (total < MAX_U256 ==> verdict == Ok(Sum(balances) == total))
            && (total == MAX_U256 ==> verdict == Ok(Sum(balances) >= MAX_U256))
  {
    var balances: seq<U256> :=
      seq(|holders|, i requires 0 <= i < |holders| => ctx.tokenBalances[(token, holders[i])]);
    assert Balances(ctx, token, holders) == balances;
  }

  /** So does the loan rule, with the borrowed amounts of exactly the protocol's positions. */
  lemma LoanTotalExact(protocol: Address, ctx: ContextView)
    requires protocol in ctx.loanTotals
    ensures var keys := set key | key in ctx.loanPositions && key.0 == protocol;
            var sum := SumBorrowed(ctx.loanPositions, keys);
            var verdict, total := Decide(LoanCollateralConsistency(protocol), ctx), ctx.loanTotals[protocol];
            && (total < MAX_U256 ==> verdict == Ok(sum == total))
            && (total == MAX_U256 ==> verdict == Ok(sum >= MAX_U256))
  {
    assert ctx.LoanKeys(protocol) == set key | key in ctx.loanPositions && key.0 == protocol;
  }

  /* ----- What the product rules decide, spelled out ----- */

  /** On every context: the products are taken modulo the word, the zero amounts come first, and the
      division in the fee rule loses nothing. */
  lemma WrappedVerdicts(address: Address, bps: U64, ctx: ContextView)
    ensures address in ctx.cdpPositions ==>
              var debt, collateral := ctx.cdpPositions[address].debtValue, ctx.cdpPositions[address].collateralValue;
              Decide(CdpLtv(address, bps), ctx)
              == Ok(debt == 0
                    || (collateral != 0 && (debt * 10_000) % TWO_256 <= (collateral * bps) % TWO_256))
    ensures Decide(LiquidationThreshold(address), ctx)
         == Ok(forall key :: key in ctx.loanPositions && key.0 == address ==>
                 var p := ctx.loanPositions[key];
                 p.borrowed == 0
                 || (p.collateral != 0
                     && (p.borrowed * 10_000) % TWO_256 <= (p.collateral * p.liquidationThresholdBps) % TWO_256))
    ensures address in ctx.feeRecords ==>
              var collected, expected := ctx.feeRecords[address].collected, ctx.feeRecords[address].expected;
              var deviation := if collected < expected then expected - collected else collected - expected;
              Decide(FeeAccounting(address, bps), ctx) == Ok(deviation * 10_000 <= (expected * bps) % TWO_256)
  {
    forall key
      ensures key in ctx.LoanKeys(address) <==> key in ctx.loanPositions && key.0 == address
    {
    }
  }

  /* ----- When fixed-width arithmetic agrees with the natural rule ----- */

  lemma ProductFits(a: U256, b: U256)
    requires a * b < TWO_256
    ensures WrapMul(a, b) == a * b
  {
    ModBelow(Product(a, b), TWO_256);
  }

  lemma WrapBelow(a: U256, b: U256)
    ensures WrapMul(a, b) <= a * b
  {
    DivMod(Product(a, b), TWO_256);
  }

  lemma FloorCompare(diff: nat, w: nat)
    ensures diff <= w / 10_000 <==> diff * 10_000 <= w
  {
  }

  /** The check's verdict on a debt and a collateral is that of the natural numbers. */
  predicate RatioIsNatural(debt: U256, collateral: U256, bps: U64) {
    WithinRatio(debt, collateral, bps) <==> debt * 10_000 <= collateral * bps
  }

  /** The ratio check decides the rule over the natural numbers, its zero shortcuts included,
      whenever both products fit the word. */
  lemma RatioExact(debt: U256, collateral: U256, bps: U64)
    requires debt * 10_000 < TWO_256 && collateral * bps < TWO_256
    ensures RatioIsNatural(debt, collateral, bps)
  {
    ProductFits(debt, 10_000);
    ProductFits(collateral, bps);
    assert collateral == 0 ==> Product(collateral, bps) == 0;
  }

  function CeilDiv(a: nat, b: nat): nat
    requires b > 0
  {
    (a + b - 1) / b
  }

  lemma CeilDivFacts(a: nat, b: nat)
    requires b > 0
    ensures a <= Product(CeilDiv(a, b), b) < a + b
  {
    DivMod(a + b - 1, b);
  }

  lemma CeilDivLeast(a: nat, b: nat, x: nat)
    requires b > 0 && a <= Product(x, b)
    ensures CeilDiv(a, b) <= x
  {
    CeilDivFacts(a, b);
    if CeilDiv(a, b) > x {
      MulMonotone(b, x + 1, CeilDiv(a, b));
      Distribute(b, x, 1);
    }
  }

  /** A product just over the word wraps to what it exceeds the word by. */
  lemma WrapsOnce(a: U256, b: U256)
    requires TWO_256 <= Product(a, b) < 2 * TWO_256
    ensures WrapMul(a, b) == Product(a, b) - TWO_256
  {
    QuotientIs(Product(a, b), TWO_256, 1, Product(a, b) - TWO_256);
  }

  /** Bounds on both amounts that leave room for a ratio: the scaled debt can reach `bps`, and the
      scaled collateral can reach the 10000 that one unit of debt counts for. */
  predicate Roomy(maxDebt: U256, maxCollateral: U256, bps: U64) {
    bps > 0 && bps <= Product(maxDebt, 10_000) && 10_000 <= Product(maxCollateral, bps)
  }

  /** The overflow guard of a ratio: neither product can leave the word. */
  predicate RatioFits(maxDebt: U256, maxCollateral: U256, bps: U64) {
    maxDebt * 10_000 < TWO_256 && maxCollateral * bps < TWO_256
  }

  /** Some position within the bounds is judged wrongly: an unhealthy one passes or a healthy one fails. */
  ghost predicate RatioBreaks(maxDebt: U256, maxCollateral: U256, bps: U64) {
    exists debt: U256, collateral: U256 ::
      debt <= maxDebt && collateral <= maxCollateral && !RatioIsNatural(debt, collateral, bps)
  }

  /** Once the debt can overflow, some unhealthy position passes. */
  lemma OverflowHides(maxDebt: U256, maxCollateral: U256, bps: U64)
    requires Roomy(maxDebt, maxCollateral, bps) && TWO_256 <= Product(maxDebt, 10_000)
    ensures RatioBreaks(maxDebt, maxCollateral, bps)
  {
    CeilDivLeast(TWO_256, 10_000, maxDebt);
    CeilDivLeast(10_000, bps, maxCollateral);
    var debt: U256, collateral: U256 := CeilDiv(TWO_256, 10_000), CeilDiv(10_000, bps);
    CeilDivFacts(TWO_256, 10_000);
    CeilDivFacts(10_000, bps);
    WrapsOnce(debt, 10_000);
    ProductFits(collateral, bps);
    assert WithinRatio(debt, collateral, bps);
    assert !RatioIsNatural(debt, collateral, bps);
  }

  /** Once the collateral can overflow, some healthy position fails. */
  lemma OverflowCondemns(maxDebt: U256, maxCollateral: U256, bps: U64)
    requires Roomy(maxDebt, maxCollateral, bps) && TWO_256 <= Product(maxCollateral, bps)
    ensures RatioBreaks(maxDebt, maxCollateral, bps)
  {
    CeilDivLeast(bps, 10_000, maxDebt);
    CeilDivLeast(TWO_256, bps, maxCollateral);
    var debt: U256, collateral: U256 := CeilDiv(bps, 10_000), CeilDiv(TWO_256, bps);
    CeilDivFacts(bps, 10_000);
    CeilDivFacts(TWO_256, bps);
    WrapsOnce(collateral, bps);
    ProductFits(debt, 10_000);
    assert !WithinRatio(debt, collateral, bps);
    assert !RatioIsNatural(debt, collateral, bps);
  }

  lemma BreaksUnlessFits(maxDebt: U256, maxCollateral: U256, bps: U64)
    requires Roomy(maxDebt, maxCollateral, bps) && !RatioFits(maxDebt, maxCollateral, bps)
    ensures RatioBreaks(maxDebt, maxCollateral, bps)
  {
    if TWO_256 <= Product(maxDebt, 10_000) {
      OverflowHides(maxDebt, maxCollateral, bps);
    } else {
      OverflowCondemns(maxDebt, maxCollateral, bps);
    }
  }

  lemma FitsBelow(x: nat, y: nat, max: nat, maxFactor: nat)
    requires x <= max && y <= maxFactor && max * maxFactor < TWO_256
    ensures x * y < TWO_256
  {
    MulMonotone(x, y, maxFactor);
    MulMonotone(maxFactor, x, max);
  }

  /** The least amount whose product with `m` wraps `k` times, and what that product exceeds the wraps by. */
  function LeastWrapping(k: nat, m: nat): nat
    requires m > 0
  {
    CeilDiv(k * TWO_256, m)
  }

  function Excess(k: nat, m: nat): (r: nat)
    requires m > 0
    ensures r < m
  {
    CeilDivFacts(k * TWO_256, m);
    Product(LeastWrapping(k, m), m) - k * TWO_256
  }

  lemma LeastWrappingWraps(k: nat, m: U64)
    requires m > 0 && LeastWrapping(k, m) < TWO_256
    ensures WrapMul(LeastWrapping(k, m), m) == Excess(k, m)
    ensures k > 0 ==> TWO_256 <= Product(LeastWrapping(k, m), m)
  {
    CeilDivFacts(k * TWO_256, m);
    QuotientIs(Product(LeastWrapping(k, m), m), TWO_256, k, Excess(k, m));
  }

  /** A product that wraps `k` times is no smaller, before and after wrapping, than the least one. */
  lemma LeastWrappingLeast(x: U256, m: U64, k: nat)
    requires m > 0 && k == Product(x, m) / TWO_256
    ensures LeastWrapping(k, m) <= x && Excess(k, m) <= WrapMul(x, m)
    ensures Product(x, m) == k * TWO_256 + WrapMul(x, m) && k < m
  {
    DivMod(Product(x, m), TWO_256);
    CeilDivLeast(k * TWO_256, m, x);
    MulMonotone(m, LeastWrapping(k, m), x);
    MulMonotone(m, x, MAX_U256);
  }

  /** A debt within the bound wraps `k` times to no more than the scaled collateral bound. */
  predicate HidesAt(k: nat, maxDebt: U256, maxCollateral: U256, bps: U64) {
    0 < maxCollateral && LeastWrapping(k, 10_000) <= maxDebt && Excess(k, 10_000) <= Product(maxCollateral, bps)
  }

  /** A collateral within the bound wraps `k` times to less than the scaled debt bound. */
  predicate CondemnsAt(k: nat, maxDebt: U256, maxCollateral: U256, bps: U64) {
    0 < bps && LeastWrapping(k, bps) <= maxCollateral && Excess(k, bps) < Product(maxDebt, 10_000)
  }

  /** No number of wraps of either product does harm within the bounds. */
  predicate WrapsHarmless(maxDebt: U256, maxCollateral: U256, bps: U64) {
    && (forall k :: 1 <= k < 10_000 ==> !HidesAt(k, maxDebt, maxCollateral, bps))
    && (forall k :: 1 <= k < bps ==> !CondemnsAt(k, maxDebt, maxCollateral, bps))
  }

  lemma HidingBreaks(k: nat, maxDebt: U256, maxCollateral: U256, bps: U64)
    requires 1 <= k && HidesAt(k, maxDebt, maxCollateral, bps)
    ensures RatioBreaks(maxDebt, maxCollateral, bps)
  {
    var debt: U256 := LeastWrapping(k, 10_000);
    LeastWrappingWraps(k, 10_000);
    if Product(maxCollateral, bps) < TWO_256 {
      ProductFits(maxCollateral, bps);
      assert !RatioIsNatural(debt, maxCollateral, bps);
    } else {
      BreaksUnlessFits(maxDebt, maxCollateral, bps);
    }
  }

  lemma CondemningBreaks(k: nat, maxDebt: U256, maxCollateral: U256, bps: U64)
    requires 1 <= k && CondemnsAt(k, maxDebt, maxCollateral, bps)
    ensures RatioBreaks(maxDebt, maxCollateral, bps)
  {
    var collateral: U256 := LeastWrapping(k, bps);
    LeastWrappingWraps(k, bps);
    if Product(maxDebt, 10_000) < TWO_256 {
      ProductFits(maxDebt, 10_000);
      assert !RatioIsNatural(maxDebt, collateral, bps);
    } else {
      MulMonotone(bps, collateral, maxCollateral);
      BreaksUnlessFits(maxDebt, maxCollateral, bps);
    }
  }

  /** A position judged wrongly shows a harmful number of wraps. */
  lemma BreakingWraps(debt: U256, maxDebt: U256, collateral: U256, maxCollateral: U256, bps: U64)
    requires debt <= maxDebt && collateral <= maxCollateral && !RatioIsNatural(debt, collateral, bps)
    ensures !WrapsHarmless(maxDebt, maxCollateral, bps)
  {
    var d, c := Product(debt, 10_000) / TWO_256, Product(collateral, bps) / TWO_256;
    LeastWrappingLeast(debt, 10_000, d);
    assert Product(0, bps) == 0;
    MulMonotone(bps, collateral, maxCollateral);
    if bps == 0 {
      assert HidesAt(d, maxDebt, maxCollateral, bps);
    } else {
      LeastWrappingLeast(collateral, bps, c);
      if c < d {
        assert HidesAt(d, maxDebt, maxCollateral, bps);
      } else {
        assert CondemnsAt(c, maxDebt, maxCollateral, bps);
      }
    }
  }

  lemma RatioBreaksIff(maxDebt: U256, maxCollateral: U256, bps: U64)
    ensures RatioBreaks(maxDebt, maxCollateral, bps) <==> !WrapsHarmless(maxDebt, maxCollateral, bps)
  {
    if RatioBreaks(maxDebt, maxCollateral, bps) {
      var debt: U256, collateral: U256 :|
        debt <= maxDebt && collateral <= maxCollateral && !RatioIsNatural(debt, collateral, bps);
      BreakingWraps(debt, maxDebt, collateral, maxCollateral, bps);
    }
    if k: nat :| 1 <= k < 10_000 && HidesAt(k, maxDebt, maxCollateral, bps) {
      HidingBreaks(k, maxDebt, maxCollateral, bps);
    }
    if k: nat :| 1 <= k < bps && CondemnsAt(k, maxDebt, maxCollateral, bps) {
      CondemningBreaks(k, maxDebt, maxCollateral, bps);
    }
  }

  /** Whatever the bounds and the ratio, the check is right about every position within the bounds
      exactly when no number of wraps does harm there. */
  lemma RatioExactIff(maxDebt: U256, maxCollateral: U256, bps: U64)
    ensures (forall debt: U256, collateral: U256 ::
               debt <= maxDebt && collateral <= maxCollateral ==> RatioIsNatural(debt, collateral, bps))
       <==> WrapsHarmless(maxDebt, maxCollateral, bps)
  {
    RatioBreaksIff(maxDebt, maxCollateral, bps);
  }

  lemma FittingIsHarmless(maxDebt: U256, maxCollateral: U256, bps: U64)
    requires RatioFits(maxDebt, maxCollateral, bps)
    ensures WrapsHarmless(maxDebt, maxCollateral, bps)
  {
    forall debt: U256, collateral: U256 | debt <= maxDebt && collateral <= maxCollateral
      ensures RatioIsNatural(debt, collateral, bps)
    {
      FitsBelow(collateral, bps, maxCollateral, bps);
      RatioExact(debt, collateral, bps);
    }
    RatioExactIff(maxDebt, maxCollateral, bps);
  }

  /** Bounds that leave room for a ratio are harmless exactly when the overflow guard holds of them. */
  lemma HarmlessIffFits(maxDebt: U256, maxCollateral: U256, bps: U64)
    requires Roomy(maxDebt, maxCollateral, bps)
    ensures WrapsHarmless(maxDebt, maxCollateral, bps) <==> RatioFits(maxDebt, maxCollateral, bps)
  {
    if RatioFits(maxDebt, maxCollateral, bps) {
      FittingIsHarmless(maxDebt, maxCollateral, bps);
    } else {
      BreaksUnlessFits(maxDebt, maxCollateral, bps);
      RatioBreaksIff(maxDebt, maxCollateral, bps);
    }
  }

  /** A ratio of zero, under which only a debt of zero is healthy: any collateral lets a debt of 2^252 pass. */
  lemma HarmlessAtZeroIff(maxDebt: U256, maxCollateral: U256)
    ensures WrapsHarmless(maxDebt, maxCollateral, 0) <==> maxDebt < TWO_256 / 16 || maxCollateral == 0
  {
    if maxDebt < TWO_256 / 16 {
      forall k: nat | 1 <= k < 10_000
        ensures !HidesAt(k, maxDebt, maxCollateral, 0)
      {
        assert Product(maxCollateral, 0) == 0;
        if Excess(k, 10_000) == 0 {
          WholeWraps(LeastWrapping(k, 10_000), k);
        }
      }
    } else if maxCollateral > 0 {
      assert LeastWrapping(625, 10_000) == TWO_256 / 16;
      assert HidesAt(625, maxDebt, maxCollateral, 0);
    }
  }

  /** The inverse of 625 modulo 2^252, and the factor of 2^252 in their product. */
  const INVERSE_625: nat := 0xc01a36e2eb1c432ca57a786c226809d495182a9930be0ded288ce703afb7e91
  const FACTOR_625: nat := 469

  /** Ten thousand times an amount is a multiple of the word only if the amount is one of 2^252. */
  lemma WholeWraps(amount: nat, k: nat)
    requires 1 <= k && amount * 10_000 == k * TWO_256
    ensures TWO_256 / 16 <= amount
  {
    assert INVERSE_625 * 625 == 1 + FACTOR_625 * (TWO_256 / 16);
    assert amount * 625 == k * (TWO_256 / 16);
    assert amount == (TWO_256 / 16) * (INVERSE_625 * k - FACTOR_625 * amount);
  }

  /** The verdict of the CDP rule on a context is that of the natural numbers. */
  ghost predicate CdpIsNatural(owner: Address, maxLtvBps: U64, ctx: ContextView)
    requires owner in ctx.cdpPositions
  {
    var position := ctx.cdpPositions[owner];
    Decide(CdpLtv(owner, maxLtvBps), ctx) == Ok(position.debtValue * 10_000 <= position.collateralValue * maxLtvBps)
  }

  ghost predicate CdpWithin(owner: Address, ctx: ContextView, maxDebt: U256, maxCollateral: U256) {
    && owner in ctx.cdpPositions
    && ctx.cdpPositions[owner].debtValue <= maxDebt
    && ctx.cdpPositions[owner].collateralValue <= maxCollateral
  }

  /** The CDP rule is right about every context within the bounds exactly when no wrap does harm there. */
  lemma CdpExactIff(owner: Address, maxLtvBps: U64, maxDebt: U256, maxCollateral: U256)
    ensures (forall ctx: ContextView ::
               CdpWithin(owner, ctx, maxDebt, maxCollateral) ==> CdpIsNatural(owner, maxLtvBps, ctx))
       <==> WrapsHarmless(maxDebt, maxCollateral, maxLtvBps)
  {
    RatioExactIff(maxDebt, maxCollateral, maxLtvBps);
    if WrapsHarmless(maxDebt, maxCollateral, maxLtvBps) {
      forall ctx: ContextView | CdpWithin(owner, ctx, maxDebt, maxCollateral)
        ensures CdpIsNatural(owner, maxLtvBps, ctx)
      {
        var position := ctx.cdpPositions[owner];
        assert RatioIsNatural(position.debtValue, position.collateralValue, maxLtvBps);
      }
    } else {
      var debt: U256, collateral: U256 :|
        debt <= maxDebt && collateral <= maxCollateral && !RatioIsNatural(debt, collateral, maxLtvBps);
      var ctx := EMPTY_CONTEXT.(cdpPositions := map[owner := CdpPosition(collateral, debt, 0)]);
      assert CdpWithin(owner, ctx, maxDebt, maxCollateral) && !CdpIsNatural(owner, maxLtvBps, ctx);
    }
  }

  /** Wrapping can hide an unhealthy position: 2^252 of debt against one unit of collateral passes. */
  lemma RatioCanHide()
    ensures var debt: U256 := TWO_256 / 16;
            WithinRatio(debt, 1, 1) && debt * 10_000 > 1 * 1
  {
    var debt: U256 := TWO_256 / 16;
    assert debt * 10_000 == TWO_256 * 625;
    assert WrapMul(debt, 10_000) == 0;
  }

  /** ... and can condemn a healthy one. */
  lemma RatioCanCondemn()
    ensures var collateral: U256 := TWO_256 / 16;
            !WithinRatio(1, collateral, 16) && 1 * 10_000 <= collateral * 16
  {
    var collateral: U256 := TWO_256 / 16;
    assert collateral * 16 == TWO_256;
    assert WrapMul(collateral, 16) == 0;
  }

  /** The fee check's verdict is that of the natural numbers. */
  predicate FeeIsNatural(record: FeeRecord, toleranceBps: U64) {
    WithinTolerance(record, toleranceBps)
    <==> AbsDiff(record.collected, record.expected) * 10_000 <= record.expected * toleranceBps
  }

  /** A wrapped tolerance is never larger than the true one: the check raises false alarms only. */
  lemma FeeSound(record: FeeRecord, toleranceBps: U64)
    requires WithinTolerance(record, toleranceBps)
    ensures AbsDiff(record.collected, record.expected) * 10_000 <= record.expected * toleranceBps
  {
    WrapBelow(record.expected, toleranceBps);
  }

  /** An overflowing tolerance raises a false alarm on some amount: one that deviates by just more
      than the wrapped tolerance allows. */
  lemma FeeFalseAlarm(expected: U256, toleranceBps: U64)
    requires TWO_256 <= Product(expected, toleranceBps)
    ensures exists collected: U256 :: !FeeIsNatural(FeeRecord(collected, expected), toleranceBps)
  {
    var wrapped := WrapMul(expected, toleranceBps);
    var deviation := wrapped / 10_000 + 1;
    var collected: U256 := if deviation <= expected then expected - deviation else expected + deviation;
    assert AbsDiff(collected, expected) == deviation;
    DivMod(Product(expected, toleranceBps), TWO_256);
    MulMonotone(TWO_256, 1, Product(expected, toleranceBps) / TWO_256);
    assert wrapped + 10_000 <= Product(expected, toleranceBps);
    assert !FeeIsNatural(FeeRecord(collected, expected), toleranceBps);
  }

  /** For a given expected amount and tolerance, the fee check is right about every collected amount
      exactly when their product fits the word. */
  lemma FeeExactIff(expected: U256, toleranceBps: U64)
    ensures (forall collected: U256 :: FeeIsNatural(FeeRecord(collected, expected), toleranceBps))
       <==> expected * toleranceBps < TWO_256
  {
    if Product(expected, toleranceBps) < TWO_256 {
      ProductFits(expected, toleranceBps);
    } else {
      FeeFalseAlarm(expected, toleranceBps);
    }
  }

  /** A record one unit off an expected 2^252, with 16 basis points to spare, fails. */
  lemma FeeCanCondemn()
    ensures var record := FeeRecord(TWO_256 / 16 - 1, TWO_256 / 16);
            !WithinTolerance(record, 16) && AbsDiff(record.collected, record.expected) * 10_000 <= record.expected * 16
  {
    assert WrapMul(TWO_256 / 16, 16) == 0;
  }

  predicate NaturallyHealthy(position: LoanPosition) {
    position.borrowed * 10_000 <= position.collateral * position.liquidationThresholdBps
  }

  /** The verdict of the liquidation rule is the for-all over the protocol's positions, in the natural numbers. */
  ghost predicate LiquidationIsNatural(protocol: Address, ctx: ContextView) {
    Decide(LiquidationThreshold(protocol), ctx)
    == Ok(forall key :: key in ctx.LoanKeys(protocol) ==> NaturallyHealthy(ctx.loanPositions[key]))
  }

  /** The liquidation rule is the natural one whenever the products of the protocol's positions fit the word. */
  lemma LiquidationExact(protocol: Address, ctx: ContextView)
    requires forall key :: key in ctx.LoanKeys(protocol) ==>
               RatioFits(
                 ctx.loanPositions[key].borrowed,
                 ctx.loanPositions[key].collateral,
                 ctx.loanPositions[key].liquidationThresholdBps)
    ensures LiquidationIsNatural(protocol, ctx)
  {
    forall key | key in ctx.LoanKeys(protocol)
      ensures PositionHealthy(ctx.loanPositions[key]) <==> NaturallyHealthy(ctx.loanPositions[key])
    {
      var position := ctx.loanPositions[key];
      RatioExact(position.borrowed, position.collateral, position.liquidationThresholdBps);
    }
  }

  ghost predicate LoansWithin(protocol: Address, ctx: ContextView, maxDebt: U256, maxCollateral: U256, maxBps: U64) {
    forall key :: key in ctx.LoanKeys(protocol) ==>
      && ctx.loanPositions[key].borrowed <= maxDebt
      && ctx.loanPositions[key].collateral <= maxCollateral
      && ctx.loanPositions[key].liquidationThresholdBps <= maxBps
  }

  /** No wrap does harm within the bounds, at any threshold up to `maxBps`. */
  ghost predicate HarmlessUpTo(maxDebt: U256, maxCollateral: U256, maxBps: U64) {
    forall bps: U64 :: bps <= maxBps ==> WrapsHarmless(maxDebt, maxCollateral, bps)
  }

  lemma HarmlessLoans(protocol: Address, ctx: ContextView, maxDebt: U256, maxCollateral: U256, maxBps: U64)
    requires HarmlessUpTo(maxDebt, maxCollateral, maxBps)
    requires LoansWithin(protocol, ctx, maxDebt, maxCollateral, maxBps)
    ensures LiquidationIsNatural(protocol, ctx)
  {
    forall key | key in ctx.LoanKeys(protocol)
      ensures PositionHealthy(ctx.loanPositions[key]) <==> NaturallyHealthy(ctx.loanPositions[key])
    {
      var position := ctx.loanPositions[key];
      RatioExactIff(maxDebt, maxCollateral, position.liquidationThresholdBps);
      assert RatioIsNatural(position.borrowed, position.collateral, position.liquidationThresholdBps);
    }
  }

  /** A position judged wrongly makes a context of its own that is. */
  lemma HarmfulLoan(protocol: Address, position: LoanPosition)
    requires !RatioIsNatural(position.borrowed, position.collateral, position.liquidationThresholdBps)
    ensures !LiquidationIsNatural(protocol, LoneLoan(protocol, position))
  {
    LoneLoanKeys(protocol, position);
    assert PositionHealthy(position) != NaturallyHealthy(position);
  }

  /** Within bounds on the protocol's positions, any number of them, the liquidation rule is right
      about every context exactly when no wrap does harm at any threshold within the bound. */
  lemma LiquidationExactIff(protocol: Address, maxDebt: U256, maxCollateral: U256, maxBps: U64)
    ensures (forall ctx: ContextView ::
               LoansWithin(protocol, ctx, maxDebt, maxCollateral, maxBps) ==> LiquidationIsNatural(protocol, ctx))
       <==> HarmlessUpTo(maxDebt, maxCollateral, maxBps)
  {
    if HarmlessUpTo(maxDebt, maxCollateral, maxBps) {
      forall ctx: ContextView | LoansWithin(protocol, ctx, maxDebt, maxCollateral, maxBps)
        ensures LiquidationIsNatural(protocol, ctx)
      {
        HarmlessLoans(protocol, ctx, maxDebt, maxCollateral, maxBps);
      }
    } else {
      var bps: U64 :| bps <= maxBps && !WrapsHarmless(maxDebt, maxCollateral, bps);
      RatioBreaksIff(maxDebt, maxCollateral, bps);
      var debt: U256, collateral: U256 :|
        debt <= maxDebt && collateral <= maxCollateral && !RatioIsNatural(debt, collateral, bps);
      var position := LoanPosition(debt, collateral, bps);
      HarmfulLoan(protocol, position);
      LoneLoanKeys(protocol, position);
      assert LoansWithin(protocol, LoneLoan(protocol, position), maxDebt, maxCollateral, maxBps);
    }
  }

  /** Bounds that leave room for a ratio are harmless at every threshold exactly when the overflow
      guard holds of them. */
  lemma HarmlessUpToIffFits(maxDebt: U256, maxCollateral: U256, maxBps: U64)
    requires Roomy(maxDebt, maxCollateral, maxBps)
    ensures HarmlessUpTo(maxDebt, maxCollateral, maxBps) <==> RatioFits(maxDebt, maxCollateral, maxBps)
  {
    HarmlessIffFits(maxDebt, maxCollateral, maxBps);
    if RatioFits(maxDebt, maxCollateral, maxBps) {
      forall bps: U64 | bps <= maxBps
        ensures WrapsHarmless(maxDebt, maxCollateral, bps)
      {
        FitsBelow(maxCollateral, bps, maxCollateral, maxBps);
        FittingIsHarmless(maxDebt, maxCollateral, bps);
      }
    }
  }

  /** A context with one loan position. */
  function LoneLoan(protocol: Address, position: LoanPosition): ContextView {
    EMPTY_CONTEXT.(loanPositions := map[(protocol, protocol) := position])
  }

  lemma LoneLoanKeys(protocol: Address, position: LoanPosition)
    ensures LoneLoan(protocol, position).LoanKeys(protocol) == {(protocol, protocol)}
  {
    assert (protocol, protocol) in LoneLoan(protocol, position).LoanKeys(protocol);
  }
}
