/** From raw storage and prices to the verdict of the rules. */
module PriceToVerdict {
  import opened Division
  import opened Wrappers
  import opened Words
  import opened Rules
  import opened Bindings

  /** The factor a price asset stands for: one when the value is not priced. */
  function Factor(prices: map<Address, U256>, asset: Option<Address>): U256
    requires asset.Some? ==> asset.value in prices
  {
    if asset.Some? then prices[asset.value] else 1
  }

  /** A saturated value multiplied by `m` is the true product when that fits the word. */
  lemma SaturatedProduct(raw: nat, price: nat, m: nat)
    requires raw * price * m < TWO_256
    ensures Min(raw * price, MAX_U256) * m == raw * price * m
  {
    if m > 0 {
      MulMonotone(Product(raw, price), 1, m);
    }
  }

  lemma PricedValue(prices: map<Address, U256>, raw: U256, asset: Option<Address>)
    requires asset.Some? ==> asset.value in prices
    ensures MultiplyByPrice(prices, raw, asset) == Ok(Min(raw * Factor(prices, asset), MAX_U256))
  {
    if asset.Some? {
      assert Product(raw, prices[asset.value]) == raw * prices[asset.value];
    } else {
      assert raw * 1 == raw;
    }
  }

  /** Raw amounts, prices and the ratio rule compose to the inequality over the natural numbers,
      zero amounts, zero prices and saturated values included, whenever the two products fit the word. */
  lemma {:induction false} PricedRatio(
    prices: map<Address, U256>, rawCollateral: U256, collateralAsset: Option<Address>,
    rawDebt: U256, debtAsset: Option<Address>, bps: U64)
    requires collateralAsset.Some? ==> collateralAsset.value in prices
    requires debtAsset.Some? ==> debtAsset.value in prices
    requires rawDebt * Factor(prices, debtAsset) * 10_000 < TWO_256
    requires rawCollateral * Factor(prices, collateralAsset) * bps < TWO_256
    ensures WithinRatio(
              MultiplyByPrice(prices, rawDebt, debtAsset).value,
              MultiplyByPrice(prices, rawCollateral, collateralAsset).value,
              bps)
       <==> rawDebt * Factor(prices, debtAsset) * 10_000 <= rawCollateral * Factor(prices, collateralAsset) * bps
  {
    PricedValue(prices, rawDebt, debtAsset);
    PricedValue(prices, rawCollateral, collateralAsset);
    SaturatedProduct(rawDebt, Factor(prices, debtAsset), 10_000);
    SaturatedProduct(rawCollateral, Factor(prices, collateralAsset), bps);
    RatioExact(
      MultiplyByPrice(prices, rawDebt, debtAsset).value,
      MultiplyByPrice(prices, rawCollateral, collateralAsset).value,
      bps);
  }

  /** The price of an asset is the one bound last. */
  lemma ExtractedPrice(bindings: DbInvariantBindings, db: CacheDb, lib: Library, j: nat)
    requires Extract(bindings, db, lib).Ok?
    requires j < |bindings.prices|
    requires forall k :: j < k < |bindings.prices| ==> bindings.prices[k].0 != bindings.prices[j].0
    ensures bindings.prices[j].0 in Extract(bindings, db, lib).value.prices
    ensures Extract(bindings, db, lib).value.prices[bindings.prices[j].0] == bindings.prices[j].1
  {
    LastWins(bindings.prices, |bindings.prices|, PriceEntry(), bindings.prices[j].0, j);
  }

  /** The verdict on raw amounts at given prices is that of the natural numbers. */
  predicate PricedIsNatural(rawDebt: U256, priceDebt: U256, rawCollateral: U256, priceCollateral: U256, bps: U64) {
    WithinRatio(SatMul(rawDebt, priceDebt), SatMul(rawCollateral, priceCollateral), bps)
    <==> Product(rawDebt, priceDebt) * 10_000 <= Product(rawCollateral, priceCollateral) * bps
  }

  lemma Halve(u: int, half: nat)
    requires u % 2 == 0
    ensures half * u == (2 * half) * (u / 2)
  {
    var v := u / 2;
    assert u == v + v;
    Distribute(half, v, v);
  }

  /** From an inverse modulo `half` to one modulo twice that. */
  lemma DoubleInverse(a: nat, half: nat, y: nat, u: int) returns (x: nat, t: int)
    requires a % 2 == 1 && y < half && Product(a, y) == 1 + half * u
    ensures x < 2 * half && Product(a, x) == 1 + (2 * half) * t
  {
    if u % 2 == 0 {
      x, t := y, u / 2;
      Halve(u, half);
    } else {
      x, t := y + half, (u + a) / 2;
      Distribute(a, y, half);
      Distribute(half, u, a);
      Halve(u + a, half);
    }
  }

  /** An odd factor has an inverse modulo every power of two, found bit by bit. */
  lemma {:induction false} OddInverse(a: nat, n: nat) returns (x: nat, t: int)
    requires a % 2 == 1
    ensures x < Pow2(n) && Product(a, x) == 1 + Pow2(n) * t
  {
    if n == 0 {
      x, t := 0, -1;
      assert Product(a, 0) == 0;
    } else {
      var y, u := OddInverse(a, n - 1);
      x, t := DoubleInverse(a, Pow2(n - 1), y, u);
    }
  }

  /** Some collateral scales to a multiple of the word, or to one more. */
  lemma NearlyWhole(bps: U64) returns (collateral: U256)
    requires 2 <= bps
    ensures TWO_256 <= Product(collateral, bps) && WrapMul(collateral, bps) <= 1
  {
    if bps % 2 == 0 {
      collateral := TWO_256 / 2;
      QuotientIs(Product(collateral, bps), TWO_256, bps / 2, 0);
    } else {
      var bits: nat := 256;
      var x, t := OddInverse(bps, bits);
      Pow2OfWord(bits);
      collateral := x;
      assert Product(bps, x) == 1 + TWO_256 * t;
      assert Product(bps, 0) == 0;
      MulMonotone(bps, 1, x);
      QuotientIs(Product(collateral, bps), TWO_256, t, 1);
    }
  }

  /** Nothing is safe up to the last value of the word: 2^252 of debt passes against any collateral,
      one unit of debt fails against some collateral at a ratio of two or more, and at a ratio of one
      the bound on the debt decides. */
  lemma SaturationHarms(maxDebt: U256, maxCollateral: U256, bps: U64)
    requires maxDebt > 0 && maxCollateral > 0
    requires || maxDebt == MAX_U256
             || (maxCollateral == MAX_U256 && (bps >= 2 || (bps == 1 && maxDebt * 10_000 >= TWO_256)))
    ensures !WrapsHarmless(maxDebt, maxCollateral, bps)
  {
    if maxDebt == MAX_U256 {
      assert LeastWrapping(625, 10_000) == TWO_256 / 16;
      assert HidesAt(625, maxDebt, maxCollateral, bps);
    } else if bps == 1 {
      HarmlessIffFits(maxDebt, maxCollateral, bps);
    } else {
      var collateral := NearlyWhole(bps);
      ProductFits(1, 10_000);
      assert !RatioIsNatural(1, collateral, bps);
      RatioExactIff(maxDebt, maxCollateral, bps);
    }
  }

  /** Within harmless bounds, the verdict on the saturated amounts is that of the amounts themselves. */
  lemma SaturatedIsNatural(debt: nat, maxDebt: nat, collateral: nat, maxCollateral: nat, bps: U64)
    requires debt <= maxDebt && collateral <= maxCollateral
    requires WrapsHarmless(Min(maxDebt, MAX_U256), Min(maxCollateral, MAX_U256), bps)
    ensures WithinRatio(Min(debt, MAX_U256), Min(collateral, MAX_U256), bps) <==> debt * 10_000 <= collateral * bps
  {
    var mostDebt: U256, mostCollateral: U256 := Min(maxDebt, MAX_U256), Min(maxCollateral, MAX_U256);
    RatioExactIff(mostDebt, mostCollateral, bps);
    assert RatioIsNatural(Min(debt, MAX_U256), Min(collateral, MAX_U256), bps);
    assert Product(0, bps) == 0;
    if debt > MAX_U256 && collateral > 0 {
      SaturationHarms(mostDebt, mostCollateral, bps);
    } else if collateral > MAX_U256 && debt > 0 && (bps >= 2 || (bps == 1 && debt * 10_000 >= TWO_256)) {
      SaturationHarms(mostDebt, mostCollateral, bps);
    }
  }

  /** The verdict is right about all raw amounts and prices with products within bounds, which may lie
      beyond the word, exactly when no wrap does harm within the saturated bounds. */
  lemma PricedExactIff(maxDebt: nat, maxCollateral: nat, bps: U64)
    ensures (forall rawDebt: U256, priceDebt: U256, rawCollateral: U256, priceCollateral: U256 ::
               Product(rawDebt, priceDebt) <= maxDebt && Product(rawCollateral, priceCollateral) <= maxCollateral ==>
                 PricedIsNatural(rawDebt, priceDebt, rawCollateral, priceCollateral, bps))
       <==> WrapsHarmless(Min(maxDebt, MAX_U256), Min(maxCollateral, MAX_U256), bps)
  {
    if WrapsHarmless(Min(maxDebt, MAX_U256), Min(maxCollateral, MAX_U256), bps) {
      forall rawDebt: U256, priceDebt: U256, rawCollateral: U256, priceCollateral: U256
        | Product(rawDebt, priceDebt) <= maxDebt && Product(rawCollateral, priceCollateral) <= maxCollateral
        ensures PricedIsNatural(rawDebt, priceDebt, rawCollateral, priceCollateral, bps)
      {
        SaturatedIsNatural(
          Product(rawDebt, priceDebt), maxDebt, Product(rawCollateral, priceCollateral), maxCollateral, bps);
      }
    } else {
      RatioBreaksIff(Min(maxDebt, MAX_U256), Min(maxCollateral, MAX_U256), bps);
      var debt: U256, collateral: U256 :|
        debt <= maxDebt && collateral <= maxCollateral && !RatioIsNatural(debt, collateral, bps);
      assert Product(debt, 1) == debt && Product(collateral, 1) == collateral;
      assert !PricedIsNatural(debt, 1, collateral, 1, bps);
    }
  }

  /** A successful extraction holds, for the last position bound to an owner, what that binding reads,
      multiplied by the prices of its assets and cut off at the last value of the word. */
  lemma ExtractedCdp(bindings: DbInvariantBindings, db: CacheDb, lib: Library, j: nat)
    requires Extract(bindings, db, lib).Ok?
    requires j < |bindings.cdpPositions|
    requires forall k :: j < k < |bindings.cdpPositions| ==>
               bindings.cdpPositions[k].owner != bindings.cdpPositions[j].owner
    ensures var ctx, b := Extract(bindings, db, lib).value, bindings.cdpPositions[j];
            var collateral, debt := ReadDbField(db, b.collateralField, lib), ReadDbField(db, b.debtField, lib);
            && b.owner in ctx.cdpPositions
            && collateral.Ok? && debt.Ok?
            && (b.collateralPriceAsset.Some? ==> b.collateralPriceAsset.value in ctx.prices)
            && (b.debtPriceAsset.Some? ==> b.debtPriceAsset.value in ctx.prices)
            && ctx.cdpPositions[b.owner].collateralValue
               == Min(collateral.value * Factor(ctx.prices, b.collateralPriceAsset), MAX_U256)
            && ctx.cdpPositions[b.owner].debtValue
               == Min(debt.value * Factor(ctx.prices, b.debtPriceAsset), MAX_U256)
            && ctx.cdpPositions[b.owner].liquidationThresholdBps == b.liquidationThresholdBps
  {
    var ctx, b := Extract(bindings, db, lib).value, bindings.cdpPositions[j];
    var entry := CdpEntry(db, lib, ctx.prices);
    var n := |bindings.cdpPositions|;
    FillOkIff(bindings.cdpPositions, n, entry);
    assert entry(b).Ok?;
    LastWins(bindings.cdpPositions, n, entry, b.owner, j);
    assert ctx.cdpPositions[b.owner] == entry(b).value.1;
    PricedValue(ctx.prices, ReadDbField(db, b.collateralField, lib).value, b.collateralPriceAsset);
    PricedValue(ctx.prices, ReadDbField(db, b.debtField, lib).value, b.debtPriceAsset);
  }

  /** End to end: on an extracted context the CDP rule decides whether the debt at its price is
      within the allowed share of the collateral at its price. */
  lemma CdpVerdictExact(bindings: DbInvariantBindings, db: CacheDb, lib: Library, j: nat, maxLtvBps: U64)
    requires Extract(bindings, db, lib).Ok?
    requires j < |bindings.cdpPositions|
    requires forall k :: j < k < |bindings.cdpPositions| ==>
               bindings.cdpPositions[k].owner != bindings.cdpPositions[j].owner
    ensures var ctx, b := Extract(bindings, db, lib).value, bindings.cdpPositions[j];
            var collateral, debt := ReadDbField(db, b.collateralField, lib), ReadDbField(db, b.debtField, lib);
            && collateral.Ok? && debt.Ok?
            && (b.collateralPriceAsset.Some? ==> b.collateralPriceAsset.value in ctx.prices)
            && (b.debtPriceAsset.Some? ==> b.debtPriceAsset.value in ctx.prices)
            && (var lhs := debt.value * Factor(ctx.prices, b.debtPriceAsset) * 10_000;
                var rhs := collateral.value * Factor(ctx.prices, b.collateralPriceAsset) * maxLtvBps;
                lhs < TWO_256 && rhs < TWO_256 ==> Decide(CdpLtv(b.owner, maxLtvBps), ctx) == Ok(lhs <= rhs))
  {
    ExtractedCdp(bindings, db, lib, j);
    var ctx, b := Extract(bindings, db, lib).value, bindings.cdpPositions[j];
    var collateral, debt := ReadDbField(db, b.collateralField, lib).value, ReadDbField(db, b.debtField, lib).value;
    if debt * Factor(ctx.prices, b.debtPriceAsset) * 10_000 < TWO_256
       && collateral * Factor(ctx.prices, b.collateralPriceAsset) * maxLtvBps < TWO_256
    {
      PricedRatio(ctx.prices, collateral, b.collateralPriceAsset, debt, b.debtPriceAsset, maxLtvBps);
      PricedValue(ctx.prices, collateral, b.collateralPriceAsset);
      PricedValue(ctx.prices, debt, b.debtPriceAsset);
    }
  }
}
