/** What the fields of the bindings read, when the extraction succeeds, and its error otherwise. */
module FieldReads {
  import opened Wrappers
  import opened Words
  import opened Bits
  import opened Context
  import opened Bindings
  import opened Simulation

  /* ----- What a field reads ----- */

  /** The field lies in this slot of this contract; an answer to `getReserves` lies in none. */
  predicate LiesIn(field: DbField, lib: Library, contract: Address, slot: U256) {
    match field
    case RawSlot(c, s) => c == contract && s == slot
    case RawBits(c, s, _, _) => c == contract && s == slot
    case Mapping(c, key, base, layout) => c == contract && lib.slotKey(key, base, layout) == slot
    case GetReservesWord(_, _) => false
  }

  /** Reading follows writing: after a slot is set, the fields that lie in it read the value written,
      or the bits of it that they name, and the fields that lie in other slots read what they did. */
  lemma FieldReadsBack(
    db: CacheDb, lib: Library, field: DbField, contract: Address, slot: U256, value: U256)
    requires !field.GetReservesWord?
    ensures var read := ReadDbField(InsertAccountStorage(db, contract, slot, value), field, lib);
            if !LiesIn(field, lib, contract, slot) then read == ReadDbField(db, field, lib)
            else if field.RawBits? then read == Ok(value / Pow2(field.offsetBits) % Pow2(field.widthBits))
            else read == Ok(value)
  {
    if field.RawBits? {
      ExtractBitsIsField(value, field.offsetBits, field.widthBits);
    }
  }

  /** A slot that is not cached reads as zero, and so do all its bits. */
  lemma UncachedReadsZero(db: CacheDb, lib: Library, field: DbField, contract: Address, slot: U256)
    requires LiesIn(field, lib, contract, slot) && StorageOf(db, contract, slot) == None
    ensures ReadDbField(db, field, lib) == Ok(0)
  {
    if field.RawBits? {
      ExtractBitsIsField(0, field.offsetBits, field.widthBits);
      assert 0 / Pow2(field.offsetBits) == 0 && 0 % Pow2(field.widthBits) == 0;
    }
  }

  /* ----- When the extraction succeeds, and its error otherwise ----- */

  /** A price is bound for the asset, if one is asked for. */
  predicate PriceBound(prices: seq<(Address, U256)>, asset: Option<Address>) {
    asset.Some? ==> exists i :: 0 <= i < |prices| && prices[i].0 == asset.value
  }

  function ErrorOf<T>(r: Result<T, AuditError>): Option<AuditError> {
    if r.Ok? then None else Some(r.error)
  }

  function PriceError(prices: seq<(Address, U256)>, asset: Option<Address>): Option<AuditError> {
    if PriceBound(prices, asset) then None else Some(MissingPrice(asset.value))
  }

  function FirstSome<T>(s: seq<Option<T>>): Option<T> {
    if |s| == 0 then None else if s[0].Some? then s[0] else FirstSome(s[1..])
  }

  lemma {:induction false} FirstSomeAppend<T>(a: seq<Option<T>>, b: seq<Option<T>>)
    ensures FirstSome(a + b) == if FirstSome(a).Some? then FirstSome(a) else FirstSome(b)
  {
    if |a| == 0 {
      assert a + b == b;
    } else {
      assert (a + b)[1..] == a[1..] + b;
      FirstSomeAppend(a[1..], b);
    }
  }

  /** The steps of a loop over the first `n` bindings, of which each takes the given ones. */
  function Flat<B>(bindings: seq<B>, n: nat, steps: B -> seq<Option<AuditError>>): seq<Option<AuditError>>
    requires n <= |bindings|
  {
    if n == 0 then [] else Flat(bindings, n - 1, steps) + steps(bindings[n - 1])
  }

  lemma {:induction false} FillError<B, K, V>(
    bindings: seq<B>, n: nat, entry: B -> Entry<K, V>, steps: B -> seq<Option<AuditError>>)
    requires n <= |bindings|
    requires forall k :: 0 <= k < |bindings| ==> ErrorOf(entry(bindings[k])) == FirstSome(steps(bindings[k]))
    ensures ErrorOf(Fill(bindings, n, entry)) == FirstSome(Flat(bindings, n, steps))
  {
    if n > 0 {
      FillError(bindings, n - 1, entry, steps);
      FirstSomeAppend(Flat(bindings, n - 1, steps), steps(bindings[n - 1]));
    }
  }

  /** The steps that can fail, loop by loop in the order of the program; `None` is a step that does not. */
  function BalanceSteps(db: CacheDb, lib: Library): TokenBalanceBinding -> seq<Option<AuditError>> {
    (b: TokenBalanceBinding) => [ErrorOf(ReadDbField(db, b.field, lib))]
  }

  function ReserveSteps(db: CacheDb, lib: Library): TokenReserveBinding -> seq<Option<AuditError>> {
    (b: TokenReserveBinding) => [ErrorOf(ReadDbField(db, b.field, lib))]
  }

  function PoolSteps(db: CacheDb, lib: Library): PoolReserveBinding -> seq<Option<AuditError>> {
    (b: PoolReserveBinding) =>
      [ErrorOf(ReadDbField(db, b.reserve0, lib)), ErrorOf(ReadDbField(db, b.reserve1, lib))]
  }

  function SupplySteps(db: CacheDb, lib: Library): TotalSupplyBinding -> seq<Option<AuditError>> {
    (b: TotalSupplyBinding) => [ErrorOf(ReadDbField(db, b.field, lib))]
  }

  function CdpSteps(db: CacheDb, lib: Library, prices: seq<(Address, U256)>): CdpBinding -> seq<Option<AuditError>> {
    (b: CdpBinding) =>
      [ErrorOf(ReadDbField(db, b.collateralField, lib)), ErrorOf(ReadDbField(db, b.debtField, lib)),
       PriceError(prices, b.collateralPriceAsset), PriceError(prices, b.debtPriceAsset)]
  }

  function LoanSteps(db: CacheDb, lib: Library): LoanPositionBinding -> seq<Option<AuditError>> {
    (b: LoanPositionBinding) =>
      [ErrorOf(ReadDbField(db, b.borrowedField, lib)), ErrorOf(ReadDbField(db, b.collateralField, lib))]
  }

  function LoanTotalSteps(db: CacheDb, lib: Library): LoanTotalBinding -> seq<Option<AuditError>> {
    (b: LoanTotalBinding) => [ErrorOf(ReadDbField(db, b.field, lib))]
  }

  function FeeSteps(db: CacheDb, lib: Library): FeeBinding -> seq<Option<AuditError>> {
    (b: FeeBinding) =>
      [ErrorOf(ReadDbField(db, b.collectedField, lib)), ErrorOf(ReadDbField(db, b.expectedField, lib))]
  }

  /** The steps of each loop that reads storage. */
  function Loops(b: DbInvariantBindings, db: CacheDb, lib: Library): seq<seq<Option<AuditError>>> {
    [Flat(b.tokenBalances, |b.tokenBalances|, BalanceSteps(db, lib)),
     Flat(b.tokenReserves, |b.tokenReserves|, ReserveSteps(db, lib)),
     Flat(b.poolReserves, |b.poolReserves|, PoolSteps(db, lib)),
     Flat(b.totalSupplies, |b.totalSupplies|, SupplySteps(db, lib)),
     Flat(b.cdpPositions, |b.cdpPositions|, CdpSteps(db, lib, b.prices)),
     Flat(b.loanPositions, |b.loanPositions|, LoanSteps(db, lib)),
     Flat(b.loanTotals, |b.loanTotals|, LoanTotalSteps(db, lib)),
     Flat(b.feeRecords, |b.feeRecords|, FeeSteps(db, lib))]
  }

  function Concat<T>(parts: seq<seq<T>>): seq<T> {
    if |parts| == 0 then [] else parts[0] + Concat(parts[1..])
  }

  /** All steps of the extraction that can fail, in the order of the program. */
  function Steps(b: DbInvariantBindings, db: CacheDb, lib: Library): seq<Option<AuditError>> {
    Concat(Loops(b, db, lib))
  }

  /** The first error of all parts is the first of their first errors. */
  lemma {:induction false} FirstOfParts<T>(parts: seq<seq<Option<T>>>, firsts: seq<Option<T>>)
    requires |firsts| == |parts| && forall i :: 0 <= i < |parts| ==> firsts[i] == FirstSome(parts[i])
    ensures FirstSome(Concat(parts)) == FirstSome(firsts)
  {
    if |parts| > 0 {
      FirstSomeAppend(parts[0], Concat(parts[1..]));
      FirstOfParts(parts[1..], firsts[1..]);
    }
  }

  lemma FirstFrom<T>(s: seq<Option<T>>, i: nat)
    requires i <= |s|
    ensures i < |s| ==> FirstSome(s[i..]) == if s[i].Some? then s[i] else FirstSome(s[i + 1..])
    ensures i == |s| ==> FirstSome(s[i..]) == None
  {
    if i < |s| {
      assert s[i..][1..] == s[i + 1..];
    }
  }

  lemma FirstOfFour<T>(s: seq<Option<T>>)
    requires |s| <= 4
    ensures FirstSome(s)
         == if |s| > 0 && s[0].Some? then s[0] else if |s| > 1 && s[1].Some? then s[1]
            else if |s| > 2 && s[2].Some? then s[2] else if |s| > 3 then s[3] else None
  {
    assert s[0..] == s;
    forall i | 0 <= i <= |s|
      ensures FirstSome(s[i..])
           == if i == |s| then None else if s[i].Some? then s[i] else FirstSome(s[i + 1..])
    {
      FirstFrom(s, i);
    }
    assert |s| > 0 ==> FirstSome(s[0..]) == if s[0].Some? then s[0] else FirstSome(s[1..]);
    assert |s| > 1 ==> FirstSome(s[1..]) == if s[1].Some? then s[1] else FirstSome(s[2..]);
    assert |s| > 2 ==> FirstSome(s[2..]) == if s[2].Some? then s[2] else FirstSome(s[3..]);
    assert |s| > 3 ==> FirstSome(s[3..]) == if s[3].Some? then s[3] else FirstSome(s[4..]);
  }

  lemma FirstOfEight<T>(s: seq<Option<T>>)
    requires |s| == 8
    ensures FirstSome(s)
         == if s[0].Some? then s[0] else if s[1].Some? then s[1] else if s[2].Some? then s[2]
            else if s[3].Some? then s[3] else if s[4].Some? then s[4] else if s[5].Some? then s[5]
            else if s[6].Some? then s[6] else s[7]
  {
    assert s == s[..4] + s[4..];
    FirstSomeAppend(s[..4], s[4..]);
    FirstOfFour(s[..4]);
    FirstOfFour(s[4..]);
  }

  lemma PricesAreBound(bindings: DbInvariantBindings, asset: Option<Address>)
    ensures FillAll(bindings.prices, PriceEntry()).Ok?
    ensures PriceBound(bindings.prices, asset)
       <==> (asset.Some? ==> asset.value in FillAll(bindings.prices, PriceEntry()).value)
  {
    var prices, entry := bindings.prices, PriceEntry();
    FillOkIff(prices, |prices|, entry);
    forall k | 0 <= k < |prices|
      ensures entry(prices[k]) == Ok(prices[k])
    {
    }
  }

  lemma CdpStepsError(bindings: DbInvariantBindings, db: CacheDb, lib: Library, b: CdpBinding)
    requires FillAll(bindings.prices, PriceEntry()).Ok?
    ensures ErrorOf(CdpEntry(db, lib, FillAll(bindings.prices, PriceEntry()).value)(b))
         == FirstSome(CdpSteps(db, lib, bindings.prices)(b))
  {
    PricesAreBound(bindings, b.collateralPriceAsset);
    PricesAreBound(bindings, b.debtPriceAsset);
    FirstOfFour(CdpSteps(db, lib, bindings.prices)(b));
  }

  /** The errors of the loops that read storage, in their order. */
  ghost function LoopErrors(b: DbInvariantBindings, db: CacheDb, lib: Library): seq<Option<AuditError>> {
    var prices := FillAll(b.prices, PriceEntry());
    [ErrorOf(FillAll(b.tokenBalances, TokenBalanceEntry(db, lib))),
     ErrorOf(FillAll(b.tokenReserves, TokenReserveEntry(db, lib))),
     ErrorOf(FillAll(b.poolReserves, PoolReserveEntry(db, lib))),
     ErrorOf(FillAll(b.totalSupplies, TotalSupplyEntry(db, lib))),
     if prices.Ok? then ErrorOf(FillAll(b.cdpPositions, CdpEntry(db, lib, prices.value))) else None,
     ErrorOf(FillAll(b.loanPositions, LoanPositionEntry(db, lib))),
     ErrorOf(FillAll(b.loanTotals, LoanTotalEntry(db, lib))),
     ErrorOf(FillAll(b.feeRecords, FeeEntry(db, lib)))]
  }

  lemma {:induction false} ShortFillError<B, K, V>(
    bindings: seq<B>, entry: B -> Entry<K, V>, steps: B -> seq<Option<AuditError>>)
    requires forall k :: 0 <= k < |bindings| ==>
               var s := steps(bindings[k]);
               1 <= |s| <= 2
               && ErrorOf(entry(bindings[k])) == if s[0].Some? then s[0] else if |s| == 2 then s[1] else None
    ensures ErrorOf(FillAll(bindings, entry)) == FirstSome(Flat(bindings, |bindings|, steps))
  {
    forall k | 0 <= k < |bindings|
      ensures ErrorOf(entry(bindings[k])) == FirstSome(steps(bindings[k]))
    {
      FirstOfFour(steps(bindings[k]));
    }
    FillError(bindings, |bindings|, entry, steps);
  }

  lemma CdpLoopError(b: DbInvariantBindings, db: CacheDb, lib: Library)
    requires FillAll(b.prices, PriceEntry()).Ok?
    ensures ErrorOf(FillAll(b.cdpPositions, CdpEntry(db, lib, FillAll(b.prices, PriceEntry()).value)))
         == FirstSome(Flat(b.cdpPositions, |b.cdpPositions|, CdpSteps(db, lib, b.prices)))
  {
    var prices := FillAll(b.prices, PriceEntry()).value;
    forall k | 0 <= k < |b.cdpPositions|
      ensures ErrorOf(CdpEntry(db, lib, prices)(b.cdpPositions[k]))
           == FirstSome(CdpSteps(db, lib, b.prices)(b.cdpPositions[k]))
    {
      CdpStepsError(b, db, lib, b.cdpPositions[k]);
    }
    FillError(b.cdpPositions, |b.cdpPositions|, CdpEntry(db, lib, prices), CdpSteps(db, lib, b.prices));
  }

  lemma EarlyLoops(b: DbInvariantBindings, db: CacheDb, lib: Library)
    ensures forall i :: 0 <= i < 4 ==> LoopErrors(b, db, lib)[i] == FirstSome(Loops(b, db, lib)[i])
  {
    ShortFillError(b.tokenBalances, TokenBalanceEntry(db, lib), BalanceSteps(db, lib));
    ShortFillError(b.tokenReserves, TokenReserveEntry(db, lib), ReserveSteps(db, lib));
    ShortFillError(b.poolReserves, PoolReserveEntry(db, lib), PoolSteps(db, lib));
    ShortFillError(b.totalSupplies, TotalSupplyEntry(db, lib), SupplySteps(db, lib));
  }

  lemma LateLoops(b: DbInvariantBindings, db: CacheDb, lib: Library)
    ensures forall i :: 4 <= i < 8 ==> LoopErrors(b, db, lib)[i] == FirstSome(Loops(b, db, lib)[i])
  {
    PricesAreBound(b, None);
    CdpLoopError(b, db, lib);
    ShortFillError(b.loanPositions, LoanPositionEntry(db, lib), LoanSteps(db, lib));
    ShortFillError(b.loanTotals, LoanTotalEntry(db, lib), LoanTotalSteps(db, lib));
    ShortFillError(b.feeRecords, FeeEntry(db, lib), FeeSteps(db, lib));
  }

  lemma LoopsFail(b: DbInvariantBindings, db: CacheDb, lib: Library)
    ensures FirstSome(Steps(b, db, lib)) == FirstSome(LoopErrors(b, db, lib))
  {
    EarlyLoops(b, db, lib);
    LateLoops(b, db, lib);
    FirstOfParts(Loops(b, db, lib), LoopErrors(b, db, lib));
  }

  /** The extraction fails with the error of the first failing step of the nine loops in their order,
      and succeeds exactly when no step fails. */
  lemma ExtractError(b: DbInvariantBindings, db: CacheDb, lib: Library)
    ensures ErrorOf(Extract(b, db, lib)) == FirstSome(Steps(b, db, lib))
  {
    PricesAreBound(b, None);
    LoopsFail(b, db, lib);
    FirstOfEight(LoopErrors(b, db, lib));
  }

  lemma FillAllOkIff<B, K, V>(bindings: seq<B>, entry: B -> Entry<K, V>)
    ensures FillAll(bindings, entry).Ok? <==> forall k :: 0 <= k < |bindings| ==> entry(bindings[k]).Ok?
  {
    FillOkIff(bindings, |bindings|, entry);
  }

  ghost predicate Reads(db: CacheDb, lib: Library, field: DbField) {
    ReadDbField(db, field, lib).Ok?
  }

  lemma CdpsReadIff(b: DbInvariantBindings, db: CacheDb, lib: Library)
    ensures FillAll(b.prices, PriceEntry()).Ok?
    ensures FillAll(b.cdpPositions, CdpEntry(db, lib, FillAll(b.prices, PriceEntry()).value)).Ok?
       <==> forall k :: 0 <= k < |b.cdpPositions| ==>
              && Reads(db, lib, b.cdpPositions[k].collateralField) && Reads(db, lib, b.cdpPositions[k].debtField)
              && PriceBound(b.prices, b.cdpPositions[k].collateralPriceAsset)
              && PriceBound(b.prices, b.cdpPositions[k].debtPriceAsset)
  {
    PricesAreBound(b, None);
    var entry := CdpEntry(db, lib, FillAll(b.prices, PriceEntry()).value);
    forall k | 0 <= k < |b.cdpPositions|
      ensures entry(b.cdpPositions[k]).Ok?
         <==> && Reads(db, lib, b.cdpPositions[k].collateralField) && Reads(db, lib, b.cdpPositions[k].debtField)
              && PriceBound(b.prices, b.cdpPositions[k].collateralPriceAsset)
              && PriceBound(b.prices, b.cdpPositions[k].debtPriceAsset)
    {
      PricesAreBound(b, b.cdpPositions[k].collateralPriceAsset);
      PricesAreBound(b, b.cdpPositions[k].debtPriceAsset);
    }
    FillAllOkIff(b.cdpPositions, entry);
  }

  /** The extraction succeeds exactly when every field of every binding reads and every price that a
      position asks for is bound. */
  lemma ExtractOkIff(b: DbInvariantBindings, db: CacheDb, lib: Library)
    ensures Extract(b, db, lib).Ok?
       <==> && (forall k :: 0 <= k < |b.tokenBalances| ==> Reads(db, lib, b.tokenBalances[k].field))
            && (forall k :: 0 <= k < |b.tokenReserves| ==> Reads(db, lib, b.tokenReserves[k].field))
            && (forall k :: 0 <= k < |b.poolReserves| ==>
                  Reads(db, lib, b.poolReserves[k].reserve0) && Reads(db, lib, b.poolReserves[k].reserve1))
            && (forall k :: 0 <= k < |b.totalSupplies| ==> Reads(db, lib, b.totalSupplies[k].field))
            && (forall k :: 0 <= k < |b.cdpPositions| ==>
                  && Reads(db, lib, b.cdpPositions[k].collateralField) && Reads(db, lib, b.cdpPositions[k].debtField)
                  && PriceBound(b.prices, b.cdpPositions[k].collateralPriceAsset)
                  && PriceBound(b.prices, b.cdpPositions[k].debtPriceAsset))
            && (forall k :: 0 <= k < |b.loanPositions| ==>
                  && Reads(db, lib, b.loanPositions[k].borrowedField)
                  && Reads(db, lib, b.loanPositions[k].collateralField))
            && (forall k :: 0 <= k < |b.loanTotals| ==> Reads(db, lib, b.loanTotals[k].field))
            && (forall k :: 0 <= k < |b.feeRecords| ==>
                  Reads(db, lib, b.feeRecords[k].collectedField) && Reads(db, lib, b.feeRecords[k].expectedField))
  {
    CdpsReadIff(b, db, lib);
    FillAllOkIff(b.tokenBalances, TokenBalanceEntry(db, lib));
    FillAllOkIff(b.tokenReserves, TokenReserveEntry(db, lib));
    FillAllOkIff(b.poolReserves, PoolReserveEntry(db, lib));
    FillAllOkIff(b.totalSupplies, TotalSupplyEntry(db, lib));
    FillAllOkIff(b.loanPositions, LoanPositionEntry(db, lib));
    FillAllOkIff(b.loanTotals, LoanTotalEntry(db, lib));
    FillAllOkIff(b.feeRecords, FeeEntry(db, lib));
  }
}
