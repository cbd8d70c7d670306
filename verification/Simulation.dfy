/** The simulator: a database that transactions and direct writes change, and a store of snapshots. */
module Simulation {
  import opened Division
  import opened Wrappers
  import opened Words
  import opened Transactions
  import opened Context
  import opened Bindings
  import opened Execution

  type SnapshotId = U64

  datatype SimError = SnapshotNotFound(id: SnapshotId)

  const EMPTY_DB := CacheDb(map[])

  const EMPTY_INFO := AccountInfo(0, 0, 0, None)

  /** `insert_account_info`: the storage of an account that is already cached is kept. */
  function InsertAccountInfo(db: CacheDb, address: Address, info: AccountInfo): CacheDb {
    var storage := if address in db.accounts then db.accounts[address].storage else map[];
    CacheDb(db.accounts[address := DbAccount(info, storage)])
  }

  /** `insert_account_storage` */
  function InsertAccountStorage(db: CacheDb, address: Address, key: U256, value: U256): CacheDb {
    var account := if address in db.accounts then db.accounts[address] else DbAccount(EMPTY_INFO, map[]);
    CacheDb(db.accounts[address := account.(storage := account.storage[key := value])])
  }

  /** A cached storage slot, if it is cached. */
  function StorageOf(db: CacheDb, address: Address, key: U256): Option<U256> {
    if address in db.accounts then Lookup(db.accounts[address].storage, key) else None
  }

  /** The nonce override at the start of `execute_tx`. */
  function OverrideNonce(db: CacheDb, tx: SimTxInput): CacheDb {
    match tx.nonce
    case None => db
    case Some(nonce) =>
      if tx.caller in db.accounts then
        var account := db.accounts[tx.caller];
        CacheDb(db.accounts[tx.caller := account.(info := account.info.(nonce := nonce))])
      else InsertAccountInfo(db, tx.caller, EMPTY_INFO.(nonce := nonce))
  }

  /** The overriding nonce is the one the account already has. */
  predicate NonceSettled(db: CacheDb, tx: SimTxInput) {
    tx.nonce.None? || (tx.caller in db.accounts && db.accounts[tx.caller].info.nonce == tx.nonce.value)
  }

  /** `execute_tx`: a rejected transaction still leaves the override behind. */
  function Execute(s: Settings, db: CacheDb, tx: SimTxInput): (CacheDb, SimResult) {
    var overridden := OverrideNonce(db, tx);
    var outcome := Transact(s, overridden, tx);
    (DbAfter(overridden, outcome), ResultOf(s, outcome))
  }

  /** What `simulate_tx` returns: the result of the transaction alone, or an error when it is rejected. */
  function Preview(s: Settings, db: CacheDb, tx: SimTxInput): Result<SimResult, string> {
    var outcome := Transact(s, db, tx);
    if outcome.Committed? then Ok(ResultOf(s, outcome)) else Err("REVM transact failed: " + outcome.error)
  }

  /** The mutable state, as a value. */
  datatype SimState = SimState(
    db: CacheDb,
    blockEnv: BlockEnv,
    loadedAddresses: set<Address>,
    snapshots: map<SnapshotId, CacheDb>,
    nextSnapshotId: SnapshotId)

  /** An operation. Loading may replace the database and the loaded addresses by any others. */
  datatype Op =
    | Snapshot
    | Restore(id: SnapshotId)
    | Release(id: SnapshotId)
    | SetStorage(address: Address, key: U256, value: U256)
    | Prefund(address: Address, balance: U256)
    | ClearCache
    | SetBlockEnv(blockEnv: BlockEnv)
    | SetBasefee(basefee: U256)
    | ExecuteTx(tx: SimTxInput)
    | Load(db: CacheDb, loadedAddresses: set<Address>)

  /** An account as fetched from a node. */
  datatype FetchedAccount = FetchedAccount(address: Address, balance: U256, nonce: U64, code: Bytes)

  function LoadAccounts(db: CacheDb, accounts: seq<FetchedAccount>): CacheDb {
    if |accounts| == 0 then db
    else
      var last := accounts[|accounts| - 1];
      InsertAccountInfo(
        LoadAccounts(db, accounts[..|accounts| - 1]),
        last.address,
        AccountInfo(last.balance, last.nonce, 0, Some(last.code)))
  }

  function AddressesOf(accounts: seq<FetchedAccount>): set<Address> {
    if |accounts| == 0 then {}
    else AddressesOf(accounts[..|accounts| - 1]) + {accounts[|accounts| - 1].address}
  }

  function LoadSlots(db: CacheDb, address: Address, slots: seq<(U256, U256)>): CacheDb {
    if |slots| == 0 then db
    else
      var last := slots[|slots| - 1];
      InsertAccountStorage(LoadSlots(db, address, slots[..|slots| - 1]), address, last.0, last.1)
  }

  /** What never changes: the virtual machine, the library and the chain. */
  datatype Fixed = Fixed(machine: Machine, lib: Library, chainId: U64)

  function SettingsOf(f: Fixed, blockEnv: BlockEnv): Settings {
    Settings(f.machine, f.lib, blockEnv, f.chainId)
  }

  /** The state after an operation. An identifier counter at the end of its word wraps around. */
  function Apply(f: Fixed, v: SimState, op: Op): SimState {
    match op
    case Snapshot =>
      v.(snapshots := v.snapshots[v.nextSnapshotId := v.db], nextSnapshotId := (v.nextSnapshotId + 1) % TWO_64)
    case Restore(id) => if id in v.snapshots then v.(db := v.snapshots[id]) else v
    case Release(id) => v.(snapshots := v.snapshots - {id})
    case SetStorage(address, key, value) => v.(db := InsertAccountStorage(v.db, address, key, value))
    case Prefund(address, balance) =>
      v.(db := InsertAccountInfo(v.db, address, EMPTY_INFO.(balance := balance)),
         loadedAddresses := v.loadedAddresses + {address})
    case ClearCache => v.(db := EMPTY_DB, loadedAddresses := {})
    case SetBlockEnv(blockEnv) => v.(blockEnv := blockEnv)
    case SetBasefee(basefee) => v.(blockEnv := v.blockEnv.(basefee := basefee))
    case ExecuteTx(tx) => v.(db := Execute(SettingsOf(f, v.blockEnv), v.db, tx).0)
    case Load(db, loadedAddresses) => v.(db := db, loadedAddresses := loadedAddresses)
  }

  class Simulator {
    const fixed: Fixed
    var db: CacheDb
    var blockEnv: BlockEnv
    var loadedAddresses: set<Address>
    var snapshots: map<SnapshotId, CacheDb>
    var nextSnapshotId: SnapshotId

    function View(): SimState
      reads this
    {
      SimState(db, blockEnv, loadedAddresses, snapshots, nextSnapshotId)
    }

    function CurrentSettings(): Settings
      reads this
    {
      SettingsOf(fixed, blockEnv)
    }

    constructor (fixed: Fixed, defaultBlockEnv: BlockEnv)
      ensures this.fixed == fixed
      ensures View() == SimState(EMPTY_DB, defaultBlockEnv, {}, map[], 0)
    {
      this.fixed := fixed;
      db, blockEnv, loadedAddresses, snapshots, nextSnapshotId := EMPTY_DB, defaultBlockEnv, {}, map[], 0;
    }

    /** A clone has the state of the original but none of its snapshots, and numbers its own from zero. */
    constructor CloneOf(other: Simulator)
      ensures fixed == other.fixed
      ensures View() == other.View().(snapshots := map[], nextSnapshotId := 0)
    {
      fixed := other.fixed;
      db, blockEnv, loadedAddresses := other.db, other.blockEnv, other.loadedAddresses;
      snapshots, nextSnapshotId := map[], 0;
    }

    method ClearCache()
      modifies this
      ensures View() == Apply(fixed, old(View()), Op.ClearCache)
    {
      db := EMPTY_DB;
      loadedAddresses := {};
    }

    method SetStorage(address: Address, key: U256, value: U256)
      modifies this
      ensures View() == Apply(fixed, old(View()), Op.SetStorage(address, key, value))
    {
      db := InsertAccountStorage(db, address, key, value);
    }

    method SetBlockEnv(header: BlockEnv)
      modifies this
      ensures View() == Apply(fixed, old(View()), Op.SetBlockEnv(header))
    {
      blockEnv := header;
    }

    method SetBasefee(basefee: U256)
      modifies this
      ensures View() == Apply(fixed, old(View()), Op.SetBasefee(basefee))
    {
      blockEnv := blockEnv.(basefee := basefee);
    }

    method Prefund(address: Address, balance: U256)
      modifies this
      ensures View() == Apply(fixed, old(View()), Op.Prefund(address, balance))
    {
      var info := AccountInfo(balance, 0, 0, None);
      db := InsertAccountInfo(db, address, info);
      loadedAddresses := loadedAddresses + {address};
    }

    /** `insert_accounts`, once the accounts are fetched. */
    method InsertAccounts(accounts: seq<FetchedAccount>)
      modifies this
      ensures View() == Apply(fixed, old(View()), Load(
                LoadAccounts(old(db), accounts), old(loadedAddresses) + AddressesOf(accounts)))
    {
      for i := 0 to |accounts|
        invariant db == LoadAccounts(old(db), accounts[..i])
        invariant loadedAddresses == old(loadedAddresses) + AddressesOf(accounts[..i])
        invariant View() == old(View()).(db := db, loadedAddresses := loadedAddresses)
      {
        var account := accounts[i];
        assert accounts[..i + 1][..i] == accounts[..i];
        db := InsertAccountInfo(
          db, account.address, AccountInfo(account.balance, account.nonce, 0, Some(account.code)));
        loadedAddresses := loadedAddresses + {account.address};
      }
      assert accounts[..|accounts|] == accounts;
    }

    /** The writes of `load_storage_slots`, for the slots fetched before the first failure. */
    method LoadStorageSlots(address: Address, slots: seq<(U256, U256)>)
      modifies this
      ensures View() == Apply(fixed, old(View()), Load(LoadSlots(old(db), address, slots), old(loadedAddresses)))
    {
      for i := 0 to |slots|
        invariant View() == old(View()).(db := LoadSlots(old(db), address, slots[..i]))
      {
        assert slots[..i + 1][..i] == slots[..i];
        db := InsertAccountStorage(db, address, slots[i].0, slots[i].1);
      }
      assert slots[..|slots|] == slots;
    }

    method Snapshot() returns (id: SnapshotId)
      modifies this
      ensures id == old(nextSnapshotId)
      ensures View() == Apply(fixed, old(View()), Op.Snapshot)
    {
      id := nextSnapshotId;
      nextSnapshotId := (nextSnapshotId + 1) % TWO_64;
      snapshots := snapshots[id := db];
    }

    method Restore(id: SnapshotId) returns (r: Result<(), SimError>)
      modifies this
      ensures r == if id in old(snapshots) then Ok(()) else Err(SnapshotNotFound(id))
      ensures View() == Apply(fixed, old(View()), Op.Restore(id))
    {
      if id !in snapshots {
        return Err(SnapshotNotFound(id));
      }
      db := snapshots[id];
      return Ok(());
    }

    method ReleaseSnapshot(id: SnapshotId)
      modifies this
      ensures View() == Apply(fixed, old(View()), Op.Release(id))
    {
      snapshots := snapshots - {id};
    }

    /** `simulate_tx`: nothing changes, and there is no nonce override. */
    method SimulateTx(tx: SimTxInput) returns (r: Result<SimResult, string>)
      ensures r == Preview(CurrentSettings(), db, tx)
    {
      var s := CurrentSettings();
      match Transact(s, db, tx) {
        case Committed(_, result, _) => r := Ok(ConvertResult(s.machine, result));
        case Rejected(error, _) => r := Err("REVM transact failed: " + error);
      }
    }

    method ExecuteTx(tx: SimTxInput) returns (r: SimResult)
      modifies this
      ensures r == Execute(old(CurrentSettings()), old(db), tx).1
      ensures View() == Apply(fixed, old(View()), Op.ExecuteTx(tx))
    {
      if tx.nonce.Some? {
        if tx.caller in db.accounts {
          var account := db.accounts[tx.caller];
          db := CacheDb(db.accounts[tx.caller := account.(info := account.info.(nonce := tx.nonce.value))]);
        } else {
          db := InsertAccountInfo(db, tx.caller, AccountInfo(0, tx.nonce.value, 0, None));
        }
      }
      var s := CurrentSettings();
      match Transact(s, db, tx) {
        case Rejected(error, _) =>
          r := TxErrorResult(error);
        case Committed(dbClone, result, _) =>
          db := dbClone;
          r := ConvertResult(s.machine, result);
      }
    }

    /** `simulate_sequence`: commits to a clone of the database. */
    method SimulateSequence(txs: seq<SimTxInput>) returns (results: seq<SimResult>)
      ensures results == RunAll(CurrentSettings(), db, txs).results
    {
      var s := CurrentSettings();
      var dbClone := db;
      results := [];
      for i := 0 to |txs|
        invariant dbClone == RunAll(s, db, txs[..i]).db
        invariant results == RunAll(s, db, txs[..i]).results
      {
        assert txs[..i + 1][..i] == txs[..i];
        match Transact(s, dbClone, txs[i]) {
          case Rejected(error, _) =>
            results := results + [TxErrorResult(error)];
          case Committed(next, result, _) =>
            dbClone := next;
            results := results + [ConvertResult(s.machine, result)];
        }
      }
      assert txs[..|txs|] == txs;
    }
  }

  /* ----- Committed and simulated execution ----- */

  /** `execute_tx` on each of `txs` in turn. */
  function ExecuteAll(s: Settings, db: CacheDb, txs: seq<SimTxInput>): (CacheDb, seq<SimResult>) {
    if |txs| == 0 then (db, [])
    else
      var before := ExecuteAll(s, db, txs[..|txs| - 1]);
      var last := Execute(s, before.0, txs[|txs| - 1]);
      (last.0, before.1 + [last.1])
  }

  /** Every transaction carries no nonce, or the one its caller has when its turn comes. */
  predicate NoncesSettled(s: Settings, db: CacheDb, txs: seq<SimTxInput>) {
    forall i :: 0 <= i < |txs| ==> NonceSettled(RunAll(s, db, txs[..i]).db, txs[i])
  }

  lemma OverrideIsNoopIff(db: CacheDb, tx: SimTxInput)
    ensures OverrideNonce(db, tx) == db <==> NonceSettled(db, tx)
  {
    if tx.nonce.Some? && tx.caller in db.accounts {
      var account := db.accounts[tx.caller];
      var overridden := account.(info := account.info.(nonce := tx.nonce.value));
      assert OverrideNonce(db, tx).accounts[tx.caller] == overridden;
      if NonceSettled(db, tx) {
        assert overridden == account;
        assert db.accounts[tx.caller := account] == db.accounts;
      }
    } else if tx.nonce.Some? {
      assert tx.caller in OverrideNonce(db, tx).accounts;
    }
  }

  /** Executing a sequence gives the results and the final database of simulating it, rejected
      transactions included, as long as the nonce overrides have nothing to change. */
  lemma {:induction false} ExecuteAgrees(s: Settings, db: CacheDb, txs: seq<SimTxInput>)
    requires NoncesSettled(s, db, txs)
    ensures ExecuteAll(s, db, txs) == (RunAll(s, db, txs).db, RunAll(s, db, txs).results)
  {
    if |txs| == 0 {
    } else {
      var front := txs[..|txs| - 1];
      forall i | 0 <= i < |front|
        ensures NonceSettled(RunAll(s, db, front[..i]).db, front[i])
      {
        assert front[..i] == txs[..i];
      }
      ExecuteAgrees(s, db, front);
      OverrideIsNoopIff(RunAll(s, db, front).db, txs[|txs| - 1]);
    }
  }

  /** In particular for transactions without a nonce. */
  lemma ExecuteAgreesWithoutNonces(s: Settings, db: CacheDb, txs: seq<SimTxInput>)
    requires forall i :: 0 <= i < |txs| ==> txs[i].nonce.None?
    ensures ExecuteAll(s, db, txs) == (RunAll(s, db, txs).db, RunAll(s, db, txs).results)
  {
    ExecuteAgrees(s, db, txs);
  }

  /** Executing the sequence returns the results of simulating it and ends on its final database. */
  ghost predicate AgreesOn(s: Settings, db: CacheDb, txs: seq<SimTxInput>) {
    ExecuteAll(s, db, txs) == (RunAll(s, db, txs).db, RunAll(s, db, txs).results)
  }

  /** The first transaction finds its nonce settled, and the later ones carry none. */
  predicate SafeNonces(db: CacheDb, txs: seq<SimTxInput>) {
    |txs| > 0 ==> NonceSettled(db, txs[0]) && forall i :: 1 <= i < |txs| ==> txs[i].nonce.None?
  }

  /** A machine that rejects on the database `x` and commits everything else to it. */
  function Trap(s: Settings, x: CacheDb): Settings {
    var run := (d: CacheDb, b: BlockEnv, c: U64, t: TxEnv) =>
      if d == x then Rejected("", []) else Committed(x, Success([], 0, []), []);
    s.(machine := s.machine.(run := run))
  }

  lemma {:induction false} ResultsAt(s: Settings, db: CacheDb, txs: seq<SimTxInput>, i: nat)
    requires i < |txs|
    ensures |ExecuteAll(s, db, txs).1| == |RunAll(s, db, txs).results| == |txs|
    ensures ExecuteAll(s, db, txs).1[i] == Execute(s, ExecuteAll(s, db, txs[..i]).0, txs[i]).1
    ensures RunAll(s, db, txs).results[i] == ResultOf(s, Transact(s, RunAll(s, db, txs[..i]).db, txs[i]))
  {
    var front := txs[..|txs| - 1];
    if |front| > 0 {
      ResultsAt(s, db, front, if i < |front| then i else 0);
    }
    if i < |front| {
      assert front[..i] == txs[..i];
    }
  }

  /** Every non-empty prefix is simulated to the trap's database. */
  lemma {:induction false} TrapHolds(s: Settings, x: CacheDb, db: CacheDb, txs: seq<SimTxInput>)
    requires |txs| > 0
    ensures RunAll(Trap(s, x), db, txs).db == x
  {
    if |txs| > 1 {
      TrapHolds(s, x, db, txs[..|txs| - 1]);
    }
  }

  /** A transaction whose override would change the trap's database is executed differently there. */
  lemma TrapTells(s: Settings, x: CacheDb, db: CacheDb, txs: seq<SimTxInput>, i: nat)
    requires i < |txs| && RunAll(Trap(s, x), db, txs[..i]).db == x
    requires OverrideNonce(ExecuteAll(Trap(s, x), db, txs[..i]).0, txs[i]) != x
    ensures !AgreesOn(Trap(s, x), db, txs)
  {
    ResultsAt(Trap(s, x), db, txs, i);
  }

  /** A sequence is executed as it is simulated, on every machine, exactly when the nonce of the
      first transaction is settled at the start and no later one carries a nonce. Which nonce a
      later caller has depends on the machine, and a rejection leaves an override behind. */
  lemma AgreementIff(db: CacheDb, txs: seq<SimTxInput>, s: Settings)
    ensures (forall t: Settings :: AgreesOn(t, db, txs)) <==> SafeNonces(db, txs)
  {
    if SafeNonces(db, txs) {
      forall t: Settings
        ensures AgreesOn(t, db, txs)
      {
        assert |txs| > 0 ==> txs[..0] == [];
        ExecuteAgrees(t, db, txs);
      }
    } else if !NonceSettled(db, txs[0]) {
      OverrideIsNoopIff(db, txs[0]);
      assert txs[..0] == [];
      TrapTells(s, db, db, txs, 0);
    } else {
      var i :| 1 <= i < |txs| && txs[i].nonce.Some?;
      TrapHolds(s, EMPTY_DB, db, txs[..i]);
      assert txs[i].caller in OverrideNonce(ExecuteAll(Trap(s, EMPTY_DB), db, txs[..i]).0, txs[i]).accounts;
      TrapTells(s, EMPTY_DB, db, txs, i);
    }
  }

  /** What executing the transaction for real will return is what the preview says, and a transaction
      that it rejects changes nothing. */
  ghost predicate PreviewTells(s: Settings, db: CacheDb, tx: SimTxInput) {
    match Preview(s, db, tx)
    case Ok(result) => Execute(s, db, tx).1 == result
    case Err(_) => !Execute(s, db, tx).1.success && Execute(s, db, tx).0 == db
  }

  /** `simulate_tx` foretells `execute_tx`, on every machine, exactly when the nonce is settled. */
  lemma PreviewTellsIff(db: CacheDb, tx: SimTxInput, s: Settings)
    ensures (forall t: Settings :: PreviewTells(t, db, tx)) <==> NonceSettled(db, tx)
  {
    OverrideIsNoopIff(db, tx);
    if !NonceSettled(db, tx) {
      assert !PreviewTells(Trap(s, db), db, tx);
    }
  }

  /* ----- Snapshots over every run ----- */

  function Initial(defaultBlockEnv: BlockEnv): SimState {
    SimState(EMPTY_DB, defaultBlockEnv, {}, map[], 0)
  }

  /** The state after a whole run of operations on a new simulator. */
  function After(f: Fixed, env: BlockEnv, ops: seq<Op>): SimState {
    if |ops| == 0 then Initial(env) else Apply(f, After(f, env, ops[..|ops| - 1]), ops[|ops| - 1])
  }

  /** How many snapshots a run takes. */
  function SnapshotCount(ops: seq<Op>): (n: nat)
    ensures n <= |ops|
  {
    if |ops| == 0 then 0
    else SnapshotCount(ops[..|ops| - 1]) + if ops[|ops| - 1].Snapshot? then 1 else 0
  }

  /** The identifier that operation `k`, a snapshot, returned. */
  function IdAt(f: Fixed, env: BlockEnv, ops: seq<Op>, k: nat): SnapshotId
    requires k < |ops|
  {
    After(f, env, ops[..k]).nextSnapshotId
  }

  predicate IssuedAt(f: Fixed, env: BlockEnv, ops: seq<Op>, k: nat, id: SnapshotId) {
    k < |ops| && ops[k].Snapshot? && IdAt(f, env, ops, k) == id
  }

  /** Operation `k` took the snapshot that `id` stands for: it returned `id`, and nothing since
      released `id` or took another snapshot under it. */
  predicate Current(f: Fixed, env: BlockEnv, ops: seq<Op>, k: nat, id: SnapshotId) {
    && IssuedAt(f, env, ops, k, id)
    && forall j :: k < j < |ops| ==> ops[j] != Release(id) && !IssuedAt(f, env, ops, j, id)
  }

  /** The k-th snapshot is numbered k, counting from zero, up to the width of the counter. */
  lemma {:induction false} NextIdIsCount(f: Fixed, env: BlockEnv, ops: seq<Op>)
    ensures After(f, env, ops).nextSnapshotId == SnapshotCount(ops) % TWO_64
  {
    if |ops| == 0 {
    } else {
      NextIdIsCount(f, env, ops[..|ops| - 1]);
    }
  }

  lemma {:induction false} CountGrows(ops: seq<Op>, k: nat, l: nat)
    requires k < l <= |ops| && ops[k].Snapshot?
    ensures SnapshotCount(ops[..k]) < SnapshotCount(ops[..l]) <= SnapshotCount(ops)
    decreases l
  {
    CountMonotone(ops, l, |ops|);
    assert ops[..|ops|] == ops;
    CountMonotone(ops, k + 1, l);
    assert ops[..k + 1][..k] == ops[..k];
  }

  lemma {:induction false} CountMonotone(ops: seq<Op>, k: nat, l: nat)
    requires k <= l <= |ops|
    ensures SnapshotCount(ops[..k]) <= SnapshotCount(ops[..l])
    decreases l
  {
    if k < l {
      CountMonotone(ops, k, l - 1);
      assert ops[..l][..l - 1] == ops[..l - 1];
    }
  }

  /** Two snapshots share an identifier exactly when their ordinals differ by a multiple of 2^64. */
  lemma IdsCollideIff(f: Fixed, env: BlockEnv, ops: seq<Op>, k: nat, l: nat)
    requires k < |ops| && l < |ops| && ops[k].Snapshot? && ops[l].Snapshot?
    ensures IdAt(f, env, ops, k) == IdAt(f, env, ops, l)
       <==> SnapshotCount(ops[..k]) % TWO_64 == SnapshotCount(ops[..l]) % TWO_64
  {
    NextIdIsCount(f, env, ops[..k]);
    NextIdIsCount(f, env, ops[..l]);
  }

  /** Within the first 2^64 snapshots no identifier is used twice. */
  lemma IdsAreUnique(f: Fixed, env: BlockEnv, ops: seq<Op>, k: nat, l: nat)
    requires SnapshotCount(ops) <= TWO_64
    requires k < l < |ops| && ops[k].Snapshot? && ops[l].Snapshot?
    ensures IdAt(f, env, ops, k) != IdAt(f, env, ops, l)
  {
    IdsCollideIff(f, env, ops, k, l);
    CountGrows(ops, k, l);
    CountGrows(ops, l, |ops|);
    assert ops[..|ops|] == ops;
    ModBelow(SnapshotCount(ops[..k]), TWO_64);
    ModBelow(SnapshotCount(ops[..l]), TWO_64);
  }

  lemma CurrentPrefix(f: Fixed, env: BlockEnv, ops: seq<Op>, k: nat, id: SnapshotId)
    requires |ops| > 0 && k < |ops| - 1
    ensures var front := ops[..|ops| - 1];
            Current(f, env, ops, k, id)
            <==> Current(f, env, front, k, id) && ops[|ops| - 1] != Release(id)
                 && !IssuedAt(f, env, ops, |ops| - 1, id)
  {
    var front := ops[..|ops| - 1];
    forall j | 0 <= j < |front|
      ensures front[j] == ops[j] && front[..j] == ops[..j]
    {
    }
    forall j: nat | j < |front|
      ensures IssuedAt(f, env, front, j, id) <==> IssuedAt(f, env, ops, j, id)
    {
    }
  }

  /** Where the snapshot current under `id` was taken, if there is one. */
  function CurrentPosition(f: Fixed, env: BlockEnv, ops: seq<Op>, id: SnapshotId): Option<nat> {
    if |ops| == 0 then None
    else
      var n := |ops| - 1;
      if IssuedAt(f, env, ops, n, id) then Some(n)
      else if ops[n] == Release(id) then None
      else CurrentPosition(f, env, ops[..n], id)
  }

  lemma {:induction false} CurrentPositionIff(f: Fixed, env: BlockEnv, ops: seq<Op>, id: SnapshotId, k: nat)
    ensures CurrentPosition(f, env, ops, id) == Some(k) <==> Current(f, env, ops, k, id)
  {
    if |ops| == 0 {
    } else {
      var n := |ops| - 1;
      if k < n {
        CurrentPrefix(f, env, ops, k, id);
        CurrentPositionIff(f, env, ops[..n], id, k);
      } else {
        PositionInRange(f, env, ops[..n], id);
      }
    }
  }

  lemma {:induction false} PositionInRange(f: Fixed, env: BlockEnv, ops: seq<Op>, id: SnapshotId)
    ensures var p := CurrentPosition(f, env, ops, id);
            p.Some? ==> p.value < |ops|
  {
    if |ops| == 0 {
    } else {
      PositionInRange(f, env, ops[..|ops| - 1], id);
    }
  }

  lemma {:induction false} StoreAtPosition(f: Fixed, env: BlockEnv, ops: seq<Op>, id: SnapshotId)
    ensures var p := CurrentPosition(f, env, ops, id);
            Lookup(After(f, env, ops).snapshots, id)
            == if p.Some? && p.value < |ops| then Some(After(f, env, ops[..p.value]).db) else None
  {
    if |ops| == 0 {
    } else {
      var n := |ops| - 1;
      var front := ops[..n];
      StoreAtPosition(f, env, front, id);
      PositionInRange(f, env, front, id);
      var p := CurrentPosition(f, env, front, id);
      if p.Some? {
        assert front[..p.value] == ops[..p.value];
      }
    }
  }

  /** After any run, with no bound on its length, the store holds under `id` the database of the
      moment its current snapshot was taken, and nothing when there is none. */
  lemma StoreIsExact(f: Fixed, env: BlockEnv, ops: seq<Op>, id: SnapshotId)
    ensures id in After(f, env, ops).snapshots <==> exists k: nat :: Current(f, env, ops, k, id)
    ensures forall k: nat :: Current(f, env, ops, k, id) ==>
              id in After(f, env, ops).snapshots && After(f, env, ops).snapshots[id] == After(f, env, ops[..k]).db
  {
    StoreAtPosition(f, env, ops, id);
    PositionInRange(f, env, ops, id);
    var p := CurrentPosition(f, env, ops, id);
    forall k: nat
      ensures Current(f, env, ops, k, id) <==> p == Some(k)
    {
      CurrentPositionIff(f, env, ops, id, k);
    }
    if p.Some? {
      assert Current(f, env, ops, p.value, id);
    }
  }

  /** `restore` is exact over every run: it succeeds exactly when a snapshot is current under the
      identifier, brings back the database of that moment, whatever happened in between, and
      touches nothing else; when it fails it changes nothing. */
  lemma RestoreIsExact(f: Fixed, env: BlockEnv, ops: seq<Op>, id: SnapshotId)
    ensures var before := After(f, env, ops);
            var restored := Apply(f, before, Restore(id));
            && (id in before.snapshots <==> exists k: nat :: Current(f, env, ops, k, id))
            && (forall k: nat :: Current(f, env, ops, k, id) ==> restored == before.(db := After(f, env, ops[..k]).db))
            && (id !in before.snapshots ==> restored == before)
  {
    StoreIsExact(f, env, ops, id);
  }

  /** Within the first 2^64 snapshots, an identifier stands for the one snapshot that returned it
      until it is released. */
  lemma CurrentUntilReleased(f: Fixed, env: BlockEnv, ops: seq<Op>, k: nat, id: SnapshotId)
    requires SnapshotCount(ops) <= TWO_64
    ensures Current(f, env, ops, k, id)
       <==> IssuedAt(f, env, ops, k, id) && forall j :: k < j < |ops| ==> ops[j] != Release(id)
  {
    if IssuedAt(f, env, ops, k, id) {
      forall j | k < j < |ops| && ops[j].Snapshot?
        ensures IdAt(f, env, ops, j) != id
      {
        IdsAreUnique(f, env, ops, k, j);
      }
    }
  }

  /** A value written to storage is the value read, and a snapshot taken before the write undoes it. */
  lemma WriteThenRestore(f: Fixed, v: SimState, address: Address, key: U256, value: U256)
    ensures var taken := Apply(f, v, Op.Snapshot);
            var written := Apply(f, taken, Op.SetStorage(address, key, value));
            && StorageOf(written.db, address, key) == Some(value) && ReadRawSlot(written.db, address, key) == value
            && (forall a: Address, k: U256 :: (a, k) != (address, key) ==>
                  StorageOf(written.db, a, k) == StorageOf(v.db, a, k))
            && Apply(f, written, Restore(v.nextSnapshotId)) == taken
  {
  }

  /* ----- What each operation leaves, read back account by account ----- */

  /** The cached information of an account. */
  function InfoOf(db: CacheDb, address: Address): Option<AccountInfo> {
    if address in db.accounts then Some(db.accounts[address].info) else None
  }

  /** The databases hold the same about every account but `address`. */
  ghost predicate SameElsewhere(a: CacheDb, b: CacheDb, address: Address) {
    forall other: Address :: other != address ==>
      Lookup(a.accounts, other) == Lookup(b.accounts, other)
  }

  /** Storing account information changes nothing else, not even the storage of that account. */
  lemma InfoReadsBack(db: CacheDb, address: Address, info: AccountInfo)
    ensures var written := InsertAccountInfo(db, address, info);
            && InfoOf(written, address) == Some(info)
            && (forall key: U256 :: StorageOf(written, address, key) == StorageOf(db, address, key))
            && SameElsewhere(written, db, address)
  {
  }

  /** Storing a slot changes nothing else; an account that was not cached becomes an empty one. */
  lemma SlotReadsBack(db: CacheDb, address: Address, key: U256, value: U256)
    ensures var written := InsertAccountStorage(db, address, key, value);
            && StorageOf(written, address, key) == Some(value)
            && (forall other: U256 :: other != key ==>
                  StorageOf(written, address, other) == StorageOf(db, address, other))
            && InfoOf(written, address)
               == (if address in db.accounts then InfoOf(db, address) else Some(AccountInfo(0, 0, 0, None)))
            && SameElsewhere(written, db, address)
  {
  }

  /** `d` is `db` with the nonce of the caller set to that of the transaction, if it carries one: an
      account that was not cached gets it with no balance and no code. */
  ghost predicate NonceSet(db: CacheDb, tx: SimTxInput, d: CacheDb) {
    match tx.nonce
    case None => d == db
    case Some(nonce) =>
      && SameElsewhere(d, db, tx.caller)
      && (forall key: U256 :: StorageOf(d, tx.caller, key) == StorageOf(db, tx.caller, key))
      && match InfoOf(db, tx.caller)
         case Some(info) =>
           InfoOf(d, tx.caller)
           == Some(AccountInfo(balance := info.balance, nonce := nonce, codeHash := info.codeHash, code := info.code))
         case None =>
           InfoOf(d, tx.caller) == Some(AccountInfo(balance := 0, nonce := nonce, codeHash := 0, code := None))
  }

  /** Executing a transaction sets the nonce and then goes on by what the machine does: a commit of
      whatever kind is kept, and a rejection leaves the database with the nonce set. */
  lemma ExecuteSteps(f: Fixed, v: SimState, tx: SimTxInput)
    ensures var s := Settings(machine := f.machine, lib := f.lib, blockEnv := v.blockEnv, chainId := f.chainId);
            var after := Apply(f, v, Op.ExecuteTx(tx));
            && after == v.(db := after.db)
            && exists overridden: CacheDb, pcs: seq<nat> ::
                 && NonceSet(v.db, tx, overridden)
                 && StepsTo(s, overridden, tx, after.db, Execute(s, v.db, tx).1, pcs)
  {
    var s := SettingsOf(f, v.blockEnv);
    var overridden := OverrideNonce(v.db, tx);
    assert NonceSet(v.db, tx, overridden);
    OutcomeSteps(s, overridden, tx);
    assert StepsTo(s, overridden, tx, Execute(s, v.db, tx).0, Execute(s, v.db, tx).1, Transact(s, overridden, tx).pcs);
  }

  /** Setting the nonce is determined by what it does to each account. */
  lemma NonceSetUnique(db: CacheDb, tx: SimTxInput, c: CacheDb, d: CacheDb)
    requires NonceSet(db, tx, c) && NonceSet(db, tx, d)
    ensures c == d
  {
    if tx.nonce.Some? {
      forall address: Address
        ensures Lookup(c.accounts, address) == Lookup(d.accounts, address)
      {
        assert address != tx.caller ==> Lookup(c.accounts, address) == Lookup(db.accounts, address);
        if address == tx.caller {
          var x, y := c.accounts[address].storage, d.accounts[address].storage;
          forall key: U256
            ensures Lookup(x, key) == Lookup(y, key)
          {
            assert StorageOf(c, address, key) == StorageOf(d, address, key);
          }
          LookupDetermines(x, y);
        }
      }
      LookupDetermines(c.accounts, d.accounts);
    }
  }

  lemma LookupDetermines<K(!new), V>(x: map<K, V>, y: map<K, V>)
    requires forall key: K :: Lookup(x, key) == Lookup(y, key)
    ensures x == y
  {
    forall key: K
      ensures key in x <==> key in y
    {
      assert Lookup(x, key) == Lookup(y, key);
    }
    forall key: K | key in x
      ensures x[key] == y[key]
    {
      assert Lookup(x, key) == Lookup(y, key);
    }
  }

  /** A preview is what the machine makes of the transaction on the database as it is, without a
      nonce override; a rejection, and only that, is an error. */
  lemma PreviewSteps(s: Settings, db: CacheDb, tx: SimTxInput)
    ensures var env := TxEnv(
              caller := tx.caller, transactTo := tx.to, value := tx.value, data := tx.data, gasLimit := tx.gasLimit,
              gasPrice := tx.gasPrice, chainId := s.chainId, nonce := tx.nonce);
            match s.machine.run(db, s.blockEnv, s.chainId, env)
            case Rejected(error, _) => Preview(s, db, tx) == Err("REVM transact failed: " + error)
            case Committed(after, _, pcs) =>
              Preview(s, db, tx).Ok? && StepsTo(s, db, tx, after, Preview(s, db, tx).value, pcs)
  {
  }

  lemma {:induction false} AddressesAre(accounts: seq<FetchedAccount>)
    ensures forall a: Address ::
              a in AddressesOf(accounts) <==> exists j :: 0 <= j < |accounts| && accounts[j].address == a
  {
    if |accounts| > 0 {
      AddressesAre(accounts[..|accounts| - 1]);
    }
  }

  /** Loading accounts leaves all storage and all addresses that are not listed alone. */
  lemma {:induction false} AccountsLeave(db: CacheDb, accounts: seq<FetchedAccount>, address: Address)
    ensures forall key: U256 :: StorageOf(LoadAccounts(db, accounts), address, key) == StorageOf(db, address, key)
    ensures (forall j :: 0 <= j < |accounts| ==> accounts[j].address != address) ==>
              InfoOf(LoadAccounts(db, accounts), address) == InfoOf(db, address)
  {
    if |accounts| > 0 {
      AccountsLeave(db, accounts[..|accounts| - 1], address);
    }
  }

  /** It gives each address the balance, nonce and code fetched last for it. */
  lemma {:induction false} AccountsReadBack(db: CacheDb, accounts: seq<FetchedAccount>, j: nat)
    requires j < |accounts| && forall k :: j < k < |accounts| ==> accounts[k].address != accounts[j].address
    ensures InfoOf(LoadAccounts(db, accounts), accounts[j].address)
         == Some(AccountInfo(
              balance := accounts[j].balance, nonce := accounts[j].nonce, codeHash := 0,
              code := Some(accounts[j].code)))
  {
    if j < |accounts| - 1 {
      AccountsReadBack(db, accounts[..|accounts| - 1], j);
    }
  }

  /** Loading slots gives each key the value fetched last for it. */
  lemma {:induction false} SlotsReadBack(db: CacheDb, address: Address, slots: seq<(U256, U256)>, j: nat)
    requires j < |slots| && forall k :: j < k < |slots| ==> slots[k].0 != slots[j].0
    ensures StorageOf(LoadSlots(db, address, slots), address, slots[j].0) == Some(slots[j].1)
  {
    var n := |slots| - 1;
    SlotReadsBack(LoadSlots(db, address, slots[..n]), address, slots[n].0, slots[n].1);
    if j < n {
      SlotsReadBack(db, address, slots[..n], j);
    }
  }

  /** It leaves every other slot, every other account and the information of the account alone. */
  lemma {:induction false} SlotsLeave(db: CacheDb, address: Address, slots: seq<(U256, U256)>, key: U256)
    ensures (forall j :: 0 <= j < |slots| ==> slots[j].0 != key) ==>
              StorageOf(LoadSlots(db, address, slots), address, key) == StorageOf(db, address, key)
    ensures SameElsewhere(LoadSlots(db, address, slots), db, address)
    ensures InfoOf(LoadSlots(db, address, slots), address)
         == if slots == [] || address in db.accounts then InfoOf(db, address) else Some(AccountInfo(0, 0, 0, None))
  {
    if |slots| > 0 {
      var n := |slots| - 1;
      SlotsLeave(db, address, slots[..n], key);
      SlotReadsBack(LoadSlots(db, address, slots[..n]), address, slots[n].0, slots[n].1);
    }
  }

  /** Prefunding replaces the information of the account by a bare balance; clearing the cache forgets
      every account and every loaded address, but no snapshot; the two setters of the block
      environment touch only it, and the second only its base fee. */
  lemma DirectWrites(f: Fixed, v: SimState, address: Address, amount: U256, env: BlockEnv)
    ensures var funded := Apply(f, v, Op.Prefund(address, amount));
            && InfoOf(funded.db, address)
               == Some(AccountInfo(balance := amount, nonce := 0, codeHash := 0, code := None))
            && (forall key: U256 :: StorageOf(funded.db, address, key) == StorageOf(v.db, address, key))
            && SameElsewhere(funded.db, v.db, address)
            && funded == v.(db := funded.db, loadedAddresses := v.loadedAddresses + {address})
    ensures var cleared := Apply(f, v, Op.ClearCache);
            && (forall a: Address :: InfoOf(cleared.db, a) == None)
            && (forall a: Address, key: U256 :: StorageOf(cleared.db, a, key) == None)
            && cleared == v.(db := cleared.db, loadedAddresses := {})
    ensures Apply(f, v, Op.SetBlockEnv(env)) == v.(blockEnv := env)
    ensures var based := Apply(f, v, Op.SetBasefee(amount));
            && based == v.(blockEnv := based.blockEnv) && based.blockEnv.basefee == amount
            && based.blockEnv.(basefee := v.blockEnv.basefee) == v.blockEnv
  {
  }
}
