/** The layered contract cache (drive/src/drive/cache.rs). */
module ContractCache {
  import opened Prelude
  import opened ByteOrder

  /** Transactions are told apart by an identifier that does not change while they are open. */
  type TxId = nat
  type ContractId = Bytes

  datatype Contract = Contract(id: ContractId, content: Bytes)

  type Layer = map<ContractId, Contract>

  /** One global layer, and a layer per transaction. */
  datatype Cache = Cache(global: Layer, layers: map<TxId, Layer>)

  function LayerOf(c: Cache, tx: TxId): Layer
  {
    if tx in c.layers then c.layers[tx] else map[]
  }

  function Inserted(c: Cache, contract: Contract, tx: Option<TxId>): Cache
  {
    match tx
    case None => c.(global := c.global[contract.id := contract])
    case Some(t) => c.(layers := c.layers[t := LayerOf(c, t)[contract.id := contract]])
  }

  /** The transaction's layer first, then the global one. */
  function Lookup(c: Cache, id: ContractId, tx: Option<TxId>): Option<Contract>
  {
    if tx.Some? && id in LayerOf(c, tx.value) then Some(LayerOf(c, tx.value)[id])
    else if id in c.global then Some(c.global[id])
    else None
  }

  function Merged(c: Cache, tx: TxId): Cache
  {
    c.(global := c.global + LayerOf(c, tx))
  }

  function Cleared(c: Cache, tx: TxId): Cache
  {
    c.(layers := c.layers - {tx})
  }

  /** What a reader sees: with a transaction, its layer if it holds the contract. */
  predicate Sees(c: Cache, id: ContractId, tx: Option<TxId>, found: Option<Contract>)
  {
    if tx.Some? && tx.value in c.layers && id in c.layers[tx.value] then found == Some(c.layers[tx.value][id])
    else if id in c.global then found == Some(c.global[id])
    else found == None
  }

  lemma LookupSees(c: Cache, id: ContractId, tx: Option<TxId>)
    ensures Sees(c, id, tx, Lookup(c, id, tx))
  {
  }

  /** After an insert the contract is found by readers of that transaction; without one by all readers whose
      layer does not hold another. Nothing else changes. */
  lemma LookupAfterInsert(c: Cache, contract: Contract, on: Option<TxId>, id: ContractId, tx: Option<TxId>)
    ensures Lookup(Inserted(c, contract, on), id, tx) ==
            if id == contract.id && (on == tx || (on.None? && id !in LayerOf(c, tx.value))) then Some(contract)
            else Lookup(c, id, tx)
  {
  }

  /** After a merge a reader outside finds what the transaction's layer holds, and what was there otherwise; so
      does a reader in a transaction whose layer does not hold the contract. */
  lemma LookupAfterMerge(c: Cache, merged: TxId, id: ContractId, tx: Option<TxId>)
    ensures Lookup(Merged(c, merged), id, tx) ==
            if tx.Some? && id in LayerOf(c, tx.value) then Some(LayerOf(c, tx.value)[id])
            else if id in LayerOf(c, merged) then Some(LayerOf(c, merged)[id])
            else Lookup(c, id, None)
  {
  }

  /** After clearing, readers of that transaction find what readers outside find; others notice nothing. */
  lemma LookupAfterClear(c: Cache, cleared: TxId, id: ContractId, tx: Option<TxId>)
    ensures Lookup(Cleared(c, cleared), id, tx) == Lookup(c, id, if tx == Some(cleared) then None else tx)
  {
  }

  class DataContractCache {
    var globalCache: Layer
    var cacheMap: map<TxId, Layer>

    function Model(): Cache
      reads this
    {
      Cache(globalCache, cacheMap)
    }

    constructor ()
      ensures Model() == Cache(map[], map[])
    {
      globalCache := map[];
      cacheMap := map[];
    }

    method Insert(contract: Contract, tx: Option<TxId>)
      modifies this
      ensures Model() == Inserted(old(Model()), contract, tx)
    {
      if tx.Some? {
        if tx.value !in cacheMap {
          cacheMap := cacheMap[tx.value := map[]];
        }
        cacheMap := cacheMap[tx.value := cacheMap[tx.value][contract.id := contract]];
      } else {
        globalCache := globalCache[contract.id := contract];
      }
    }

    method Get(id: ContractId, tx: Option<TxId>) returns (r: Option<Contract>)
      ensures r == Lookup(Model(), id, tx)
    {
      if tx.Some? && tx.value in cacheMap && id in cacheMap[tx.value] {
        return Some(cacheMap[tx.value][id]);
      }
      if id in globalCache {
        return Some(globalCache[id]);
      }
      return None;
    }

    method MergeTransactionalCache(tx: TxId)
      modifies this
      ensures Model() == Merged(old(Model()), tx)
    {
      if tx in cacheMap {
        var layer, left := cacheMap[tx], cacheMap[tx].Keys;
        while left != {}
          invariant left <= layer.Keys && cacheMap == old(cacheMap)
          invariant globalCache == old(globalCache) + (layer - left)
          decreases left
        {
          var id :| id in left;
          globalCache := globalCache[id := layer[id]];
          left := left - {id};
        }
        assert layer - {} == layer;
      }
    }

    method ClearTransactionalCache(tx: TxId)
      modifies this
      ensures Model() == Cleared(old(Model()), tx)
    {
      cacheMap := cacheMap - {tx};
    }

    method ClearAllTransactionalCache()
      modifies this
      ensures Model() == old(Model()).(layers := map[])
    {
      cacheMap := map[];
    }

    /** The global layer may lose entries at any moment. */
    method Evict(lost: set<ContractId>)
      modifies this
      ensures Model() == old(Model()).(global := old(Model()).global - lost)
    {
      globalCache := globalCache - lost;
    }
  }
}

/** The store, its transactions and the cache, driven by the message loop of node/src/lib.rs. */
module CachedStore {
  import opened Prelude
  import opened ContractCache

  /** Committed contracts, and the writes of each open transaction. */
  datatype Store = Store(committed: Layer, open: map<TxId, Layer>)

  /** What a reader sees, inside a transaction or outside. */
  function View(s: Store, tx: Option<TxId>): Layer
  {
    if tx.Some? && tx.value in s.open then s.committed + s.open[tx.value] else s.committed
  }

  function Fetch(s: Store, id: ContractId, tx: Option<TxId>): Option<Contract>
  {
    if id in View(s, tx) then Some(View(s, tx)[id]) else None
  }

  function Written(s: Store, contract: Contract, tx: Option<TxId>): Store
  {
    match tx
    case None => s.(committed := s.committed[contract.id := contract])
    case Some(t) => if t in s.open then s.(open := s.open[t := s.open[t][contract.id := contract]]) else s
  }

  datatype State = State(store: Store, cache: Cache)

  /** The end of a transaction carries the identifier by which the cache knows it at that moment. */

  datatype Event =
    | Start(tx: TxId)
    | Create(contract: Contract, on: Option<TxId>)
    | Update(contract: Contract, on: Option<TxId>)
    | Read(id: ContractId, on: Option<TxId>, charge: bool)
    | Commit(tx: TxId, known: TxId)
    | Rollback(tx: TxId, known: TxId)
    | Abort(tx: TxId, known: TxId)
    | Finalize
    | Evict(lost: set<ContractId>)

  /** What an event does to the store; a transaction that is not open is reported and nothing happens. */
  function StoreStep(s: Store, e: Event): Store
  {
    match e
    case Start(tx) => s.(open := s.open[tx := map[]])
    case Create(contract, on) => Written(s, contract, on)
    case Update(contract, on) => Written(s, contract, on)
    case Commit(tx, _) =>
      if tx in s.open then Store(s.committed + s.open[tx], s.open - {tx}) else s
    case Rollback(tx, _) => s.(open := s.open - {tx})
    case Abort(tx, _) => s.(open := s.open - {tx})
    case _ => s
  }

  /** What it does to the cache: an update puts the new contract there; a read that misses fills it, and
      one that hits but must be charged puts the contract back with its fee; the end of a transaction clears
      its layer, after merging it on commit. */
  function CacheStep(s: State, e: Event): Cache
  {
    match e
    case Update(contract, on) => Inserted(s.cache, contract, on)
    case Read(id, on, charge) =>
      var cached, stored := Lookup(s.cache, id, on), Fetch(s.store, id, on);
      if cached.Some? then if charge then Inserted(s.cache, cached.value, on) else s.cache
      else if stored.Some? then Inserted(s.cache, stored.value, on)
      else s.cache
    case Commit(tx, known) => if tx in s.store.open then Cleared(Merged(s.cache, known), known) else s.cache
    case Rollback(tx, known) => if tx in s.store.open then Cleared(s.cache, known) else s.cache
    case Abort(tx, known) => if tx in s.store.open then Cleared(s.cache, known) else s.cache
    case Finalize => s.cache.(layers := map[])
    case Evict(lost) => s.cache.(global := s.cache.global - lost)
    case _ => s.cache
  }

  function Step(s: State, e: Event): State
  {
    State(StoreStep(s.store, e), CacheStep(s, e))
  }

  /** The answer to a read: from the cache, or else from the store. */
  function Answer(s: State, e: Event): Option<Contract>
    requires e.Read?
  {
    if Lookup(s.cache, e.id, e.on).Some? then Lookup(s.cache, e.id, e.on) else Fetch(s.store, e.id, e.on)
  }

  // ---------- What each event brings about ----------

  /** After a read its answer is in the cache, for the same reader: the next read hits. */
  lemma ReadFills(s: State, id: ContractId, on: Option<TxId>, charge: bool)
    requires Fetch(s.store, id, on).Some? ==> Fetch(s.store, id, on).value.id == id
    requires Lookup(s.cache, id, on).Some? ==> Lookup(s.cache, id, on).value.id == id
    ensures var e := Read(id, on, charge);
            Lookup(Step(s, e).cache, id, on) == Answer(s, e) && Step(s, e).store == s.store
  {
  }

  /** After an update the new contract is in the store and in the cache, for its writer; a creation changes the
      store alike and the cache not at all. */
  lemma WriteFills(s: State, contract: Contract, on: Option<TxId>, id: ContractId, tx: Option<TxId>)
    requires on.Some? ==> on.value in s.store.open
    ensures Lookup(Step(s, Update(contract, on)).cache, contract.id, on) == Some(contract)
    ensures Step(s, Create(contract, on)).cache == s.cache
    ensures Step(s, Create(contract, on)).store == Step(s, Update(contract, on)).store
    ensures Fetch(Step(s, Update(contract, on)).store, id, tx) ==
            if id == contract.id &&
               (tx == on || (on.None? && (tx.value in s.store.open ==> id !in s.store.open[tx.value])))
            then Some(contract) else Fetch(s.store, id, tx)
  {
  }

  /** A started transaction is open, has written nothing, and sees what is committed; nobody else notices. */
  lemma Started(s: State, t: TxId, id: ContractId, tx: Option<TxId>)
    requires t !in s.store.open
    ensures t in Step(s, Start(t)).store.open && Step(s, Start(t)).store.open[t] == map[]
    ensures Fetch(Step(s, Start(t)).store, id, tx) == Fetch(s.store, id, if tx == Some(t) then None else tx)
    ensures Step(s, Start(t)).cache == s.cache
  {
  }

  /** A commit publishes: outside, the store holds what the transaction saw, and the cache what its layer held
      or else what was there. The transaction is closed and its layer gone. */
  lemma CommitPublishes(s: State, t: TxId, id: ContractId)
    requires t in s.store.open
    ensures var s' := Step(s, Commit(t, t));
            Fetch(s'.store, id, None) == Fetch(s.store, id, Some(t)) &&
            Lookup(s'.cache, id, None) == Lookup(s.cache, id, Some(t)) &&
            s'.store.open.Keys == s.store.open.Keys - {t} && t !in s'.cache.layers
  {
  }

  /** A rollback or an abort forgets: outside, store and cache are as before; the transaction is closed and its
      layer gone. */
  lemma RollbackForgets(s: State, e: Event, t: TxId, id: ContractId)
    requires t in s.store.open && e in {Rollback(t, t), Abort(t, t)}
    ensures var s' := Step(s, e);
            Fetch(s'.store, id, None) == Fetch(s.store, id, None) &&
            Lookup(s'.cache, id, None) == Lookup(s.cache, id, None) &&
            s'.store.open.Keys == s.store.open.Keys - {t} && t !in s'.cache.layers
  {
  }

  /** Ending a transaction leaves the writes and the layers of all others alone; finalizing drops all layers and
      nothing else; evicting loses global entries and nothing else. */
  lemma OthersKept(s: State, e: Event, t: TxId, u: TxId, lost: set<ContractId>)
    requires t in s.store.open && u != t && e in {Commit(t, t), Rollback(t, t), Abort(t, t)}
    ensures u in s.store.open <==> u in Step(s, e).store.open
    ensures u in s.store.open ==> Step(s, e).store.open[u] == s.store.open[u]
    ensures LayerOf(Step(s, e).cache, u) == LayerOf(s.cache, u)
    ensures Step(s, Finalize) == State(s.store, Cache(s.cache.global, map[]))
    ensures Step(s, Evict(lost)) == State(s.store, Cache(s.cache.global - lost, s.cache.layers))
  {
  }

  // ---------- How the cache may be used ----------

  /** An operation is on an open transaction, or on none. */
  predicate IsOpen(s: Store, on: Option<TxId>)
  {
    on.Some? ==> on.value in s.open
  }

  /** The events that the platform can produce, given that a transaction's identifier is not in use when it
      starts and is still the same when it ends. */
  predicate Possible(s: State, e: Event)
  {
    match e
    case Start(tx) => tx !in s.store.open
    case Create(_, on) => IsOpen(s.store, on)
    case Update(_, on) => IsOpen(s.store, on)
    case Read(_, on, _) => IsOpen(s.store, on)
    case Commit(tx, known) => known == tx
    case Rollback(tx, known) => known == tx
    case Abort(tx, known) => known == tx
    case _ => true
  }

  /** A transaction does not notice that a contract is committed by others: it has written its own, which its
      layer holds or which is the same contract, or what it has read is the same, or it has done neither. */
  predicate Indifferent(s: State, contract: Contract, t: TxId)
    requires t in s.store.open
  {
    var id, layer := contract.id, LayerOf(s.cache, t);
    if id in layer then id in s.store.open[t] || layer[id] == contract
    else id in s.store.open[t] ==> s.store.open[t][id] == contract
  }

  predicate AllIndifferent(s: State, contract: Contract)
  {
    forall t | t in s.store.open :: Indifferent(s, contract, t)
  }

  /** No other open transaction notices the commit. */
  predicate CommitsQuietly(s: State, tx: TxId)
    requires tx in s.store.open
  {
    forall t, id | t in s.store.open && t != tx && id in s.store.open[tx] ::
      Indifferent(s, s.store.open[tx][id], t)
  }

  /** A contract may be written without a cache insert when what the cache holds for its writer, if anything,
      is that same contract, and when, unless the transaction's own layer holds it, so is the committed one:
      a reader outside would bring that one into the global layer. */
  predicate Harmless(s: State, contract: Contract, on: Option<TxId>)
  {
    var cached := Lookup(s.cache, contract.id, on);
    (cached.Some? ==> cached.value == contract) &&
    (on.Some? && contract.id !in LayerOf(s.cache, on.value) && contract.id in s.store.committed ==>
      s.store.committed[contract.id] == contract)
  }

  /** No open transaction has overwritten a committed contract by another. */
  predicate NothingReplaced(s: Store)
  {
    forall t, id | t in s.open && id in s.open[t] && id in s.committed :: s.open[t][id] == s.committed[id]
  }

  /** The possible events that nobody notices: those that commit a contract must leave all open transactions
      indifferent, a write without a cache insert must be harmless, and a block may be finalized only while
      nothing is replaced. */
  predicate Allowed(s: State, e: Event)
  {
    Possible(s, e) &&
    match e
    case Create(contract, on) => Harmless(s, contract, on) && (on.None? ==> AllIndifferent(s, contract))
    case Update(contract, on) => on.None? ==> AllIndifferent(s, contract)
    case Commit(tx, _) => tx in s.store.open ==> CommitsQuietly(s, tx)
    case Finalize => NothingReplaced(s.store)
    case _ => true
  }

  // ---------- Coherence ----------

  /** Contracts are stored under their own identifiers. */
  ghost predicate Keyed(l: Layer)
  {
    forall id | id in l :: l[id].id == id
  }

  /** The cache agrees with the store. */
  ghost predicate Coherent(s: State)
  {
    Keyed(s.store.committed) && (forall t | t in s.store.open :: Keyed(s.store.open[t])) &&
    GlobalAgrees(s) &&
    (forall t | t !in s.store.open :: LayerOf(s.cache, t) == map[]) &&
    (forall t | t in s.store.open :: LayerAgrees(s, t))
  }

  /** The global layer holds committed contracts. */
  ghost predicate GlobalAgrees(s: State)
  {
    forall id | id in s.cache.global :: id in s.store.committed && s.cache.global[id] == s.store.committed[id]
  }

  /** A transaction's layer holds what the transaction sees, and at least what it overwrote by something else. */
  ghost predicate LayerAgrees(s: State, t: TxId)
    requires t in s.store.open
  {
    forall id :: LayerAgreesAt(s, t, id)
  }

  ghost predicate LayerAgreesAt(s: State, t: TxId, id: ContractId)
    requires t in s.store.open
  {
    var view, layer, writes := View(s.store, Some(t)), LayerOf(s.cache, t), s.store.open[t];
    (id in layer ==> id in view && layer[id] == view[id]) &&
    (id in writes && id in s.store.committed && id !in layer ==> writes[id] == s.store.committed[id])
  }

  /** In a coherent state the cache returns nothing but what the reader's view of the store holds. */
  lemma LookupAgrees(s: State, id: ContractId, tx: Option<TxId>)
    requires Coherent(s) && IsOpen(s.store, tx)
    ensures Lookup(s.cache, id, tx).Some? ==> Lookup(s.cache, id, tx) == Fetch(s.store, id, tx)
  {
    if tx.Some? {
      assert LayerAgrees(s, tx.value) && LayerAgreesAt(s, tx.value, id);
    }
  }

  lemma StepGlobal(s: State, e: Event)
    requires Coherent(s) && Allowed(s, e)
    ensures GlobalAgrees(Step(s, e))
  {
    forall id | id in Step(s, e).cache.global
      ensures id in Step(s, e).store.committed && Step(s, e).cache.global[id] == Step(s, e).store.committed[id]
    {
      if e.Commit? && e.tx in s.store.open {
        assert LayerAgrees(s, e.tx) && LayerAgreesAt(s, e.tx, id);
      } else if e.Read? {
        LookupAgrees(s, e.id, e.on);
      }
    }
  }

  lemma StepLayer(s: State, e: Event, t: TxId, id: ContractId)
    requires Coherent(s) && Allowed(s, e) && t in Step(s, e).store.open
    ensures LayerAgreesAt(Step(s, e), t, id)
  {
    if t in s.store.open {
      assert LayerAgrees(s, t) && LayerAgreesAt(s, t, id);
      if e.Read? {
        ReadLayer(s, e, t, id);
      } else if e.Commit? {
        CommitLayer(s, e, t, id);
      } else if (e.Create? || e.Update?) && e.on.None? {
        assert Indifferent(s, e.contract, t);
      }
    }
  }

  lemma ReadLayer(s: State, e: Event, t: TxId, id: ContractId)
    requires Coherent(s) && Allowed(s, e) && e.Read? && t in s.store.open && LayerAgreesAt(s, t, id)
    ensures LayerAgreesAt(Step(s, e), t, id)
  {
    LookupAgrees(s, e.id, e.on);
  }

  lemma CommitLayer(s: State, e: Event, t: TxId, id: ContractId)
    requires Coherent(s) && Allowed(s, e) && e.Commit? && t in Step(s, e).store.open && LayerAgreesAt(s, t, id)
    ensures LayerAgreesAt(Step(s, e), t, id)
  {
    if e.tx in s.store.open && id in s.store.open[e.tx] {
      assert Keyed(s.store.open[e.tx]) && Indifferent(s, s.store.open[e.tx][id], t);
    }
  }

  /** Layers of closed transactions stay empty. */
  lemma StepClosed(s: State, e: Event, t: TxId)
    requires Coherent(s) && Allowed(s, e) && t !in Step(s, e).store.open
    ensures LayerOf(Step(s, e).cache, t) == map[]
  {
  }

  lemma StepKeyed(s: State, e: Event)
    requires Coherent(s)
    ensures Keyed(Step(s, e).store.committed)
    ensures forall t | t in Step(s, e).store.open :: Keyed(Step(s, e).store.open[t])
  {
  }

  /** Every allowed event keeps the cache coherent. */
  lemma StepCoherent(s: State, e: Event)
    requires Coherent(s) && Allowed(s, e)
    ensures Coherent(Step(s, e))
  {
    var s' := Step(s, e);
    StepKeyed(s, e);
    StepGlobal(s, e);
    forall t | t in s'.store.open ensures LayerAgrees(s', t) {
      forall id ensures LayerAgreesAt(s', t, id) {
        StepLayer(s, e, t, id);
      }
    }
    forall t | t !in s'.store.open ensures LayerOf(s'.cache, t) == map[] {
      StepClosed(s, e, t);
    }
  }

  // ---------- Whole runs ----------

  predicate AllowedRun(s: State, es: seq<Event>)
    decreases es
  {
    es == [] || (Allowed(s, es[0]) && AllowedRun(Step(s, es[0]), es[1..]))
  }

  function Run(s: State, es: seq<Event>): State
    decreases es
  {
    if es == [] then s else Run(Step(s, es[0]), es[1..])
  }

  /** All answers to the reads of a run. */
  function Answers(s: State, es: seq<Event>): seq<Option<Contract>>
    decreases es
  {
    if es == [] then []
    else (if es[0].Read? then [Answer(s, es[0])] else []) + Answers(Step(s, es[0]), es[1..])
  }

  /** The answers of a store without a cache. */
  function StoreAnswers(s: Store, es: seq<Event>): seq<Option<Contract>>
    decreases es
  {
    if es == [] then []
    else (if es[0].Read? then [Fetch(s, es[0].id, es[0].on)] else []) + StoreAnswers(StoreStep(s, es[0]), es[1..])
  }

  /** The cache cannot be observed: over every allowed run, however the global layer evicts, the reads are
      answered as by the store alone, and the cache ends coherent. */
  lemma {:induction false} CacheIsTransparent(s: State, es: seq<Event>)
    requires Coherent(s) && AllowedRun(s, es)
    ensures Answers(s, es) == StoreAnswers(s.store, es)
    ensures Coherent(Run(s, es))
    decreases es
  {
    if es == [] {
    } else {
      StepCoherent(s, es[0]);
      if es[0].Read? {
        LookupAgrees(s, es[0].id, es[0].on);
      }
      CacheIsTransparent(Step(s, es[0]), es[1..]);
    }
  }

  /** In particular from an empty cache over any committed store, at any moment of any allowed run, what
      the cache returns to a reader is what that reader sees in the store. */
  lemma CachedValuesAreCurrent(committed: Layer, es: seq<Event>, id: ContractId, tx: Option<TxId>)
    requires Keyed(committed)
    requires AllowedRun(State(Store(committed, map[]), Cache(map[], map[])), es)
    ensures var s := Run(State(Store(committed, map[]), Cache(map[], map[])), es);
            IsOpen(s.store, tx) && Lookup(s.cache, id, tx).Some? ==>
              Lookup(s.cache, id, tx) == Fetch(s.store, id, tx)
  {
    var s0 := State(Store(committed, map[]), Cache(map[], map[]));
    CacheIsTransparent(s0, es);
    var s := Run(s0, es);
    if IsOpen(s.store, tx) {
      LookupAgrees(s, id, tx);
    }
  }

  // ---------- One transaction at a time ----------

  /** While no other transaction is open and new contracts only are written without a cache insert, every
      possible event that does not write beside the transaction or finalize under it is allowed. */
  lemma AloneIsAllowed(s: State, e: Event, t: TxId)
    requires Coherent(s) && Possible(s, e) && s.store.open.Keys <= {t}
    requires e.Create? ==> e.contract.id !in View(s.store, e.on)
    requires ((e.Create? || e.Update?) && e.on.None?) || e.Finalize? ==> s.store.open == map[]
    ensures Allowed(s, e)
  {
    if e.Create? {
      LookupAgrees(s, e.contract.id, e.on);
      if e.on.Some? {
        assert LayerAgrees(s, e.on.value);
      }
    }
  }

  // ---------- Exactly the allowed events go unnoticed ----------

  /** All reads of every allowed run are answered as by the store alone. */
  ghost predicate Transparent(s: State)
  {
    forall es | AllowedRun(s, es) :: Answers(s, es) == StoreAnswers(s.store, es)
  }

  lemma CoherentIsTransparent(s: State)
    requires Coherent(s)
    ensures Transparent(s)
  {
    forall es | AllowedRun(s, es) ensures Answers(s, es) == StoreAnswers(s.store, es) {
      CacheIsTransparent(s, es);
    }
  }

  lemma RunOne(s: State, a: Event)
    ensures Answers(s, [a]) == if a.Read? then [Answer(s, a)] else []
    ensures StoreAnswers(s.store, [a]) == if a.Read? then [Fetch(s.store, a.id, a.on)] else []
    ensures AllowedRun(s, [a]) <==> Allowed(s, a)
  {
    assert [a][1..] == [];
  }

  lemma RunCons(s: State, a: Event, es: seq<Event>)
    ensures Answers(s, [a] + es) == (if a.Read? then [Answer(s, a)] else []) + Answers(Step(s, a), es)
    ensures StoreAnswers(s.store, [a] + es) ==
            (if a.Read? then [Fetch(s.store, a.id, a.on)] else []) + StoreAnswers(StoreStep(s.store, a), es)
    ensures AllowedRun(s, [a] + es) <==> Allowed(s, a) && AllowedRun(Step(s, a), es)
  {
    assert ([a] + es)[1..] == es;
  }

  /** A read that is answered wrongly shows. */
  lemma WrongAnswer(s: State, id: ContractId, on: Option<TxId>)
    requires IsOpen(s.store, on)
    requires Answer(s, Read(id, on, false)) != Fetch(s.store, id, on)
    ensures !Transparent(s)
  {
    var a := Read(id, on, false);
    RunOne(s, a);
    assert Answers(s, [a])[0] != StoreAnswers(s.store, [a])[0];
  }

  /** What shows after one more allowed event shows. */
  lemma ShowsLater(s: State, a: Event)
    requires Allowed(s, a) && !Transparent(Step(s, a))
    requires a.Read? ==> Answer(s, a) == Fetch(s.store, a.id, a.on)
    ensures !Transparent(s)
  {
    var es :| AllowedRun(Step(s, a), es) && Answers(Step(s, a), es) != StoreAnswers(Step(s, a).store, es);
    RunCons(s, a, es);
    var first := if a.Read? then [Answer(s, a)] else [];
    assert first + Answers(Step(s, a), es) != first + StoreAnswers(Step(s, a).store, es) by {
      SamePrefix(first, Answers(Step(s, a), es), StoreAnswers(Step(s, a).store, es));
    }
    assert AllowedRun(s, [a] + es);
  }

  lemma SamePrefix(first: seq<Option<Contract>>, x: seq<Option<Contract>>, y: seq<Option<Contract>>)
    ensures first + x == first + y ==> x == y
  {
    if first + x == first + y {
      assert x == (first + x)[|first|..] && y == (first + y)[|first|..];
    }
  }

  /** A reader outside brings the committed contract into the global layer, where a transaction that has
      written another, not held by its layer, finds it. */
  lemma OutsideThenInside(s: State, id: ContractId, t: TxId)
    requires t in s.store.open && id !in LayerOf(s.cache, t) && id in s.store.committed
    requires s.store.committed[id].id == id
    requires id in s.cache.global ==> s.cache.global[id] == s.store.committed[id]
    requires id in s.store.open[t] && s.store.open[t][id] != s.store.committed[id]
    ensures !Transparent(s)
  {
    var outside := Read(id, None, false);
    WrongAnswer(Step(s, outside), id, Some(t));
    ShowsLater(s, outside);
  }

  /** After a write without a cache insert, inside a transaction or outside, its reader gets something else
      than the store holds exactly when the cache held another contract for it. Applying a contract that
      exists is such a write (drive/src/drive/contract/mod.rs:806-834). */
  lemma StaleAfterUnpairedWrite(s: State, contract: Contract, on: Option<TxId>, charge: bool)
    requires IsOpen(s.store, on)
    ensures var s' := Step(s, Create(contract, on));
            var cached := Lookup(s.cache, contract.id, on);
            Answer(s', Read(contract.id, on, charge)) != Fetch(s'.store, contract.id, on) <==>
            cached.Some? && cached.value != contract
  {
  }

  lemma CreateNoticed(s: State, contract: Contract, on: Option<TxId>)
    requires Coherent(s) && IsOpen(s.store, on) && !Allowed(s, Create(contract, on))
    ensures !Transparent(Step(s, Create(contract, on)))
  {
    var s', id := Step(s, Create(contract, on)), contract.id;
    var cached := Lookup(s.cache, id, on);
    if cached.Some? && cached.value != contract {
      StaleAfterUnpairedWrite(s, contract, on, false);
      WrongAnswer(s', id, on);
    } else if !Harmless(s, contract, on) {
      OutsideThenInside(s', id, on.value);
    } else {
      var t :| t in s.store.open && !Indifferent(s, contract, t);
      CommittedNoticed(s, s', contract, t);
    }
  }

  /** A contract committed beside a transaction that is not indifferent to it. */
  lemma CommittedNoticed(s: State, s': State, contract: Contract, t: TxId)
    requires Coherent(s) && t in s.store.open && !Indifferent(s, contract, t)
    requires t in s'.store.open && s'.store.open[t] == s.store.open[t] && LayerOf(s'.cache, t) == LayerOf(s.cache, t)
    requires contract.id in s'.store.committed && s'.store.committed[contract.id] == contract
    requires contract.id in s'.cache.global ==> s'.cache.global[contract.id] == contract
    ensures !Transparent(s')
  {
    if contract.id in LayerOf(s.cache, t) {
      WrongAnswer(s', contract.id, Some(t));
    } else {
      OutsideThenInside(s', contract.id, t);
    }
  }

  lemma CommitNoticed(s: State, tx: TxId)
    requires Coherent(s) && tx in s.store.open && !CommitsQuietly(s, tx)
    ensures !Transparent(Step(s, Commit(tx, tx)))
  {
    var t, id :| t in s.store.open && t != tx && id in s.store.open[tx] && !Indifferent(s, s.store.open[tx][id], t);
    assert Keyed(s.store.open[tx]);
    assert LayerAgrees(s, tx) && LayerAgreesAt(s, tx, id);
    CommittedNoticed(s, Step(s, Commit(tx, tx)), s.store.open[tx][id], t);
  }

  lemma FinalizeNoticed(s: State)
    requires Coherent(s) && !NothingReplaced(s.store)
    ensures !Transparent(Step(s, Finalize))
  {
    var t, id :| t in s.store.open && id in s.store.open[t] && id in s.store.committed &&
                 s.store.open[t][id] != s.store.committed[id];
    OutsideThenInside(Step(s, Finalize), id, t);
  }

  /** From any coherent state a possible event goes unnoticed by every allowed continuation exactly when it is
      allowed: the conditions on writes, commits and finalization are all needed, and together enough. */
  lemma UnnoticedExactlyWhenAllowed(s: State, e: Event)
    requires Coherent(s) && Possible(s, e)
    ensures Transparent(Step(s, e)) <==> Allowed(s, e)
  {
    if Allowed(s, e) {
      StepCoherent(s, e);
      CoherentIsTransparent(Step(s, e));
    } else {
      match e
      case Create(contract, on) => CreateNoticed(s, contract, on);
      case Update(contract, on) =>
        var t :| t in s.store.open && !Indifferent(s, contract, t);
        CommittedNoticed(s, Step(s, e), contract, t);
      case Commit(tx, _) => CommitNoticed(s, tx);
      case Finalize => FinalizeNoticed(s);
    }
  }

  /** In particular a write without a cache insert: exactly when it is harmless and, outside a transaction,
      all open ones are indifferent. */
  lemma UnpairedWriteUnnoticed(s: State, contract: Contract, on: Option<TxId>)
    requires Coherent(s) && IsOpen(s.store, on)
    ensures Transparent(Step(s, Create(contract, on))) <==>
            Harmless(s, contract, on) && (on.None? ==> AllIndifferent(s, contract))
  {
    UnnoticedExactlyWhenAllowed(s, Create(contract, on));
  }

  /** A write beside open transactions: exactly when all of them are indifferent to the contract. */
  lemma DirectWriteUnnoticed(s: State, contract: Contract)
    requires Coherent(s)
    ensures Transparent(Step(s, Update(contract, None))) <==> AllIndifferent(s, contract)
  {
    UnnoticedExactlyWhenAllowed(s, Update(contract, None));
  }

  /** A commit: exactly when all other open transactions are indifferent to everything it wrote. */
  lemma CommitUnnoticed(s: State, tx: TxId)
    requires Coherent(s) && tx in s.store.open
    ensures Transparent(Step(s, Commit(tx, tx))) <==> CommitsQuietly(s, tx)
  {
    UnnoticedExactlyWhenAllowed(s, Commit(tx, tx));
  }

  /** Finalizing a block, which drops all layers: exactly when no open transaction has replaced anything. */
  lemma FinalizeUnnoticed(s: State)
    requires Coherent(s)
    ensures Transparent(Step(s, Finalize)) <==> NothingReplaced(s.store)
  {
    UnnoticedExactlyWhenAllowed(s, Finalize);
  }

  /** A transaction that loses from its layer a contract it overwrote reads the old one from the global layer. */
  lemma StaleAfterLoss(s: State, t: TxId, id: ContractId)
    requires Coherent(s) && t in s.store.open && id in s.store.open[t]
    requires id in s.cache.global && s.cache.global[id] != s.store.open[t][id]
    ensures var s' := Step(s, Finalize);
            Answer(s', Read(id, Some(t), false)) != Fetch(s'.store, id, Some(t))
  {
  }

  // ---------- When the identifier changes ----------

  /** The end of a transaction whose identifier has changed since it was used leaves its layer behind. With no
      other transaction open, that goes unnoticed exactly when the layer is empty: otherwise the next
      transaction with the old identifier reads what has since been replaced. */
  lemma MovedUnnoticedExactly(s: State, e: Event, t: TxId, u: TxId)
    requires Coherent(s) && s.store.open.Keys == {t} && u != t
    requires e in {Commit(t, u), Rollback(t, u), Abort(t, u)}
    ensures Transparent(Step(s, e)) <==> LayerOf(s.cache, t) == map[]
  {
    if LayerOf(s.cache, t) == map[] {
      MovedEmpty(s, e, t, u);
      CoherentIsTransparent(Step(s, e));
    } else {
      var id :| id in LayerOf(s.cache, t);
      LayerLeft(Step(s, e), t, id);
    }
  }

  lemma MovedEmpty(s: State, e: Event, t: TxId, u: TxId)
    requires Coherent(s) && s.store.open.Keys == {t} && u != t && LayerOf(s.cache, t) == map[]
    requires e in {Commit(t, u), Rollback(t, u), Abort(t, u)}
    ensures Coherent(Step(s, e))
  {
    StepKeyed(s, e);
    forall id | id in s.cache.global ensures id in s.store.open[t] ==> s.store.open[t][id] == s.store.committed[id] {
      assert LayerAgrees(s, t) && LayerAgreesAt(s, t, id);
    }
    forall v ensures LayerOf(Step(s, e).cache, v) == map[] {
      assert v == t || LayerOf(s.cache, v) == map[];
    }
  }

  /** A layer left behind shows once its contract is replaced and its identifier is used again. */
  lemma LayerLeft(s: State, t: TxId, id: ContractId)
    requires s.store.open == map[] && id in LayerOf(s.cache, t)
    ensures !Transparent(s)
  {
    var other := Contract(id, LayerOf(s.cache, t)[id].content + [0]);
    var s1 := Step(s, Update(other, None));
    var s2 := Step(s1, Start(t));
    assert Fetch(s2.store, id, Some(t)) == Some(other);
    assert |other.content| != |LayerOf(s.cache, t)[id].content|;
    assert Lookup(s2.cache, id, Some(t)) == Some(LayerOf(s.cache, t)[id]);
    WrongAnswer(s2, id, Some(t));
    ShowsLater(s1, Start(t));
    ShowsLater(s, Update(other, None));
  }

  /** In particular a contract that the transaction overwrote stays in the global layer, and is read at once. */
  lemma StaleAfterMove(s: State, t: TxId, u: TxId, id: ContractId)
    requires Coherent(s) && t in s.store.open && u !in s.store.open && id in s.store.open[t]
    requires id in s.cache.global && s.cache.global[id] != s.store.open[t][id]
    ensures var s' := Step(s, Commit(t, u));
            Answer(s', Read(id, None, false)) != Fetch(s'.store, id, None)
  {
  }

  // ---------- The message loop ----------

  datatype Message =
    | StartTransaction(tx: TxId)
    | CommitTransaction(tx: TxId)
    | RollbackTransaction(tx: TxId)
    | AbortTransaction(tx: TxId)

  /** The step that a message is, given the identifier by which the cache knows the transaction by then. */
  function EventOf(m: Message, known: TxId): Event
  {
    match m
    case StartTransaction(tx) => Start(tx)
    case CommitTransaction(tx) => Commit(tx, known)
    case RollbackTransaction(tx) => Rollback(tx, known)
    case AbortTransaction(tx) => Abort(tx, known)
  }

  /** The loop's own data: the open transactions, taken out of the map as they end, and the platform's store
      and cache. */
  class PlatformLoop {
    var transactions: map<TxId, Layer>
    var committed: Layer
    const cache: DataContractCache

    function Model(): State
      reads this, cache
    {
      State(Store(committed, transactions), cache.Model())
    }

    constructor ()
      ensures Model() == State(Store(map[], map[]), Cache(map[], map[])) && fresh(cache)
    {
      transactions := map[];
      committed := map[];
      cache := new DataContractCache();
    }

    /** A message on a transaction that is not in the map is answered with an error and changes nothing. The
        transaction is taken out of the map before the cache is told, so it may be `known` by another
        identifier by then. */
    method Handle(m: Message, known: TxId) returns (ok: bool)
      modifies this, cache
      ensures Model() == Step(old(Model()), EventOf(m, known))
      ensures ok <==> m.StartTransaction? || m.tx in old(transactions)
    {
      if m.StartTransaction? {
        transactions := transactions[m.tx := map[]];
        return true;
      }
      if m.tx !in transactions {
        assert transactions - {m.tx} == transactions;
        return false;
      }
      var transaction := transactions[m.tx];
      transactions := transactions - {m.tx};
      if m.CommitTransaction? {
        cache.MergeTransactionalCache(known);
        cache.ClearTransactionalCache(known);
        committed := committed + transaction;
      } else {
        cache.ClearTransactionalCache(known);
      }
      return true;
    }

    method Write(contract: Contract, on: Option<TxId>)
      modifies this
      ensures transactions == Written(old(Model()).store, contract, on).open
      ensures committed == Written(old(Model()).store, contract, on).committed
    {
      if on.None? {
        committed := committed[contract.id := contract];
      } else if on.value in transactions {
        transactions := transactions[on.value := transactions[on.value][contract.id := contract]];
      }
    }

    /** What a callback may do between two messages: write or read a contract, or finish a block. A read
        returns its answer. */
    method Callback(e: Event) returns (answer: Option<Contract>)
      requires e.Create? || e.Update? || e.Read? || e.Finalize?
      modifies this, cache
      ensures Model() == Step(old(Model()), e)
      ensures e.Read? ==> answer == Answer(old(Model()), e)
    {
      answer := None;
      match e
      case Create(contract, on) => Write(contract, on);
      case Update(contract, on) =>
        Write(contract, on);
        cache.Insert(contract, on);
      case Read(id, on, charge) =>
        answer := cache.Get(id, on);
        if answer.Some? {
          if charge {
            cache.Insert(answer.value, on);
          }
        } else {
          answer := Fetch(Store(committed, transactions), id, on);
          if answer.Some? {
            cache.Insert(answer.value, on);
          }
        }
      case Finalize => cache.ClearAllTransactionalCache();
    }
  }
}
