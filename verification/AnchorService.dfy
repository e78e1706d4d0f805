/** The anchor service as an object over its chain and its two stores
    (`AssetAnchor` in `mods/btc_anchor/anchor.py`). */
module AnchorService {
  import opened Options
  import opened Hashing
  import opened AnchorMerkle
  import opened Chain
  import opened Lifecycle
  import opened AnchorState
  import opened AnchorRuns

  class AssetAnchor {
    const cfg: Config
    const chain: SimulatedBitcoinChain
    var store: Store
    var observed: Observed

    function View(): ServiceState
      reads this, chain
    {
      ServiceState(chain.View(), store, observed)
    }

    ghost predicate Valid()
      reads this, chain
    {
      chain.hash == cfg.blockHash && ServiceInv(cfg, View())
    }

    constructor (cfg: Config, chain: SimulatedBitcoinChain)
      requires chain.Valid() && chain.hash == cfg.blockHash
      ensures Valid() && this.cfg == cfg && this.chain == chain
      ensures View() == ServiceState(chain.View(), map[], map[])
    {
      this.cfg := cfg;
      this.chain := chain;
      store := map[];
      observed := map[];
    }

    /** `record`; false when neither commitment nor manifest hash is given. */
    method Record(req: Request, requestBroadcast: bool) returns (ok: bool)
      requires Valid()
      modifies this
      ensures Valid()
      ensures ok <==> req.commitment != "" || req.manifestHash != ""
      ensures View() == Next(cfg, old(View()), RecordStep(req))
      ensures !ok ==> store == old(store)
      ensures ok ==> req.assetId in store && store[req.assetId].status == COMMITMENT_PENDING
    {
      hide Linked, Retained;
      ghost var before := View();
      NextKeepsInv(cfg, before, RecordStep(req));
      if !CanRecord(req) {
        return false;
      }
      NotEmpty(cfg.blockHash, chain.View());
      store := store[req.assetId := NewRecord(cfg, chain.View(), req)];
      if requestBroadcast {
        var found := RequestBroadcast(req.assetId, store[req.assetId].commitment);
        assert store == Next(cfg, before, RecordStep(req)).store;
      }
      ok := true;
    }

    /** `request_broadcast` without the queue entry it appends. */
    method RequestBroadcast(assetId: string, commitment: Text) returns (found: bool)
      requires Valid()
      modifies this
      ensures Valid() && View() == Next(cfg, old(View()), RequestStep(assetId, commitment))
      ensures found <==> commitment != "" || (assetId in old(store) && old(store)[assetId].commitment != "")
      ensures store
              == if found && assetId in old(store)
                    && old(store)[assetId].status in {COMMITMENT_PENDING, UNANCHORED, RE_ANCHOR_REQUIRED}
                 then old(store)[assetId := old(store)[assetId].(status := COMMITMENT_PENDING)] else old(store)
    {
      hide Linked, Retained;
      NextKeepsInv(cfg, View(), RequestStep(assetId, commitment));
      var used := commitment;
      if used == "" && assetId in store {
        used := store[assetId].commitment;
      }
      if used == "" {
        return false;
      }
      if assetId in store && store[assetId].status in {COMMITMENT_PENDING, UNANCHORED, RE_ANCHOR_REQUIRED} {
        var rec := store[assetId];
        store := store[assetId := rec.(status := Transition(rec.status, COMMITMENT_PENDING).value)];
      }
      found := true;
    }

    /** `mark_broadcast`; false when the transition raises. */
    method MarkBroadcast(assetId: string, txid: string) returns (ok: bool)
      requires Valid()
      modifies this
      ensures Valid() && observed == old(observed)
      ensures ok <==> assetId !in old(store) || old(store)[assetId].status !in {INCLUDED, CONFIRMED, REORGED}
      ensures ok && assetId in old(store) ==>
                store == old(store)[assetId := old(store)[assetId].(
                           status := BROADCAST, txid := txid, canonical := false, confirmations := 0)]
      ensures ok <==> MarkedBroadcast(old(store), assetId, txid).Some?
      ensures store == if ok then MarkedBroadcast(old(store), assetId, txid).value else old(store)
    {
      hide Linked, Retained, RecordInv;
      if assetId !in store {
        return true;
      }
      var rec := store[assetId];
      var status := Transition(rec.status, BROADCAST);
      if status.None? {
        return false;
      }
      MarkKeeps(cfg, store, assetId, txid);
      rec := rec.(status := status.value, txid := txid);
      rec := rec.(canonical := false, confirmations := 0);
      store := store[assetId := rec];
      ok := true;
    }

    /** `process_queue` over pending entries and the broadcaster's answers. */
    method ProcessQueue(items: seq<QueueItem>) returns (raised: bool)
      requires Valid()
      modifies this, chain
      ensures Valid()
      ensures (View(), raised) == QueueProcessed(old(View()), items)
    {
      hide Linked, Retained, MarkedBroadcast, RecordInv;
      ghost var before := View();
      for i := 0 to |items|
        invariant Valid()
        invariant QueueProcessed(View(), items[i..]) == QueueProcessed(before, items)
      {
        assert items[i..][1..] == items[i + 1..];
        var result := items[i].result;
        if result.ok && result.txid != "" {
          var ok := MarkBroadcast(items[i].assetId, result.txid);
          if !ok {
            return true;
          }
          chain.Submit(result.txid);
        }
      }
      raised := false;
    }

    /** `process_queue_batched` for the answer to the one broadcast. */
    method ProcessQueueBatched(pending: seq<(string, Text)>, result: BroadcastResult) returns (raised: bool)
      requires Valid()
      modifies this, chain
      ensures Valid()
      ensures (View(), raised) == BatchProcessed(cfg, old(View()), pending, result)
    {
      hide Linked, Retained, MarkedBroadcast, RecordInv, RootHex, ProofText;
      if pending == [] {
        return false;
      }
      var commitments := Commitments(pending);
      var root := CommitmentRoot(cfg.sha, commitments);
      if !result.ok || result.txid == "" {
        return false;
      }
      ghost var before := View();
      for i := 0 to |pending|
        invariant Valid() && chain.View() == before.chain && observed == before.observed
        invariant BatchMarked(cfg, before.store, pending, result.txid, i) == (store, false)
      {
        ghost var at := store;
        var proof := CommitmentProof(cfg.sha, commitments, i);
        var asset := pending[i].0;
        ProofKeeps(cfg, store, asset, root, proof.value);
        if asset in store {
          store := store[asset := store[asset].(merkleRoot := root, merkleProof := proof.value)];
        }
        assert store == WithProof(at, asset, root, proof.value);
        ghost var proved := store;
        var ok := MarkBroadcast(asset, result.txid);
        assert BatchMarked(cfg, before.store, pending, result.txid, i + 1)
            == (if ok then (MarkedBroadcast(proved, asset, result.txid).value, false) else (proved, true));
        if !ok {
          BatchStaysRaised(cfg, before.store, pending, result.txid, i + 1, |pending|);
          return true;
        }
      }
      chain.Submit(result.txid);
      raised := false;
    }

    /** `apply_chain_progress` over the listed assets. */
    method ApplyChainProgress(assets: seq<string>) returns (raised: bool)
      requires Valid() && NoRepeats(assets, store)
      modifies this
      ensures Valid() && !raised
      ensures View() == Progressed(cfg, old(View()), assets).0
    {
      hide Linked, Retained, SyncRecord, RecordInv, SyncOne;
      ghost var before := View();
      NotEmpty(cfg.blockHash, before.chain);
      for i := 0 to |assets|
        invariant Valid() && chain.View() == before.chain && store.Keys == before.store.Keys
        invariant Progressed(cfg, View(), assets[i..]).0 == Progressed(cfg, before, assets).0
      {
        ghost var at := View();
        assert assets[i..][0] == assets[i] && assets[i..][1..] == assets[i + 1..];
        OneSynced(cfg, at, assets[i]);
        var changed := SyncRecordWithChain(assets[i]);
      }
      raised := false;
    }

    /** `_sync_record_with_chain`, `_retain_observed` and `_store` for one asset. */
    method SyncRecordWithChain(assetId: string) returns (changed: bool)
      requires Valid() && assetId in store
      modifies this
      ensures Valid() && chain.View() == old(chain.View())
      ensures old(View()).chain.canonical != [] && SyncOne(cfg, old(View()), assetId) == Some(View())
    {
      hide Linked, Retained, SyncAbsent, SyncDisplaced, SyncPresent, Located, RecordInv;
      ghost var before := View();
      var st := chain.View();
      NotEmpty(cfg.blockHash, st);
      OneSynced(cfg, before, assetId);
      SyncIsGood(cfg, st, assetId, store[assetId]);
      var rec := store[assetId];
      if rec.txid == "" {
        return false;
      }
      var loc := chain.FindTx(rec.txid);
      var r: SyncResult;
      if loc.None? {
        r := SyncAbsent(rec);
      } else {
        rec := Located(cfg, st, rec, loc.value);
        r := if rec.canonical then SyncPresent(rec) else SyncDisplaced(rec);
      }
      assert r == SyncRecord(cfg, st, before.store[assetId]);
      if r.retained.Some? {
        observed := observed[ObservedKey(r.retained.value) := r.retained.value];
      }
      if r.changed {
        store := store[assetId := r.rec];
      }
      changed := r.changed;
    }
  }
}
