/** Which steps of the anchor service stay within the transition table
    (`mods/btc_anchor/lifecycle.py`, lines 54-62; `mods/btc_anchor/anchor.py`,
    lines 104-458).

    Main result: exactly two things leave it, a `record` over an anchor that was
    already broadcast and the demotion of a CONFIRMED anchor that is still on
    the chain (`StepFollowsTable`). */
module AnchorTable {
  import opened Hashing
  import opened AnchorMerkle
  import opened Chain
  import opened Lifecycle
  import opened AnchorState
  import opened AnchorRuns

  /** The step moves the stored record of `a` outside the table. */
  ghost predicate OffTable(cfg: Config, s: ServiceState, step: Step, a: string)
    requires s.chain.canonical != [] && a in s.store
  {
    var rec := s.store[a];
    match step
    case RecordStep(req) => CanRecord(req) && req.assetId == a && rec.status in {BROADCAST, INCLUDED, CONFIRMED}
    case SyncStep(assets) =>
      && ListsAll(assets, s.store) && rec.status == CONFIRMED
      && TxLocation(s.chain, rec.txid).Some? && Depth(s.chain, rec.txid) < EffectiveDepth(cfg.depth)
    case _ => false
  }

  lemma WithinFacts(status: Status)
    ensures WithinTable(status, status)
    ensures CanTransition(status, BROADCAST) ==> WithinTable(status, BROADCAST)
    ensures status in {COMMITMENT_PENDING, UNANCHORED, REORGED, RE_ANCHOR_REQUIRED} ==> WithinTable(status, COMMITMENT_PENDING)
    ensures status in {BROADCAST, INCLUDED, CONFIRMED} ==> !WithinTable(status, COMMITMENT_PENDING)
  {
    assert CanTransition(REORGED, RE_ANCHOR_REQUIRED) && CanTransition(RE_ANCHOR_REQUIRED, COMMITMENT_PENDING);
  }

  /** A record that is marked, or not. */
  ghost predicate MarkedOrNot(before: Status, now: Status) {
    now == before || (now == BROADCAST && CanTransition(before, BROADCAST))
  }

  lemma MarkStatus(store: Store, assetId: string, txid: string, a: string)
    requires a in store && MarkedBroadcast(store, assetId, txid).Some?
    ensures var r := MarkedBroadcast(store, assetId, txid).value; a in r && MarkedOrNot(store[a].status, r[a].status)
  {
  }

  lemma {:induction false} QueueStatus(s: ServiceState, items: seq<QueueItem>, a: string)
    requires a in s.store
    ensures var r := QueueProcessed(s, items).0.store; a in r && MarkedOrNot(s.store[a].status, r[a].status)
    decreases |items|
  {
    hide MarkedBroadcast;
    if items != [] {
      var item := items[0];
      if item.result.Sent() {
        var marked := MarkedBroadcast(s.store, item.assetId, item.result.txid);
        if marked.Some? {
          MarkStatus(s.store, item.assetId, item.result.txid, a);
          QueueStatus(s.(store := marked.value, chain := SubmitTx(s.chain, item.result.txid)), items[1..], a);
        }
      } else {
        QueueStatus(s, items[1..], a);
      }
    }
  }

  lemma {:induction false} BatchStatus(cfg: Config, store: Store, items: seq<(string, Text)>, txid: string, n: nat, a: string)
    requires n <= |items| && a in store
    ensures var r := BatchMarked(cfg, store, items, txid, n).0; a in r && MarkedOrNot(store[a].status, r[a].status)
    decreases n
  {
    hide MarkedBroadcast, RootHex, ProofText;
    if n > 0 {
      BatchStatus(cfg, store, items, txid, n - 1, a);
      var (before, raised) := BatchMarked(cfg, store, items, txid, n - 1);
      if !raised {
        var cs := Commitments(items);
        var proved := WithProof(before, items[n - 1].0, RootHex(cfg.sha, cs), ProofText(cfg.sha, cs, n - 1));
        if MarkedBroadcast(proved, items[n - 1].0, txid).Some? {
          MarkStatus(proved, items[n - 1].0, txid, a);
        }
      }
    }
  }

  lemma SyncStatus(cfg: Config, s: ServiceState, assets: seq<string>, a: string)
    requires ServiceInv(cfg, s) && s.chain.canonical != [] && NoCollision(s.chain)
    requires ListsAll(assets, s.store) && a in s.store
    ensures var r := Next(cfg, s, SyncStep(assets)).store;
            && a in r
            && (WithinTable(s.store[a].status, r[a].status) <==> !OffTable(cfg, s, SyncStep(assets), a))
  {
    hide ChainInv, NoCollision, TxLocation, Depth, SyncRecord, RecordInv, WithinTable;
    ProgressedStore(cfg, s, assets);
    SyncFollowsTable(cfg, s.chain, a, s.store[a]);
    SyncedRec(cfg, s.chain, a, s.store[a]);
  }

  /** Every step moves every stored record within the table, except for the two
      cases of `OffTable`. */
  lemma StepFollowsTable(cfg: Config, s: ServiceState, step: Step, a: string)
    requires ServiceInv(cfg, s) && s.chain.canonical != [] && a in s.store
    requires step.SyncStep? ==> NoCollision(s.chain)
    ensures var r := Next(cfg, s, step).store;
            && a in r
            && (WithinTable(s.store[a].status, r[a].status) <==> !OffTable(cfg, s, step, a))
  {
    hide ChainInv, NoCollision, TxLocation, Depth, RecordInv, WithinTable, QueueProcessed, BatchMarked, Progressed;
    WithinFacts(s.store[a].status);
    match step
    case RecordStep(req) =>
    case RequestStep(b, commitment) =>
    case QueueStep(items) => QueueStatus(s, items, a);
    case BatchStep(pending, result) => BatchStatus(cfg, s.store, pending, result.txid, |pending|, a);
    case OnChain(cs) =>
    case SyncStep(assets) =>
      if ListsAll(assets, s.store) {
        SyncStatus(cfg, s, assets, a);
      }
  }
}
