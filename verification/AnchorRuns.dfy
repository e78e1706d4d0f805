/** What every run of the anchor service over a reorganising chain keeps
    (`mods/btc_anchor/anchor.py`, lines 104-482).

    Main results: directly after a synchronisation the status of a record with
    a transaction is decided by the chain alone (`SyncDecides`); nothing but a
    synchronisation raises a record to INCLUDED or CONFIRMED (`OnlySyncRaises`);
    synchronising twice is synchronising once (`SyncIsIdempotent`). */
module AnchorRuns {
  import opened ByteStrings
  import opened Options
  import opened Hashing
  import opened MerkleTree
  import opened AnchorMerkle
  import opened Chain
  import opened Lifecycle
  import opened AnchorState

  // ----- the invariant -----

  ghost predicate RecordInv(cfg: Config, assetId: string, rec: AnchorRecord) {
    && rec.assetId == assetId
    && rec.status in {COMMITMENT_PENDING, BROADCAST, INCLUDED, CONFIRMED, RE_ANCHOR_REQUIRED}
    && rec.confirmationDepth == EffectiveDepth(cfg.depth)
    && rec.artifactEpoch.Some?
    && (rec.status in {INCLUDED, CONFIRMED} ==> rec.txid != "" && rec.btcHeight.Some? && rec.canonical)
    && (rec.status !in {INCLUDED, CONFIRMED} ==> !rec.canonical && rec.confirmations == 0)
  }

  ghost predicate StoreInv(cfg: Config, store: Store) {
    forall a :: a in store ==> RecordInv(cfg, a, store[a])
  }

  ghost predicate ServiceInv(cfg: Config, s: ServiceState) {
    ChainInv(cfg.blockHash, s.chain) && StoreInv(cfg, s.store)
  }

  // ----- one record -----

  /** The record and the copy that a synchronisation of one record produces. */
  function After(r: SyncResult, rec: AnchorRecord): AnchorRecord {
    if r.Synced? then r.rec else rec
  }

  function Left(r: SyncResult): Option<AnchorRecord> {
    if r.Synced? then r.retained else None
  }

  /** What does not depend on the branch taken. */
  ghost predicate GoodSync(cfg: Config, assetId: string, rec: AnchorRecord, r: SyncResult) {
    && r.Synced?
    && RecordInv(cfg, assetId, r.rec)
    && r.rec.txid == rec.txid
    && (!r.changed ==> r.rec == rec)
    && (r.retained.Some? ==>
         && r.retained.value.assetId == assetId && r.retained.value.txid == rec.txid
         && !r.retained.value.canonical && r.retained.value.status == rec.status)
    && (rec.status in {INCLUDED, CONFIRMED} && r.rec.status == RE_ANCHOR_REQUIRED ==> r.retained.Some?)
  }

  lemma DroppedStatus(status: Status)
    requires status in {INCLUDED, CONFIRMED}
    ensures Dropped(status) == Some(RE_ANCHOR_REQUIRED)
  {
  }

  lemma GoodAbsent(cfg: Config, assetId: string, rec: AnchorRecord)
    requires RecordInv(cfg, assetId, rec)
    ensures GoodSync(cfg, assetId, rec, SyncAbsent(rec))
  {
    hide Dropped;
    if rec.status in {INCLUDED, CONFIRMED} {
      DroppedStatus(rec.status);
    }
  }

  /** A record of which only coordinates, depth and canonicity may differ. */
  ghost predicate Relocated(rec: AnchorRecord, located: AnchorRecord) {
    && located.assetId == rec.assetId && located.status == rec.status && located.txid == rec.txid
    && located.confirmationDepth == rec.confirmationDepth && located.artifactEpoch == rec.artifactEpoch
    && located.btcHeight.Some?
  }

  lemma GoodDisplaced(cfg: Config, assetId: string, rec: AnchorRecord, located: AnchorRecord)
    requires RecordInv(cfg, assetId, rec) && Relocated(rec, located)
    requires !located.canonical && located.confirmations == 0
    ensures GoodSync(cfg, assetId, rec, SyncDisplaced(located))
  {
    hide Dropped;
    if rec.status in {INCLUDED, CONFIRMED} {
      DroppedStatus(rec.status);
    }
  }

  lemma GoodPresent(cfg: Config, assetId: string, rec: AnchorRecord, located: AnchorRecord)
    requires RecordInv(cfg, assetId, rec) && Relocated(rec, located)
    requires located.canonical && located.txid != ""
    ensures GoodSync(cfg, assetId, rec, SyncPresent(located))
    ensures var r := SyncPresent(located);
            && (r.rec.status == CONFIRMED <==> located.confirmations >= located.confirmationDepth)
            && (r.rec.status == INCLUDED <==> located.confirmations < located.confirmationDepth)
            && r.rec == located.(status := r.rec.status)
            && r.retained.None?
  {
  }

  lemma LocatedFacts(cfg: Config, st: ChainState, rec: AnchorRecord, loc: Block)
    requires st.canonical != []
    ensures Relocated(rec, Located(cfg, st, rec, loc))
    ensures !Located(cfg, st, rec, loc).canonical ==> Located(cfg, st, rec, loc).confirmations == 0
  {
    hide IsCanonical, Confirmations;
  }

  /** Synchronising one record never raises and keeps its invariant. */
  lemma SyncIsGood(cfg: Config, st: ChainState, assetId: string, rec: AnchorRecord)
    requires st.canonical != [] && RecordInv(cfg, assetId, rec)
    ensures GoodSync(cfg, assetId, rec, SyncRecord(cfg, st, rec))
  {
    hide Located, SyncPresent, SyncDisplaced, SyncAbsent, TxLocation;
    if rec.txid != "" {
      var loc := TxLocation(st, rec.txid);
      if loc.None? {
        GoodAbsent(cfg, assetId, rec);
      } else {
        var located := Located(cfg, st, rec, loc.value);
        LocatedFacts(cfg, st, rec, loc.value);
        if located.canonical {
          GoodPresent(cfg, assetId, rec, located);
        } else {
          GoodDisplaced(cfg, assetId, rec, located);
        }
      }
    }
  }

  /** The canonical block that decides about a transaction. */
  lemma LocationIsCanonical(hash: BlockHash, st: ChainState, txid: string)
    requires ChainInv(hash, st) && NoCollision(st) && TxLocation(st, txid).Some?
    ensures var loc := TxLocation(st, txid).value;
            && loc in st.canonical && txid in loc.txs
            && IsCanonical(st, loc.blockHash)
            && Confirmations(st, loc.blockHash) == st.Tip().height - loc.height + 1
  {
    hide Linked, Retained, NoCollision, IsCanonical, Confirmations;
    QueriesAgree(hash, st, TxLocation(st, txid).value.blockHash);
  }

  /** How deep the transaction is buried; zero when it is not on the chain. */
  function Depth(st: ChainState, txid: string): int
    requires st.canonical != []
  {
    var loc := TxLocation(st, txid);
    if loc.None? then 0 else st.Tip().height - loc.value.height + 1
  }

  /** The record agrees with the chain: what a synchronisation establishes. */
  ghost predicate InStep(cfg: Config, st: ChainState, rec: AnchorRecord)
    requires st.canonical != []
  {
    var loc := TxLocation(st, rec.txid);
    rec.txid != "" ==>
      && (rec.status == CONFIRMED <==> loc.Some? && Depth(st, rec.txid) >= EffectiveDepth(cfg.depth))
      && (rec.status == INCLUDED <==> loc.Some? && Depth(st, rec.txid) < EffectiveDepth(cfg.depth))
      && (loc.Some? ==>
           && rec.btcHeight == Some(loc.value.height) && rec.btcBlockHash == loc.value.blockHash
           && rec.btcWork == Some(loc.value.work) && rec.includedAt == Some(loc.value.timestamp)
           && (rec.manifestHash != "" && rec.commitment != "" ==>
                rec.anchorId == Some(cfg.deriveAnchorId(rec.assetId, rec.manifestHash, rec.btcBlockHash, rec.commitment))))
      && (rec.canonical <==> loc.Some?) && rec.confirmations == Depth(st, rec.txid)
  }

  lemma SyncDecidesRecord(cfg: Config, st: ChainState, assetId: string, rec: AnchorRecord)
    requires ChainInv(cfg.blockHash, st) && NoCollision(st) && RecordInv(cfg, assetId, rec)
    ensures st.canonical != []
    ensures GoodSync(cfg, assetId, rec, SyncRecord(cfg, st, rec))
    ensures InStep(cfg, st, SyncRecord(cfg, st, rec).rec)
    ensures rec.txid != "" && TxLocation(st, rec.txid).Some? ==>
              && SyncRecord(cfg, st, rec) == SyncPresent(Located(cfg, st, rec, TxLocation(st, rec.txid).value))
              && Left(SyncRecord(cfg, st, rec)).None?
  {
    hide ChainInv, NoCollision, IsCanonical, Confirmations, TxLocation, SyncPresent, SyncDisplaced;
    NotEmpty(cfg.blockHash, st);
    SyncIsGood(cfg, st, assetId, rec);
    if rec.txid != "" && TxLocation(st, rec.txid).Some? {
      var loc := TxLocation(st, rec.txid).value;
      LocationIsCanonical(cfg.blockHash, st, rec.txid);
      LocatedFacts(cfg, st, rec, loc);
      GoodPresent(cfg, assetId, rec, Located(cfg, st, rec, loc));
    }
  }

  /** What one synchronisation makes of a record.  Off the chain, an INCLUDED or
      CONFIRMED one must be anchored anew and is reset, and any other stays as it
      is; on the chain, it gets the coordinates of the block and the status that
      the depth dictates. */
  lemma SyncOutcome(cfg: Config, st: ChainState, assetId: string, rec: AnchorRecord)
    requires ChainInv(cfg.blockHash, st) && NoCollision(st) && RecordInv(cfg, assetId, rec)
    ensures st.canonical != [] && SyncRecord(cfg, st, rec).Synced?
    ensures var r, loc := SyncRecord(cfg, st, rec).rec, TxLocation(st, rec.txid);
            if rec.txid == "" || (loc.None? && rec.status !in {INCLUDED, CONFIRMED}) then r == rec
            else if loc.None? then
              r == rec.(status := RE_ANCHOR_REQUIRED, canonical := false, confirmations := 0, observed := true)
            else
              r == rec.(status := if Depth(st, rec.txid) >= EffectiveDepth(cfg.depth) then CONFIRMED else INCLUDED,
                        btcHeight := Some(loc.value.height), btcBlockHash := loc.value.blockHash,
                        btcWork := Some(loc.value.work), includedAt := Some(loc.value.timestamp),
                        canonical := true, confirmations := Depth(st, rec.txid),
                        anchorId := if rec.manifestHash == "" || rec.commitment == "" then rec.anchorId
                                    else Some(cfg.deriveAnchorId(rec.assetId, rec.manifestHash, loc.value.blockHash,
                                                                 rec.commitment)))
    ensures Left(SyncRecord(cfg, st, rec))
            == if rec.txid != "" && TxLocation(st, rec.txid).None? && rec.status in {INCLUDED, CONFIRMED}
               then Some(rec.(canonical := false, observed := true)) else None
  {
    hide ChainInv, NoCollision, IsCanonical, Confirmations, TxLocation, SyncPresent, SyncDisplaced;
    NotEmpty(cfg.blockHash, st);
    SyncDecidesRecord(cfg, st, assetId, rec);
    if rec.txid != "" && TxLocation(st, rec.txid).Some? {
      var loc := TxLocation(st, rec.txid).value;
      LocationIsCanonical(cfg.blockHash, st, rec.txid);
      LocatedFacts(cfg, st, rec, loc);
      GoodPresent(cfg, assetId, rec, Located(cfg, st, rec, loc));
    }
  }

  /** Synchronising a synchronised record changes nothing. */
  lemma SyncSettled(cfg: Config, st: ChainState, assetId: string, rec: AnchorRecord)
    requires ChainInv(cfg.blockHash, st) && NoCollision(st) && RecordInv(cfg, assetId, rec)
    ensures st.canonical != []
    ensures var once := After(SyncRecord(cfg, st, rec), rec);
            && After(SyncRecord(cfg, st, once), once) == once
            && Left(SyncRecord(cfg, st, once)).None?
  {
    hide ChainInv, NoCollision, IsCanonical, Confirmations, TxLocation, SyncPresent, SyncDisplaced;
    NotEmpty(cfg.blockHash, st);
    SyncDecidesRecord(cfg, st, assetId, rec);
    var once := SyncRecord(cfg, st, rec).rec;
    SyncDecidesRecord(cfg, st, assetId, once);
    if rec.txid != "" && TxLocation(st, rec.txid).Some? {
      var loc := TxLocation(st, rec.txid).value;
      var located := Located(cfg, st, rec, loc);
      LocationIsCanonical(cfg.blockHash, st, rec.txid);
      LocatedFacts(cfg, st, rec, loc);
      GoodPresent(cfg, assetId, rec, located);
      var again := Located(cfg, st, once, loc);
      assert again == once;
      LocatedFacts(cfg, st, once, loc);
      GoodPresent(cfg, assetId, once, again);
    }
  }

  /** At most two transitions of the table. */
  ghost predicate WithinTable(src: Status, dst: Status) {
    CanTransition(src, dst) || exists mid :: CanTransition(src, mid) && CanTransition(mid, dst)
  }

  lemma DemotionIsOffTable()
    ensures !WithinTable(CONFIRMED, INCLUDED)
  {
  }

  /** A synchronisation follows the transition table except for a confirmed
      record whose block is still canonical but no longer deep enough: it goes
      back to INCLUDED, which the table does not provide for. */
  lemma SyncFollowsTable(cfg: Config, st: ChainState, assetId: string, rec: AnchorRecord)
    requires ChainInv(cfg.blockHash, st) && NoCollision(st) && RecordInv(cfg, assetId, rec)
    ensures st.canonical != [] && SyncRecord(cfg, st, rec).Synced?
    ensures WithinTable(rec.status, SyncRecord(cfg, st, rec).rec.status)
       <==> !(rec.status == CONFIRMED && TxLocation(st, rec.txid).Some? && Depth(st, rec.txid) < EffectiveDepth(cfg.depth))
  {
    hide ChainInv, NoCollision, IsCanonical, Confirmations, TxLocation, Located, Depth;
    NotEmpty(cfg.blockHash, st);
    DemotionIsOffTable();
    SyncDecidesRecord(cfg, st, assetId, rec);
    var dst := SyncRecord(cfg, st, rec).rec.status;
    if rec.txid != "" && TxLocation(st, rec.txid).Some? {
      hide SyncRecord;
      assert CanTransition(rec.status, INCLUDED) || rec.status == CONFIRMED;
      assert CanTransition(INCLUDED, CONFIRMED);
    } else {
      assert dst == rec.status || dst == RE_ANCHOR_REQUIRED;
      assert CanTransition(INCLUDED, REORGED) && CanTransition(CONFIRMED, REORGED);
      assert CanTransition(REORGED, RE_ANCHOR_REQUIRED);
    }
  }

  // ----- one synchronisation -----

  predicate NoRepeats(assets: seq<string>, store: Store) {
    && (forall i :: 0 <= i < |assets| ==> assets[i] in store)
    && forall i, j :: 0 <= i < j < |assets| ==> assets[i] != assets[j]
  }

  ghost predicate HasCopy(observed: Observed, copy: AnchorRecord) {
    ObservedKey(copy) in observed && observed[ObservedKey(copy)] == copy
  }

  /** Every listed record is synchronised on its own and the others stay. */
  ghost predicate StoreFollowed(cfg: Config, s: ServiceState, assets: seq<string>, r: ServiceState)
    requires s.chain.canonical != []
  {
    && r.chain == s.chain && r.store.Keys == s.store.Keys
    && forall a :: a in s.store ==>
         r.store[a] == if a in assets then After(SyncRecord(cfg, s.chain, s.store[a]), s.store[a]) else s.store[a]
  }

  /** Observed copies are only added, one for every listed record that leaves
      one behind, and under no other asset. */
  ghost predicate CopiesFollowed(cfg: Config, s: ServiceState, assets: seq<string>, r: ServiceState)
    requires s.chain.canonical != []
  {
    && s.observed.Keys <= r.observed.Keys
    && (forall k :: k in s.observed && k.0 !in assets ==> r.observed[k] == s.observed[k])
    && (forall a :: a in assets && a in s.store && Left(SyncRecord(cfg, s.chain, s.store[a])).Some? ==>
         HasCopy(r.observed, Left(SyncRecord(cfg, s.chain, s.store[a])).value))
    && ((forall a :: a in assets && a in s.store ==> Left(SyncRecord(cfg, s.chain, s.store[a])).None?) ==>
         r.observed == s.observed)
  }

  lemma OneSynced(cfg: Config, s: ServiceState, a: string)
    requires s.chain.canonical != [] && StoreInv(cfg, s.store) && a in s.store
    ensures SyncOne(cfg, s, a).Some?
    ensures var next := SyncOne(cfg, s, a).value;
            var r := SyncRecord(cfg, s.chain, s.store[a]);
            && next.chain == s.chain && next.store == s.store[a := After(r, s.store[a])]
            && StoreInv(cfg, next.store)
            && next.observed == (if Left(r).Some? then s.observed[ObservedKey(Left(r).value) := Left(r).value]
                                 else s.observed)
            && (Left(r).Some? ==> ObservedKey(Left(r).value).0 == a)
  {
    hide SyncRecord, RecordInv;
    SyncIsGood(cfg, s.chain, a, s.store[a]);
  }

  lemma Unlist(assets: seq<string>, store: Store)
    requires assets != [] && NoRepeats(assets, store)
    ensures NoRepeats(assets[1..], store) && assets[0] !in assets[1..]
    ensures forall b :: b in assets <==> b == assets[0] || b in assets[1..]
  {
  }

  lemma {:induction false} ProgressedStore(cfg: Config, s: ServiceState, assets: seq<string>)
    requires s.chain.canonical != [] && StoreInv(cfg, s.store) && NoRepeats(assets, s.store)
    ensures !Progressed(cfg, s, assets).1
    ensures StoreFollowed(cfg, s, assets, Progressed(cfg, s, assets).0)
    ensures StoreInv(cfg, Progressed(cfg, s, assets).0.store)
    decreases |assets|
  {
    hide SyncRecord, RecordInv, SyncOne;
    if assets != [] {
      OneSynced(cfg, s, assets[0]);
      Unlist(assets, s.store);
      var next := SyncOne(cfg, s, assets[0]).value;
      assert NoRepeats(assets[1..], next.store);
      ProgressedStore(cfg, next, assets[1..]);
    }
  }

  lemma CopiesStep(cfg: Config, s: ServiceState, next: ServiceState, assets: seq<string>, r: ServiceState)
    requires s.chain.canonical != [] && StoreInv(cfg, s.store) && NoRepeats(assets, s.store) && assets != []
    requires SyncOne(cfg, s, assets[0]) == Some(next) && next.chain == s.chain
    requires CopiesFollowed(cfg, next, assets[1..], r)
    ensures CopiesFollowed(cfg, s, assets, r)
  {
    hide SyncRecord, RecordInv, SyncOne, ObservedKey;
    var a := assets[0];
    OneSynced(cfg, s, a);
    Unlist(assets, s.store);
    var left := Left(SyncRecord(cfg, s.chain, s.store[a]));
    forall k | k in s.observed && k.0 !in assets
      ensures r.observed[k] == s.observed[k]
    {
      assert k in next.observed && k.0 !in assets[1..];
    }
    if left.Some? {
      assert ObservedKey(left.value) in next.observed && ObservedKey(left.value).0 !in assets[1..];
    }
    forall b | b in assets && b in s.store && Left(SyncRecord(cfg, s.chain, s.store[b])).Some?
      ensures HasCopy(r.observed, Left(SyncRecord(cfg, s.chain, s.store[b])).value)
    {
      if b != a {
        assert b in assets[1..] && next.store[b] == s.store[b];
      }
    }
    if forall b :: b in assets && b in s.store ==> Left(SyncRecord(cfg, s.chain, s.store[b])).None? {
      assert left.None?;
      assert forall b :: b in assets[1..] && b in next.store ==> next.store[b] == s.store[b];
    }
  }

  lemma NothingFollowed(cfg: Config, s: ServiceState)
    requires s.chain.canonical != []
    ensures CopiesFollowed(cfg, s, [], s)
  {
  }

  lemma {:induction false} ProgressedCopies(cfg: Config, s: ServiceState, assets: seq<string>)
    requires s.chain.canonical != [] && StoreInv(cfg, s.store) && NoRepeats(assets, s.store)
    ensures CopiesFollowed(cfg, s, assets, Progressed(cfg, s, assets).0)
    decreases |assets|
  {
    hide SyncRecord, RecordInv, SyncOne, CopiesFollowed;
    if assets == [] {
      NothingFollowed(cfg, s);
    } else {
      OneSynced(cfg, s, assets[0]);
      Unlist(assets, s.store);
      var next := SyncOne(cfg, s, assets[0]).value;
      assert NoRepeats(assets[1..], next.store);
      ProgressedCopies(cfg, next, assets[1..]);
      CopiesStep(cfg, s, next, assets, Progressed(cfg, s, assets).0);
    }
  }

  // ----- runs -----

  datatype Step =
    | RecordStep(req: Request)
    | RequestStep(assetId: string, commitment: Text)
    | QueueStep(items: seq<QueueItem>)
    | BatchStep(pending: seq<(string, Text)>, result: BroadcastResult)
    | OnChain(step: ChainStep)
    | SyncStep(assets: seq<string>)

  /** The listing names every stored asset once. */
  predicate ListsAll(assets: seq<string>, store: Store) {
    NoRepeats(assets, store) && forall a :: a in store ==> a in assets
  }

  /** One call of the service or of the chain.  A call that raises at once
      changes nothing; a synchronisation sees every stored record. */
  function Next(cfg: Config, s: ServiceState, step: Step): ServiceState
    requires Linked(cfg.blockHash, s.chain)
  {
    match step
    case RecordStep(req) =>
      if CanRecord(req) then s.(store := s.store[req.assetId := NewRecord(cfg, s.chain, req)]) else s
    case RequestStep(a, commitment) =>
      if commitment != "" || (a in s.store && s.store[a].commitment != "") then
        s.(store := RequestedBroadcast(s.store, a))
      else s
    case QueueStep(items) => QueueProcessed(s, items).0
    case BatchStep(pending, result) => BatchProcessed(cfg, s, pending, result).0
    case OnChain(cs) => s.(chain := ChainNext(cfg.blockHash, s.chain, cs))
    case SyncStep(assets) => if ListsAll(assets, s.store) then Progressed(cfg, s, assets).0 else s
  }

  ghost predicate Raised(status: Status) {
    status in {INCLUDED, CONFIRMED}
  }

  /** Records that are INCLUDED or CONFIRMED in r were so, alike, in s. */
  ghost predicate NothingRaised(s: Store, r: Store) {
    forall a :: a in r && Raised(r[a].status) ==> a in s && s[a].status == r[a].status && s[a].txid == r[a].txid
  }

  lemma MarkKeeps(cfg: Config, store: Store, assetId: string, txid: string)
    requires StoreInv(cfg, store) && MarkedBroadcast(store, assetId, txid).Some?
    ensures StoreInv(cfg, MarkedBroadcast(store, assetId, txid).value)
    ensures NothingRaised(store, MarkedBroadcast(store, assetId, txid).value)
    ensures MarkedBroadcast(store, assetId, txid).value.Keys == store.Keys
  {
  }

  lemma ProofKeeps(cfg: Config, store: Store, assetId: string, root: Text, proof: seq<TextStep>)
    requires StoreInv(cfg, store)
    ensures StoreInv(cfg, WithProof(store, assetId, root, proof))
    ensures NothingRaised(store, WithProof(store, assetId, root, proof))
  {
  }

  lemma SubmitKeeps(hash: BlockHash, st: ChainState, txid: string)
    requires ChainInv(hash, st)
    ensures ChainInv(hash, SubmitTx(st, txid))
  {
    ChainNextKeepsInv(hash, st, SubmitStep(txid));
  }

  lemma {:induction false} QueueKeeps(cfg: Config, s: ServiceState, items: seq<QueueItem>)
    requires ServiceInv(cfg, s)
    ensures ServiceInv(cfg, QueueProcessed(s, items).0)
    ensures NothingRaised(s.store, QueueProcessed(s, items).0.store)
    ensures QueueProcessed(s, items).0.observed == s.observed
    decreases |items|
  {
    hide ChainInv, RecordInv, MarkedBroadcast;
    if items != [] {
      var item := items[0];
      if item.result.Sent() {
        var marked := MarkedBroadcast(s.store, item.assetId, item.result.txid);
        if marked.Some? {
          MarkKeeps(cfg, s.store, item.assetId, item.result.txid);
          SubmitKeeps(cfg.blockHash, s.chain, item.result.txid);
          QueueKeeps(cfg, s.(store := marked.value, chain := SubmitTx(s.chain, item.result.txid)), items[1..]);
        }
      } else {
        QueueKeeps(cfg, s, items[1..]);
      }
    }
  }

  lemma {:induction false} BatchKeeps(cfg: Config, store: Store, items: seq<(string, Text)>, txid: string, n: nat)
    requires StoreInv(cfg, store) && n <= |items|
    ensures StoreInv(cfg, BatchMarked(cfg, store, items, txid, n).0)
    ensures NothingRaised(store, BatchMarked(cfg, store, items, txid, n).0)
  {
    hide RecordInv, StoreInv, MarkedBroadcast, WithProof, RootHex, ProofText;
    if n > 0 {
      BatchKeeps(cfg, store, items, txid, n - 1);
      var (before, raised) := BatchMarked(cfg, store, items, txid, n - 1);
      if !raised {
        var cs := Commitments(items);
        var root, proof := RootHex(cfg.sha, cs), ProofText(cfg.sha, cs, n - 1);
        ProofKeeps(cfg, before, items[n - 1].0, root, proof);
        var proved := WithProof(before, items[n - 1].0, root, proof);
        if MarkedBroadcast(proved, items[n - 1].0, txid).Some? {
          MarkKeeps(cfg, proved, items[n - 1].0, txid);
        }
      }
    }
  }

  /** Every step keeps the invariant, whatever it is. */
  lemma NextKeepsInv(cfg: Config, s: ServiceState, step: Step)
    requires ServiceInv(cfg, s)
    ensures ServiceInv(cfg, Next(cfg, s, step))
  {
    hide Linked, Retained, SyncRecord, QueueProcessed, BatchMarked, Progressed, ChainNext;
    NotEmpty(cfg.blockHash, s.chain);
    match step
    case RecordStep(req) =>
    case RequestStep(a, commitment) =>
    case QueueStep(items) => QueueKeeps(cfg, s, items);
    case BatchStep(pending, result) =>
      BatchKeeps(cfg, s.store, pending, result.txid, |pending|);
      SubmitKeeps(cfg.blockHash, s.chain, result.txid);
    case OnChain(cs) => ChainNextKeepsInv(cfg.blockHash, s.chain, cs);
    case SyncStep(assets) =>
      if ListsAll(assets, s.store) {
        ProgressedStore(cfg, s, assets);
      }
  }

  /** No step but a synchronisation raises a record to INCLUDED or CONFIRMED. */
  lemma OnlySyncRaises(cfg: Config, s: ServiceState, step: Step)
    requires ServiceInv(cfg, s) && !step.SyncStep?
    ensures NothingRaised(s.store, Next(cfg, s, step).store)
  {
    hide Linked, Retained, QueueProcessed, BatchMarked, Progressed, ChainNext, RecordInv;
    match step
    case RecordStep(req) =>
    case RequestStep(a, commitment) =>
    case QueueStep(items) => QueueKeeps(cfg, s, items);
    case BatchStep(pending, result) => BatchKeeps(cfg, s.store, pending, result.txid, |pending|);
    case OnChain(cs) =>
  }

  function InitialService(start: int, genesisHash: string): ServiceState {
    ServiceState(InitialChain(start, genesisHash), map[], map[])
  }

  /** What `record` stores, whatever was there before. */
  lemma RecordedIs(cfg: Config, s: ServiceState, req: Request)
    requires ServiceInv(cfg, s) && s.chain.canonical != [] && (req.commitment != "" || req.manifestHash != "")
    ensures var r := Next(cfg, s, RecordStep(req));
            && r.chain == s.chain && r.observed == s.observed && r.store.Keys == s.store.Keys + {req.assetId}
            && (forall a :: a in s.store && a != req.assetId ==> r.store[a] == s.store[a])
            && var rec, epoch := r.store[req.assetId],
                                 if req.artifactEpoch.Some? then req.artifactEpoch.value else s.chain.Tip().height;
               && rec.status == COMMITMENT_PENDING && rec.assetId == req.assetId
               && rec.manifestHash == req.manifestHash && rec.artifactEpoch == Some(epoch)
               && rec.commitmentVersion == req.commitmentVersion
               && rec.commitment == (if req.commitment != "" then req.commitment
                                     else cfg.artifactCommitment(req.assetId, req.manifestHash, epoch,
                                                                 req.commitmentVersion))
               && rec.txid == "" && rec.anchorId.None? && rec.btcHeight.None? && rec.btcBlockHash == ""
               && rec.btcWork.None? && rec.includedAt.None? && rec.confirmations == 0 && !rec.canonical && rec.observed
               && rec.confirmationDepth == EffectiveDepth(cfg.depth)
               && rec.merkleRoot == "" && rec.merkleProof == []
  {
    hide Linked, Retained, StoreInv;
  }

  /** A run of the service on a fresh chain. */
  datatype Trace = Trace(start: int, genesisHash: string, steps: seq<Step>)

  /** The state after the first n steps of a run. */
  function ServiceRun(cfg: Config, run: Trace, n: nat): (s: ServiceState)
    requires n <= |run.steps|
    ensures ServiceInv(cfg, s)
  {
    if n == 0 then
      InitialInv(cfg.blockHash, run.start, run.genesisHash);
      InitialService(run.start, run.genesisHash)
    else
      var before := ServiceRun(cfg, run, n - 1);
      NextKeepsInv(cfg, before, run.steps[n - 1]);
      Next(cfg, before, run.steps[n - 1])
  }

  lemma SyncedRec(cfg: Config, st: ChainState, assetId: string, rec: AnchorRecord)
    requires st.canonical != [] && RecordInv(cfg, assetId, rec)
    ensures SyncRecord(cfg, st, rec).Synced? && After(SyncRecord(cfg, st, rec), rec) == SyncRecord(cfg, st, rec).rec
  {
    hide SyncRecord;
    SyncIsGood(cfg, st, assetId, rec);
  }

  /** Directly after a synchronisation every record with a transaction has the
      status that the chain dictates, in every run. */
  lemma SyncDecides(cfg: Config, run: Trace, n: nat)
    requires n < |run.steps| && run.steps[n].SyncStep?
    requires var s := ServiceRun(cfg, run, n); ListsAll(run.steps[n].assets, s.store) && NoCollision(s.chain)
    ensures var s := ServiceRun(cfg, run, n + 1);
            && s.chain.canonical != []
            && forall a :: a in s.store ==> InStep(cfg, s.chain, s.store[a])
  {
    hide Linked, Retained, NoCollision, SyncRecord, InStep, RecordInv;
    var s, assets := ServiceRun(cfg, run, n), run.steps[n].assets;
    NotEmpty(cfg.blockHash, s.chain);
    ProgressedStore(cfg, s, assets);
    var r := Progressed(cfg, s, assets).0;
    forall a | a in r.store
      ensures InStep(cfg, r.chain, r.store[a])
    {
      SyncDecidesRecord(cfg, s.chain, a, s.store[a]);
      SyncedRec(cfg, s.chain, a, s.store[a]);
    }
  }

  /** In every run only INCLUDED and CONFIRMED records are marked canonical, and
      the others count no confirmations. */
  lemma OnlyRaisedAreCanonical(cfg: Config, run: Trace, n: nat, a: string)
    requires n <= |run.steps| && a in ServiceRun(cfg, run, n).store
    ensures var rec := ServiceRun(cfg, run, n).store[a];
            && (rec.canonical <==> Raised(rec.status))
            && (!rec.canonical ==> rec.confirmations == 0)
  {
    hide ChainInv, Next;
    assert RecordInv(cfg, a, ServiceRun(cfg, run, n).store[a]);
  }

  /** Synchronising twice on the same chain is synchronising once. */
  lemma SyncIsIdempotent(cfg: Config, s: ServiceState, assets: seq<string>)
    requires ServiceInv(cfg, s) && NoCollision(s.chain) && ListsAll(assets, s.store)
    ensures var once := Next(cfg, s, SyncStep(assets));
            && Linked(cfg.blockHash, once.chain)
            && Next(cfg, once, SyncStep(assets)) == once
  {
    hide Retained, NoCollision, SyncRecord, RecordInv, Progressed;
    NotEmpty(cfg.blockHash, s.chain);
    ProgressedStore(cfg, s, assets);
    var once := Progressed(cfg, s, assets).0;
    ProgressedStore(cfg, once, assets);
    ProgressedCopies(cfg, once, assets);
    var twice := Progressed(cfg, once, assets).0;
    forall a | a in s.store
      ensures twice.store[a] == once.store[a]
      ensures Left(SyncRecord(cfg, s.chain, once.store[a])).None?
    {
      SyncSettled(cfg, s.chain, a, s.store[a]);
    }
    assert twice.store == once.store;
  }

  /** Observed copies are never removed. */
  lemma ObservedOnlyGrows(cfg: Config, s: ServiceState, step: Step)
    requires ServiceInv(cfg, s)
    ensures s.observed.Keys <= Next(cfg, s, step).observed.Keys
  {
    hide Linked, Retained, QueueProcessed, BatchMarked, Progressed, ChainNext, SyncRecord, RecordInv;
    NotEmpty(cfg.blockHash, s.chain);
    match step
    case QueueStep(items) => QueueKeeps(cfg, s, items);
    case SyncStep(assets) =>
      if ListsAll(assets, s.store) {
        ProgressedCopies(cfg, s, assets);
      }
    case _ =>
  }

  /** A synchronisation that takes a record off the chain has stored what was
      observed of it, marked as not canonical. */
  lemma DroppedIsObserved(cfg: Config, s: ServiceState, assets: seq<string>, a: string)
    requires ServiceInv(cfg, s) && ListsAll(assets, s.store)
    requires a in s.store && Raised(s.store[a].status)
    requires a in Next(cfg, s, SyncStep(assets)).store
    requires Next(cfg, s, SyncStep(assets)).store[a].status == RE_ANCHOR_REQUIRED
    ensures exists k :: k in Next(cfg, s, SyncStep(assets)).observed
              && var copy := Next(cfg, s, SyncStep(assets)).observed[k];
                 k.0 == copy.assetId == a && copy.txid == s.store[a].txid
                 && copy.status == s.store[a].status && !copy.canonical
                 && k.1 == if copy.anchorId !in {None, Some("")} then copy.anchorId.value else Prefix(copy.commitment, 16)
  {
    hide Linked, Retained, SyncRecord, RecordInv, Progressed;
    NotEmpty(cfg.blockHash, s.chain);
    ProgressedStore(cfg, s, assets);
    ProgressedCopies(cfg, s, assets);
    SyncIsGood(cfg, s.chain, a, s.store[a]);
    var copy := Left(SyncRecord(cfg, s.chain, s.store[a])).value;
    assert HasCopy(Progressed(cfg, s, assets).0.observed, copy);
    assert ObservedKey(copy) in Next(cfg, s, SyncStep(assets)).observed;
  }

  // ----- batches -----

  /** The stored record carries the batch transaction and a proof that the
      check of `verify_proof` accepts for a commitment queued under its asset. */
  ghost predicate ProvedInBatch(cfg: Config, rec: AnchorRecord, items: seq<(string, Text)>, txid: string) {
    && rec.status == BROADCAST && rec.txid == txid && !rec.canonical
    && exists i :: 0 <= i < |items| && items[i].0 == rec.assetId
         && Verdict(cfg.sha, items[i].1, rec.merkleProof, rec.merkleRoot) == Some(true)
         && rec.merkleRoot == RootHex(cfg.sha, Commitments(items))
  }

  lemma OwnId(cfg: Config, store: Store, a: string)
    requires StoreInv(cfg, store) && a in store
    ensures store[a].assetId == a
  {
  }

  lemma {:induction false} BatchProves(cfg: Config, store: Store, items: seq<(string, Text)>, txid: string, n: nat, k: nat)
    requires StoreInv(cfg, store) && n <= |items| && k < n
    requires !BatchMarked(cfg, store, items, txid, n).1
    ensures BatchMarked(cfg, store, items, txid, n).0.Keys == store.Keys
    ensures items[k].0 in store ==>
              ProvedInBatch(cfg, BatchMarked(cfg, store, items, txid, n).0[items[k].0], items, txid)
    decreases n
  {
    hide RecordInv, Verdict, RootHex, ProofText;
    var before := BatchMarked(cfg, store, items, txid, n - 1).0;
    var a := items[n - 1].0;
    var cs := Commitments(items);
    BatchKeeps(cfg, store, items, txid, n - 1);
    ProofVerifies(cfg.sha, cs, n - 1);
    if n > 1 {
      BatchProves(cfg, store, items, txid, n - 1, if k < n - 1 then k else 0);
    }
    assert before.Keys == store.Keys;
    var after := BatchMarked(cfg, store, items, txid, n).0;
    if a in store {
      OwnId(cfg, before, a);
      assert items[n - 1].1 == cs[n - 1];
      assert ProvedInBatch(cfg, after[a], items, txid);
    }
    if items[k].0 != a && items[k].0 in store {
      assert after[items[k].0] == before[items[k].0];
    }
  }

  lemma {:induction false} BatchStaysRaised(cfg: Config, store: Store, items: seq<(string, Text)>, txid: string,
                                            m: nat, n: nat)
    requires m <= n <= |items| && BatchMarked(cfg, store, items, txid, m).1
    ensures BatchMarked(cfg, store, items, txid, n) == BatchMarked(cfg, store, items, txid, m)
    decreases n
  {
    if m < n {
      BatchStaysRaised(cfg, store, items, txid, m, n - 1);
    }
  }
}
