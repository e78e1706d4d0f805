/** Anchor records and the steps of the anchor service on values
    (`mods/btc_anchor/anchor.py`, `records.py`).

    The service class in AnchorService.dfy is proved to follow these functions;
    AnchorRuns.dfy proves what every run of them keeps. */
module AnchorState {
  import opened ByteStrings
  import opened Options
  import opened Hashing
  import opened MerkleTree
  import opened AnchorMerkle
  import opened Chain
  import opened Lifecycle

  /** `txid` and `btcBlockHash` are "" where Python has None; both are only
      tested for truth. */
  datatype AnchorRecord = AnchorRecord(
    assetId: string, commitment: Text, status: Status, txid: string,
    anchorId: Option<string>, manifestHash: string, artifactEpoch: Option<int>, commitmentVersion: int,
    btcHeight: Option<int>, btcBlockHash: string, btcWork: Option<int>, includedAt: Option<int>,
    confirmations: int, confirmationDepth: int, canonical: bool, observed: bool,
    merkleRoot: Text, merkleProof: seq<TextStep>)

  /** What the service is configured with: the hash functions and the depth. */
  datatype Config = Config(
    blockHash: BlockHash, sha: Hash,
    artifactCommitment: (string, string, int, int) -> Text,
    deriveAnchorId: (string, string, string, Text) -> string,
    depth: int)

  type Store = map<string, AnchorRecord>

  /** Observed copies by asset and by anchor id or commitment prefix. */
  type Observed = map<(string, string), AnchorRecord>

  datatype ServiceState = ServiceState(chain: ChainState, store: Store, observed: Observed)

  /** `AnchorRecord.__post_init__`: the depth is at least one. */
  function EffectiveDepth(depth: int): (d: int)
    ensures d >= 1 && d >= depth && (d == 1 || d == depth)
  {
    if depth < 1 then 1 else depth
  }

  // ----- record and request_broadcast -----

  datatype Request = Request(
    assetId: string, commitment: Text, manifestHash: string, artifactEpoch: Option<int>, commitmentVersion: int)

  /** `record` without a commitment or a manifest hash raises. */
  predicate CanRecord(req: Request) {
    req.commitment != "" || req.manifestHash != ""
  }

  function NewRecord(cfg: Config, st: ChainState, req: Request): AnchorRecord
    requires st.canonical != []
  {
    var epoch := if req.artifactEpoch.Some? then req.artifactEpoch.value else st.Tip().height;
    var commitment :=
      if req.commitment != "" then req.commitment
      else cfg.artifactCommitment(req.assetId, req.manifestHash, epoch, req.commitmentVersion);
    AnchorRecord(
      req.assetId, commitment, COMMITMENT_PENDING, "",
      None, req.manifestHash, Some(epoch), req.commitmentVersion,
      None, "", None, None,
      0, EffectiveDepth(cfg.depth), false, true, "", [])
  }

  /** `request_broadcast` on the stored record, when a commitment is found. */
  function RequestedBroadcast(store: Store, assetId: string): Store {
    if assetId in store && store[assetId].status in {COMMITMENT_PENDING, UNANCHORED, RE_ANCHOR_REQUIRED} then
      store[assetId := store[assetId].(status := COMMITMENT_PENDING)]
    else store
  }

  // ----- broadcasting -----

  /** `mark_broadcast`; None when the transition raises.  A missing record is
      left alone. */
  function MarkedBroadcast(store: Store, assetId: string, txid: string): Option<Store> {
    if assetId !in store then Some(store)
    else
      var rec := store[assetId];
      match Transition(rec.status, BROADCAST)
      case None => None
      case Some(status) =>
        Some(store[assetId := rec.(status := status, txid := txid, canonical := false, confirmations := 0)])
  }

  datatype BroadcastResult = BroadcastResult(ok: bool, txid: string) {
    predicate Sent() {
      ok && txid != ""
    }
  }

  /** A pending queue entry and what the broadcaster answers for it. */
  datatype QueueItem = QueueItem(assetId: string, commitment: Text, result: BroadcastResult)

  /** `process_queue`: each broadcast is marked and submitted; the first refused
      transition ends the call. */
  function QueueProcessed(s: ServiceState, items: seq<QueueItem>): (r: (ServiceState, bool))
    decreases |items|
  {
    if items == [] then (s, false)
    else if !items[0].result.Sent() then QueueProcessed(s, items[1..])
    else
      match MarkedBroadcast(s.store, items[0].assetId, items[0].result.txid)
      case None => (s, true)
      case Some(store) =>
        QueueProcessed(s.(store := store, chain := SubmitTx(s.chain, items[0].result.txid)), items[1..])
  }

  function WithProof(store: Store, assetId: string, root: Text, proof: seq<TextStep>): Store {
    if assetId in store then store[assetId := store[assetId].(merkleRoot := root, merkleProof := proof)]
    else store
  }

  function Commitments(items: seq<(string, Text)>): (cs: seq<Text>)
    ensures |cs| == |items|
  {
    seq(|items|, i requires 0 <= i < |items| => items[i].1)
  }

  /** The loop of `process_queue_batched` over the first n pending pairs: the
      store, and whether a refused transition ended it. */
  function BatchMarked(cfg: Config, store: Store, items: seq<(string, Text)>, txid: string, n: nat): (r: (Store, bool))
    requires n <= |items|
  {
    if n == 0 then (store, false)
    else
      var (before, raised) := BatchMarked(cfg, store, items, txid, n - 1);
      if raised then (before, true)
      else
        var cs := Commitments(items);
        var proved := WithProof(before, items[n - 1].0, RootHex(cfg.sha, cs), ProofText(cfg.sha, cs, n - 1));
        match MarkedBroadcast(proved, items[n - 1].0, txid)
        case None => (proved, true)
        case Some(after) => (after, false)
  }

  /** `process_queue_batched` for the given answer to the one broadcast. */
  function BatchProcessed(cfg: Config, s: ServiceState, items: seq<(string, Text)>, result: BroadcastResult)
    : (r: (ServiceState, bool))
  {
    if items == [] || !result.Sent() then (s, false)
    else
      var (store, raised) := BatchMarked(cfg, s.store, items, result.txid, |items|);
      if raised then (s.(store := store), true)
      else (s.(store := store, chain := SubmitTx(s.chain, result.txid)), false)
  }

  // ----- following the chain -----

  /** `_sync_record_with_chain`: the record, whether it is written back, and the
      observed copy it leaves behind, if any. */
  datatype SyncResult = Synced(rec: AnchorRecord, changed: bool, retained: Option<AnchorRecord>) | SyncRaised

  function ObservedCopy(rec: AnchorRecord): AnchorRecord {
    rec.(canonical := false, observed := true)
  }

  /** From INCLUDED or CONFIRMED through REORGED to RE_ANCHOR_REQUIRED. */
  function Dropped(status: Status): Option<Status> {
    match Transition(status, REORGED)
    case None => None
    case Some(s) => Transition(s, RE_ANCHOR_REQUIRED)
  }

  /** The record with the coordinates of the block filled in. */
  function Located(cfg: Config, st: ChainState, rec: AnchorRecord, loc: Block): AnchorRecord
    requires st.canonical != []
  {
    var canonical := IsCanonical(st, loc.blockHash);
    rec.(
      btcHeight := Some(loc.height), btcBlockHash := loc.blockHash, btcWork := Some(loc.work),
      includedAt := Some(loc.timestamp), canonical := canonical,
      confirmations := if canonical then Confirmations(st, loc.blockHash) else 0,
      anchorId := if rec.manifestHash != "" && rec.commitment != ""
                  then Some(cfg.deriveAnchorId(rec.assetId, rec.manifestHash, loc.blockHash, rec.commitment))
                  else rec.anchorId)
  }

  /** The transaction is on no canonical block. */
  function SyncAbsent(rec: AnchorRecord): SyncResult {
    if rec.status !in {INCLUDED, CONFIRMED} then Synced(rec, false, None)
    else
      match Dropped(rec.status)
      case None => SyncRaised
      case Some(status) =>
        Synced(rec.(status := status, canonical := false, confirmations := 0, observed := true),
               true, Some(ObservedCopy(rec)))
  }

  /** The block found is not canonical after all. */
  function SyncDisplaced(rec: AnchorRecord): SyncResult {
    if rec.status !in {INCLUDED, CONFIRMED} then Synced(rec.(observed := true), true, Some(ObservedCopy(rec)))
    else
      match Dropped(rec.status)
      case None => SyncRaised
      case Some(status) => Synced(rec.(observed := true, status := status), true, Some(ObservedCopy(rec)))
  }

  /** The block found is canonical. */
  function SyncPresent(rec: AnchorRecord): SyncResult {
    var raised := rec.status in {BROADCAST, COMMITMENT_PENDING, RE_ANCHOR_REQUIRED, UNANCHORED};
    match if raised then Transition(rec.status, INCLUDED) else Some(rec.status)
    case None => SyncRaised
    case Some(status) =>
      if status == INCLUDED && rec.confirmations >= rec.confirmationDepth then
        Synced(rec.(status := CONFIRMED), true, None)
      else if status == CONFIRMED && rec.confirmations < rec.confirmationDepth then
        Synced(rec.(status := INCLUDED), true, None)
      else Synced(rec.(status := status), true, None)
  }

  function SyncRecord(cfg: Config, st: ChainState, rec: AnchorRecord): SyncResult
    requires st.canonical != []
  {
    if rec.txid == "" then Synced(rec, false, None)
    else
      match TxLocation(st, rec.txid)
      case None => SyncAbsent(rec)
      case Some(loc) =>
        var located := Located(cfg, st, rec, loc);
        if located.canonical then SyncPresent(located) else SyncDisplaced(located)
  }

  function ObservedKey(rec: AnchorRecord): (string, string) {
    (rec.assetId,
     if rec.anchorId.Some? && rec.anchorId.value != "" then rec.anchorId.value else Prefix(rec.commitment, 16))
  }

  /** One turn of the loop of `apply_chain_progress`. */
  function SyncOne(cfg: Config, s: ServiceState, assetId: string): Option<ServiceState>
    requires s.chain.canonical != [] && assetId in s.store
  {
    match SyncRecord(cfg, s.chain, s.store[assetId])
    case SyncRaised => None
    case Synced(rec, changed, retained) =>
      Some(s.(
        store := if changed then s.store[assetId := rec] else s.store,
        observed := if retained.Some? then s.observed[ObservedKey(retained.value) := retained.value] else s.observed))
  }

  /** `apply_chain_progress` over the listed assets, in that order; a refused
      transition ends it. */
  function Progressed(cfg: Config, s: ServiceState, assets: seq<string>): (r: (ServiceState, bool))
    requires s.chain.canonical != []
    requires forall i :: 0 <= i < |assets| ==> assets[i] in s.store
    ensures r.0.chain == s.chain && r.0.store.Keys == s.store.Keys
    decreases |assets|
  {
    if assets == [] then (s, false)
    else
      match SyncOne(cfg, s, assets[0])
      case None => (s, true)
      case Some(next) => Progressed(cfg, next, assets[1..])
  }
}
