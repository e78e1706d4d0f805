/** From the broadcast queue to a confirmed anchor (`mods/btc_anchor/anchor.py`,
    lines 261-394): what a queue run delivers, exactly when a queue or a batch
    raises and what it then leaves behind, and how deep mining buries what was
    delivered.

    Main results: in every run, an asset whose transaction the queue or a batch
    delivered is INCLUDED by a synchronisation one to depth-1 blocks later and
    CONFIRMED by one at least depth blocks later, whatever other steps come in
    between, as long as none drops its block, sends the transaction again or
    gives the asset another one (`ConfirmedAtDepth`, `BatchConfirmedAtDepth`).
    A batch leaves records on a transaction that was not submitted exactly when
    it raises behind a stored asset (`BatchStrandsExactlyWhen`), and they stay on
    it until something sends it (`StrandedStays`). */
module AnchorPipeline {
  import opened Options
  import opened Hashing
  import opened AnchorMerkle
  import opened Chain
  import opened Lifecycle
  import opened AnchorState
  import opened AnchorRuns

  // ----- the single queue -----

  /** The transaction that the last successful broadcast gave the asset. */
  function LastSent(items: seq<QueueItem>, a: string): Option<string> {
    if items == [] then None
    else if LastSent(items[1..], a).Some? then LastSent(items[1..], a)
    else if items[0].assetId == a && items[0].result.Sent() then Some(items[0].result.txid)
    else None
  }

  function SentTxids(items: seq<QueueItem>): seq<string> {
    if items == [] then []
    else (if items[0].result.Sent() then [items[0].result.txid] else []) + SentTxids(items[1..])
  }

  /** A stored record that `transition` does not let back to BROADCAST. */
  predicate Refused(store: Store, a: string) {
    a in store && store[a].status in {INCLUDED, CONFIRMED, REORGED}
  }

  function Rebroadcast(rec: AnchorRecord, txid: Option<string>): AnchorRecord {
    if txid.None? then rec
    else rec.(status := BROADCAST, txid := txid.value, canonical := false, confirmations := 0)
  }

  lemma MarkIs(store: Store, a: string, txid: string)
    ensures MarkedBroadcast(store, a, txid).None? <==> Refused(store, a)
    ensures !Refused(store, a) ==>
              MarkedBroadcast(store, a, txid).value
              == if a in store then store[a := Rebroadcast(store[a], Some(txid))] else store
  {
  }

  /** The queue raises exactly when some broadcast succeeded for an asset that is
      already INCLUDED or CONFIRMED (or stored as REORGED). */
  lemma {:induction false} QueueRaisesExactlyWhen(s: ServiceState, items: seq<QueueItem>)
    ensures QueueProcessed(s, items).1
       <==> exists k :: 0 <= k < |items| && items[k].result.Sent() && Refused(s.store, items[k].assetId)
    decreases |items|
  {
    hide MarkedBroadcast;
    if items != [] {
      var item, rest := items[0], items[1..];
      if item.result.Sent() && !Refused(s.store, item.assetId) {
        MarkIs(s.store, item.assetId, item.result.txid);
        var store := MarkedBroadcast(s.store, item.assetId, item.result.txid).value;
        assert forall a :: Refused(store, a) <==> Refused(s.store, a);
        QueueRaisesExactlyWhen(s.(store := store, chain := SubmitTx(s.chain, item.result.txid)), rest);
      } else if !item.result.Sent() {
        QueueRaisesExactlyWhen(s, rest);
      } else {
        MarkIs(s.store, item.assetId, item.result.txid);
      }
      assert forall k :: 0 <= k < |rest| ==> rest[k] == items[k + 1];
    }
  }

  ghost predicate StoreDelivered(store: Store, items: seq<QueueItem>, r: Store) {
    r.Keys == store.Keys && forall a :: a in store ==> r[a] == Rebroadcast(store[a], LastSent(items, a))
  }

  ghost predicate Delivered(s: ServiceState, items: seq<QueueItem>, r: ServiceState) {
    && r.chain == s.chain.(mempool := s.chain.mempool + SentTxids(items))
    && r.observed == s.observed
    && StoreDelivered(s.store, items, r.store)
  }

  lemma RebroadcastTwice(rec: AnchorRecord, first: string, later: Option<string>)
    ensures Rebroadcast(Rebroadcast(rec, Some(first)), later)
            == Rebroadcast(rec, if later.Some? then later else Some(first))
  {
  }

  lemma OneDelivered(store: Store, items: seq<QueueItem>, r: Store)
    requires items != [] && items[0].result.Sent() && !Refused(store, items[0].assetId)
    requires StoreDelivered(MarkedBroadcast(store, items[0].assetId, items[0].result.txid).value, items[1..], r)
    ensures StoreDelivered(store, items, r)
  {
    hide MarkedBroadcast, Refused, Rebroadcast;
    MarkIs(store, items[0].assetId, items[0].result.txid);
    if items[0].assetId in store {
      RebroadcastTwice(store[items[0].assetId], items[0].result.txid, LastSent(items[1..], items[0].assetId));
    }
  }

  lemma NoneDelivered(store: Store, items: seq<QueueItem>, r: Store)
    requires items != [] && !items[0].result.Sent() && StoreDelivered(store, items[1..], r)
    ensures StoreDelivered(store, items, r)
  {
  }

  lemma NothingDelivered(store: Store)
    ensures StoreDelivered(store, [], store)
  {
  }

  /** What a queue run that does not raise delivers: every transaction sent
      enters the mempool, in order, and every record carries the last one sent
      for it. */
  lemma {:induction false} QueueDelivers(s: ServiceState, items: seq<QueueItem>)
    requires !QueueProcessed(s, items).1
    ensures Delivered(s, items, QueueProcessed(s, items).0)
    decreases |items|
  {
    hide MarkedBroadcast, StoreDelivered, Refused;
    if items == [] {
      NothingDelivered(s.store);
    } else {
      var item, rest := items[0], items[1..];
      if item.result.Sent() {
        MarkIs(s.store, item.assetId, item.result.txid);
        var store := MarkedBroadcast(s.store, item.assetId, item.result.txid).value;
        var mid := s.(store := store, chain := SubmitTx(s.chain, item.result.txid));
        QueueDelivers(mid, rest);
        OneDelivered(s.store, items, QueueProcessed(mid, rest).0.store);
      } else {
        QueueDelivers(s, rest);
        NoneDelivered(s.store, items, QueueProcessed(s, rest).0.store);
      }
    }
  }

  /** A queue run that raises leaves behind what the items before the refused
      one deliver. */
  lemma {:induction false} QueueStopsAt(s: ServiceState, items: seq<QueueItem>, k: nat)
    requires k < |items| && items[k].result.Sent() && Refused(s.store, items[k].assetId)
    requires forall j :: 0 <= j < k && items[j].result.Sent() ==> !Refused(s.store, items[j].assetId)
    ensures !QueueProcessed(s, items[..k]).1
    ensures QueueProcessed(s, items).0 == QueueProcessed(s, items[..k]).0
    decreases k
  {
    hide MarkedBroadcast;
    var item, rest := items[0], items[1..];
    MarkIs(s.store, item.assetId, item.result.txid);
    if k > 0 {
      assert items[..k][1..] == rest[..k - 1] && rest[k - 1] == items[k];
      assert forall j :: 0 <= j < k - 1 ==> rest[j] == items[j + 1];
      if item.result.Sent() {
        var store := MarkedBroadcast(s.store, item.assetId, item.result.txid).value;
        assert forall a :: Refused(store, a) <==> Refused(s.store, a);
        QueueStopsAt(s.(store := store, chain := SubmitTx(s.chain, item.result.txid)), rest, k - 1);
      } else {
        QueueStopsAt(s, rest, k - 1);
      }
    }
  }

  lemma {:induction false} LastSentIsSent(items: seq<QueueItem>, a: string)
    requires LastSent(items, a).Some?
    ensures LastSent(items, a).value in SentTxids(items) && LastSent(items, a).value != ""
    decreases |items|
  {
    if LastSent(items[1..], a).Some? {
      LastSentIsSent(items[1..], a);
    }
  }

  // ----- the batch -----

  /** A batch raises exactly when one of its assets is already INCLUDED or
      CONFIRMED (or stored as REORGED). */
  lemma {:induction false} BatchRaisesExactlyWhen(cfg: Config, store: Store, items: seq<(string, Text)>, txid: string,
                                                  n: nat)
    requires n <= |items|
    ensures BatchMarked(cfg, store, items, txid, n).1 <==> exists k :: 0 <= k < n && Refused(store, items[k].0)
    ensures !BatchMarked(cfg, store, items, txid, n).1 ==>
              forall a :: Refused(BatchMarked(cfg, store, items, txid, n).0, a) <==> Refused(store, a)
    decreases n
  {
    hide MarkedBroadcast, RootHex, ProofText;
    if n > 0 {
      BatchRaisesExactlyWhen(cfg, store, items, txid, n - 1);
      var (before, raised) := BatchMarked(cfg, store, items, txid, n - 1);
      if !raised {
        var cs := Commitments(items);
        var proved := WithProof(before, items[n - 1].0, RootHex(cfg.sha, cs), ProofText(cfg.sha, cs, n - 1));
        MarkIs(proved, items[n - 1].0, txid);
        assert forall a :: Refused(proved, a) <==> Refused(before, a);
      }
    }
  }

  predicate AmongFirst(items: seq<(string, Text)>, n: nat, a: string) {
    exists k :: 0 <= k < n && k < |items| && items[k].0 == a
  }

  predicate SameStanding(x: AnchorRecord, y: AnchorRecord) {
    x.status == y.status && x.txid == y.txid
  }

  /** Assets that are not among the first n keep status and transaction. */
  lemma {:induction false} BatchKeepsOthers(cfg: Config, store: Store, items: seq<(string, Text)>, txid: string, n: nat)
    requires n <= |items|
    ensures BatchMarked(cfg, store, items, txid, n).0.Keys == store.Keys
    ensures forall a :: a in store && !AmongFirst(items, n, a) ==>
              SameStanding(BatchMarked(cfg, store, items, txid, n).0[a], store[a])
    decreases n
  {
    hide MarkedBroadcast, RootHex, ProofText;
    if n > 0 {
      BatchKeepsOthers(cfg, store, items, txid, n - 1);
      var before := BatchMarked(cfg, store, items, txid, n - 1).0;
      var cs := Commitments(items);
      var proved := WithProof(before, items[n - 1].0, RootHex(cfg.sha, cs), ProofText(cfg.sha, cs, n - 1));
      MarkIs(proved, items[n - 1].0, txid);
    }
  }

  lemma BatchStopsAt(cfg: Config, store: Store, items: seq<(string, Text)>, txid: string, m: nat)
    requires m < |items| && Refused(store, items[m].0) && !BatchMarked(cfg, store, items, txid, m).1
    ensures BatchMarked(cfg, store, items, txid, m + 1).1
    ensures forall a :: a in BatchMarked(cfg, store, items, txid, m).0 ==>
              && a in BatchMarked(cfg, store, items, txid, m + 1).0
              && SameStanding(BatchMarked(cfg, store, items, txid, m + 1).0[a],
                              BatchMarked(cfg, store, items, txid, m).0[a])
  {
    hide MarkedBroadcast, RootHex, ProofText;
    BatchRaisesExactlyWhen(cfg, store, items, txid, m);
    var before := BatchMarked(cfg, store, items, txid, m).0;
    assert Refused(before, items[m].0);
    var cs := Commitments(items);
    var proved := WithProof(before, items[m].0, RootHex(cfg.sha, cs), ProofText(cfg.sha, cs, m));
    MarkIs(proved, items[m].0, txid);
  }

  /** The first of the items whose asset does not go back to BROADCAST. */
  ghost predicate FirstRefused(store: Store, items: seq<(string, Text)>, m: nat) {
    && m < |items| && Refused(store, items[m].0)
    && forall k :: 0 <= k < m ==> !Refused(store, items[k].0)
  }

  lemma {:induction false} SomeIsFirst(store: Store, items: seq<(string, Text)>, k: nat) returns (m: nat)
    requires k < |items| && Refused(store, items[k].0)
    ensures FirstRefused(store, items, m)
    decreases k
  {
    if j :| 0 <= j < k && Refused(store, items[j].0) {
      m := SomeIsFirst(store, items, j);
    } else {
      m := k;
    }
  }

  /** A batch that raises was already broadcast, but its transaction is not
      submitted to the chain, while the records before the refused one carry it. */
  lemma BatchRaiseStrands(cfg: Config, s: ServiceState, items: seq<(string, Text)>, result: BroadcastResult, m: nat)
    requires ServiceInv(cfg, s) && result.Sent() && FirstRefused(s.store, items, m)
    ensures var (r, raised) := BatchProcessed(cfg, s, items, result);
            && raised && r.chain == s.chain
            && forall k :: 0 <= k < m && items[k].0 in s.store ==>
                 && items[k].0 in r.store
                 && r.store[items[k].0].status == BROADCAST && r.store[items[k].0].txid == result.txid
  {
    hide MarkedBroadcast, RootHex, ProofText, ChainInv, RecordInv, BatchMarked;
    BatchRaisesExactlyWhen(cfg, s.store, items, result.txid, m);
    BatchStopsAt(cfg, s.store, items, result.txid, m);
    BatchStaysRaised(cfg, s.store, items, result.txid, m + 1, |items|);
    forall k | 0 <= k < m && items[k].0 in s.store
      ensures var before := BatchMarked(cfg, s.store, items, result.txid, m).0;
              items[k].0 in before
              && before[items[k].0].status == BROADCAST && before[items[k].0].txid == result.txid
    {
      BatchProves(cfg, s.store, items, result.txid, m, k);
    }
  }

  /** The transaction neither waits nor is on the chain. */
  ghost predicate Nowhere(st: ChainState, t: string) {
    t !in st.mempool && TxLocation(st, t).None?
  }

  /** The record of `a` says that `t` was broadcast, but the chain has not got it. */
  ghost predicate Stranded(s: ServiceState, a: string, t: string) {
    a in s.store && s.store[a].status == BROADCAST && s.store[a].txid == t && Nowhere(s.chain, t)
  }

  lemma RaisedBatchLeaves(cfg: Config, s: ServiceState, items: seq<(string, Text)>, result: BroadcastResult, m: nat)
    requires result.Sent() && FirstRefused(s.store, items, m)
    ensures var r := BatchProcessed(cfg, s, items, result).0;
            && r.store.Keys == s.store.Keys
            && forall a :: a in s.store && !AmongFirst(items, m, a) ==> SameStanding(r.store[a], s.store[a])
  {
    hide MarkedBroadcast, RootHex, ProofText, BatchMarked, AmongFirst;
    BatchRaisesExactlyWhen(cfg, s.store, items, result.txid, m);
    BatchStopsAt(cfg, s.store, items, result.txid, m);
    BatchStaysRaised(cfg, s.store, items, result.txid, m + 1, |items|);
    BatchKeepsOthers(cfg, s.store, items, result.txid, m);
    BatchKeepsOthers(cfg, s.store, items, result.txid, |items|);
  }

  lemma StrandedBehind(cfg: Config, s: ServiceState, items: seq<(string, Text)>, result: BroadcastResult, m: nat,
                       a: string)
    requires ServiceInv(cfg, s) && result.Sent() && FirstRefused(s.store, items, m)
    ensures Stranded(BatchProcessed(cfg, s, items, result).0, a, result.txid)
       <==> && Nowhere(s.chain, result.txid)
            && (Stranded(s, a, result.txid) || (a in s.store && AmongFirst(items, m, a)))
  {
    hide BatchProcessed, ServiceInv, Nowhere;
    BatchRaiseStrands(cfg, s, items, result, m);
    RaisedBatchLeaves(cfg, s, items, result, m);
  }

  lemma BatchSubmits(cfg: Config, s: ServiceState, items: seq<(string, Text)>, result: BroadcastResult, a: string)
    requires items != [] && result.Sent() && forall k :: 0 <= k < |items| ==> !Refused(s.store, items[k].0)
    ensures !Stranded(BatchProcessed(cfg, s, items, result).0, a, result.txid)
    ensures forall m :: !FirstRefused(s.store, items, m)
  {
    hide BatchMarked, Refused;
    BatchRaisesExactlyWhen(cfg, s.store, items, result.txid, |items|);
    assert result.txid in BatchProcessed(cfg, s, items, result).0.chain.mempool;
  }

  /** A batch that was broadcast leaves a record on a transaction that the chain
      has not got exactly when some item is refused and the record was on it
      before or belongs to an item in front of the first refused one. */
  lemma BatchStrandsExactlyWhen(cfg: Config, s: ServiceState, items: seq<(string, Text)>, result: BroadcastResult,
                                a: string)
    requires ServiceInv(cfg, s) && items != [] && result.Sent()
    ensures Stranded(BatchProcessed(cfg, s, items, result).0, a, result.txid)
       <==> exists m ::
              && FirstRefused(s.store, items, m) && Nowhere(s.chain, result.txid)
              && (Stranded(s, a, result.txid) || (a in s.store && AmongFirst(items, m, a)))
  {
    hide FirstRefused, AmongFirst, BatchMarked, Stranded, ServiceInv, Refused;
    BatchRaisesExactlyWhen(cfg, s.store, items, result.txid, |items|);
    if k :| 0 <= k < |items| && Refused(s.store, items[k].0) {
      var first := SomeIsFirst(s.store, items, k);
    } else {
      BatchSubmits(cfg, s, items, result, a);
    }
    forall m | FirstRefused(s.store, items, m)
      ensures Stranded(BatchProcessed(cfg, s, items, result).0, a, result.txid)
         <==> && Nowhere(s.chain, result.txid)
              && (Stranded(s, a, result.txid) || (a in s.store && AmongFirst(items, m, a)))
    {
      StrandedBehind(cfg, s, items, result, m, a);
    }
  }

  // ----- carrying a transaction through other steps -----

  ghost predicate QuietItems(a: string, t: string, items: seq<QueueItem>) {
    forall k :: 0 <= k < |items| && items[k].result.Sent() ==> items[k].assetId != a && items[k].result.txid != t
  }

  ghost predicate NotAmong(a: string, pending: seq<(string, Text)>) {
    forall k :: 0 <= k < |pending| ==> pending[k].0 != a
  }

  /** A step that neither changes which transaction `a` carries nor sends `t`
      again. */
  ghost predicate Quiet(a: string, t: string, step: Step) {
    match step
    case RecordStep(req) => CanRecord(req) ==> req.assetId != a
    case RequestStep(_, _) => true
    case QueueStep(items) => QuietItems(a, t, items)
    case BatchStep(pending, result) => result.Sent() ==> result.txid != t && NotAmong(a, pending)
    case OnChain(SubmitStep(txid)) => txid != t
    case OnChain(MineStep(extra, _)) => t !in extra
    case OnChain(ReorgStep(_, _)) => true
    case SyncStep(_) => true
  }

  lemma ChainIsThere(cfg: Config, s: ServiceState)
    requires ServiceInv(cfg, s)
    ensures s.chain.canonical != []
  {
  }

  /** How many blocks a reorganisation takes off the chain. */
  function Dropping(st: ChainState, forkHeight: int): nat
    requires st.canonical != []
  {
    if CanFork(st, forkHeight) then st.Tip().height - forkHeight else 0
  }

  /** The step drops none of the blocks that a transaction m blocks deep is in
      or under. */
  predicate Spares(st: ChainState, step: Step, m: nat)
    requires st.canonical != []
  {
    match step
    case OnChain(ReorgStep(forkHeight, _)) => m > 0 ==> Dropping(st, forkHeight) < m
    case _ => true
  }

  /** How deep a transaction m blocks deep is after the step; one that waits is
      in the first block to come. */
  function DepthAfter(st: ChainState, step: Step, m: nat): nat
    requires st.canonical != []
  {
    match step
    case OnChain(MineStep(_, _)) => m + 1
    case OnChain(ReorgStep(forkHeight, newLength)) =>
      if !CanFork(st, forkHeight) then m
      else (if m > Dropping(st, forkHeight) then m - Dropping(st, forkHeight) else 0) + ForkLength(newLength)
    case _ => m
  }

  /** How deep the steps lo..hi bury a transaction that waits at lo. */
  function DepthOver(cfg: Config, run: Trace, lo: nat, hi: nat): nat
    requires lo <= hi <= |run.steps|
    decreases hi
  {
    if lo == hi then 0
    else
      ChainIsThere(cfg, ServiceRun(cfg, run, hi - 1));
      DepthAfter(ServiceRun(cfg, run, hi - 1).chain, run.steps[hi - 1], DepthOver(cfg, run, lo, hi - 1))
  }

  /** `t` waits in the mempool until the first block, and is m blocks deep after
      m blocks. */
  ghost predicate Carried(st: ChainState, t: string, m: nat) {
    && st.canonical != []
    && (m == 0 ==> t in st.mempool)
    && (m > 0 ==> t !in st.mempool && TxLocation(st, t).Some? && Depth(st, t) == m)
  }

  ghost predicate Carries(store: Store, a: string, t: string) {
    a in store && store[a].txid == t
  }

  lemma LastIndexSnoc(blocks: seq<Block>, b: Block, txid: string)
    ensures LastIndex(blocks + [b], txid) == if txid in b.txs then |blocks| else LastIndex(blocks, txid)
  {
    assert (blocks + [b])[..|blocks|] == blocks;
  }

  lemma {:induction false} ExtraKeepsOut(txs: seq<string>, extra: seq<string>, t: string)
    requires t !in extra
    ensures t in WithExtra(txs, extra) <==> t in txs
    decreases |extra|
  {
    if extra != [] {
      assert t != extra[0];
      ExtraKeepsOut(if extra[0] in txs then txs else txs + [extra[0]], extra[1..], t);
    }
  }

  /** A pending transaction enters the next block, and each block buries it one
      deeper. */
  lemma MineCarries(hash: BlockHash, st: ChainState, extra: seq<string>, fork: Option<int>, t: string, m: nat)
    requires Carried(st, t, m) && t !in extra
    ensures Carried(Mine(hash, st, extra, fork), t, m + 1)
  {
    hide LastIndex, WithExtra;
    ExtraKeepsOut(st.mempool, extra, t);
    LastIndexSnoc(st.canonical, NextBlock(hash, st, extra, fork), t);
  }

  lemma {:induction false} ForksCarry(hash: BlockHash, st: ChainState, salt: int, n: nat, t: string, m: nat)
    requires st.canonical != [] && Carried(st, t, m)
    ensures Carried(MineForks(hash, st, salt, n), t, m + n)
    decreases n
  {
    hide Carried, Mine;
    if n > 0 {
      ForksCarry(hash, st, salt, n - 1, t, m);
      MineCarries(hash, MineForks(hash, st, salt, n - 1), [], Some(salt + n - 1), t, m + n - 1);
    }
  }

  lemma RollbackCarries(hash: BlockHash, st: ChainState, forkHeight: int, t: string, m: nat)
    requires ChainInv(hash, st) && Carried(st, t, m) && CanFork(st, forkHeight)
    requires m > 0 ==> Dropping(st, forkHeight) < m
    ensures 0 <= forkHeight - st.Start() < |st.canonical|
    ensures Carried(Rollback(st, forkHeight), t, if m > 0 then m - Dropping(st, forkHeight) else 0)
  {
    hide Retained, Mined, LastIndex;
    ForkInRange(hash, st, forkHeight);
    if m > 0 {
      var i, back := LastIndex(st.canonical, t), Rollback(st, forkHeight);
      assert st.canonical[i].height == st.Start() + i;
      assert LastIndex(back.canonical, t) == i;
    }
  }

  /** A reorganisation that spares the block of a transaction leaves it there,
      as deep as the new branch makes it. */
  lemma ReorgCarries(hash: BlockHash, st: ChainState, forkHeight: int, newLength: int, t: string, m: nat)
    requires ChainInv(hash, st) && Carried(st, t, m) && CanFork(st, forkHeight)
    requires m > 0 ==> Dropping(st, forkHeight) < m
    ensures 0 <= forkHeight - st.Start() < |st.canonical|
    ensures Carried(Reorg(hash, st, forkHeight, newLength), t,
                    (if m > 0 then m - Dropping(st, forkHeight) else 0) + ForkLength(newLength))
  {
    hide ChainInv, Carried, Rollback, MineForks;
    RollbackCarries(hash, st, forkHeight, t, m);
    var back := Rollback(st, forkHeight);
    ForksCarry(hash, back, 10000 + |back.orphans|, ForkLength(newLength), t,
               if m > 0 then m - Dropping(st, forkHeight) else 0);
  }

  lemma SubmitCarries(st: ChainState, txid: string, t: string, m: nat)
    requires Carried(st, t, m) && txid != t
    ensures Carried(SubmitTx(st, txid), t, m)
  {
    hide LastIndex;
  }

  lemma {:induction false} QueueCarries(s: ServiceState, items: seq<QueueItem>, a: string, t: string, m: nat)
    requires Carried(s.chain, t, m) && Carries(s.store, a, t) && QuietItems(a, t, items)
    ensures Carried(QueueProcessed(s, items).0.chain, t, m) && Carries(QueueProcessed(s, items).0.store, a, t)
    decreases |items|
  {
    hide MarkedBroadcast, Carried, Refused;
    if items != [] {
      var item, rest := items[0], items[1..];
      if !item.result.Sent() {
        QueueCarries(s, rest, a, t, m);
      } else if !Refused(s.store, item.assetId) {
        MarkIs(s.store, item.assetId, item.result.txid);
        var store := MarkedBroadcast(s.store, item.assetId, item.result.txid).value;
        SubmitCarries(s.chain, item.result.txid, t, m);
        QueueCarries(s.(store := store, chain := SubmitTx(s.chain, item.result.txid)), rest, a, t, m);
      } else {
        MarkIs(s.store, item.assetId, item.result.txid);
      }
    }
  }

  lemma TxidStays(cfg: Config, s: ServiceState, assets: seq<string>, a: string)
    requires ServiceInv(cfg, s) && a in s.store
    ensures var r := Next(cfg, s, SyncStep(assets));
            r.chain == s.chain && a in r.store && r.store[a].txid == s.store[a].txid
  {
    hide Linked, Retained, SyncRecord, RecordInv, Progressed;
    NotEmpty(cfg.blockHash, s.chain);
    if ListsAll(assets, s.store) {
      ProgressedStore(cfg, s, assets);
      SyncIsGood(cfg, s.chain, a, s.store[a]);
    }
  }

  lemma BatchCarries(cfg: Config, store: Store, items: seq<(string, Text)>, txid: string, a: string, t: string)
    requires Carries(store, a, t) && NotAmong(a, items)
    ensures Carries(BatchMarked(cfg, store, items, txid, |items|).0, a, t)
  {
    hide BatchMarked;
    BatchKeepsOthers(cfg, store, items, txid, |items|);
  }

  lemma NextCarries(cfg: Config, s: ServiceState, step: Step, a: string, t: string, m: nat)
    requires ServiceInv(cfg, s) && Carried(s.chain, t, m) && Carries(s.store, a, t)
    requires Quiet(a, t, step) && Spares(s.chain, step, m)
    ensures var r := Next(cfg, s, step);
            Carried(r.chain, t, DepthAfter(s.chain, step, m)) && Carries(r.store, a, t)
  {
    hide Linked, Retained, RecordInv, Carried, QueueProcessed, BatchMarked, Progressed, Mine, SubmitTx, Reorg, CanFork;
    ChainIsThere(cfg, s);
    match step
    case RecordStep(req) =>
    case RequestStep(b, commitment) =>
    case QueueStep(items) => QueueCarries(s, items, a, t, m);
    case BatchStep(pending, result) =>
      if pending != [] && result.Sent() {
        BatchCarries(cfg, s.store, pending, result.txid, a, t);
        SubmitCarries(s.chain, result.txid, t, m);
      }
    case OnChain(SubmitStep(txid)) => SubmitCarries(s.chain, txid, t, m);
    case OnChain(MineStep(extra, fork)) => MineCarries(cfg.blockHash, s.chain, extra, fork, t, m);
    case OnChain(ReorgStep(forkHeight, newLength)) =>
      if CanFork(s.chain, forkHeight) {
        ReorgCarries(cfg.blockHash, s.chain, forkHeight, newLength, t, m);
      }
    case SyncStep(assets) => TxidStays(cfg, s, assets, a);
  }

  ghost predicate AllQuiet(a: string, t: string, steps: seq<Step>, lo: nat, hi: nat)
    requires lo <= hi <= |steps|
  {
    forall k :: lo <= k < hi ==> Quiet(a, t, steps[k])
  }

  /** Step k spares a transaction that waits at lo. */
  ghost predicate SparesAt(cfg: Config, run: Trace, lo: nat, k: nat)
    requires lo <= k < |run.steps|
  {
    ChainIsThere(cfg, ServiceRun(cfg, run, k));
    Spares(ServiceRun(cfg, run, k).chain, run.steps[k], DepthOver(cfg, run, lo, k))
  }

  ghost predicate AllSpare(cfg: Config, run: Trace, lo: nat, hi: nat)
    requires lo <= hi <= |run.steps|
  {
    forall k :: lo <= k < hi ==> SparesAt(cfg, run, lo, k)
  }

  /** One more step of a run. */
  lemma RunStep(cfg: Config, run: Trace, n: nat)
    requires n < |run.steps|
    ensures var s := ServiceRun(cfg, run, n);
            Linked(cfg.blockHash, s.chain) && ServiceRun(cfg, run, n + 1) == Next(cfg, s, run.steps[n])
  {
    hide Next, Linked, Retained, StoreInv;
  }

  lemma {:induction false} RunCarries(cfg: Config, run: Trace, lo: nat, hi: nat, a: string, t: string)
    requires lo <= hi <= |run.steps| && AllQuiet(a, t, run.steps, lo, hi) && AllSpare(cfg, run, lo, hi)
    requires var s := ServiceRun(cfg, run, lo); Carried(s.chain, t, 0) && Carries(s.store, a, t)
    ensures var r := ServiceRun(cfg, run, hi);
            Carried(r.chain, t, DepthOver(cfg, run, lo, hi)) && Carries(r.store, a, t)
    decreases hi
  {
    hide Quiet, Spares, Carried, Carries, Next, ServiceInv, ServiceRun, DepthAfter;
    if lo < hi {
      RunCarries(cfg, run, lo, hi - 1, a, t);
      RunStep(cfg, run, hi - 1);
      assert SparesAt(cfg, run, lo, hi - 1);
      NextCarries(cfg, ServiceRun(cfg, run, hi - 1), run.steps[hi - 1], a, t, DepthOver(cfg, run, lo, hi - 1));
    }
  }

  // ----- a stranded transaction -----

  lemma SubmitKeepsNowhere(st: ChainState, txid: string, t: string)
    requires Nowhere(st, t) && txid != t
    ensures Nowhere(SubmitTx(st, txid), t)
  {
    hide LastIndex;
  }

  lemma MineKeepsNowhere(hash: BlockHash, st: ChainState, extra: seq<string>, fork: Option<int>, t: string)
    requires st.canonical != [] && Nowhere(st, t) && t !in extra
    ensures Nowhere(Mine(hash, st, extra, fork), t)
  {
    hide LastIndex, WithExtra;
    ExtraKeepsOut(st.mempool, extra, t);
    LastIndexSnoc(st.canonical, NextBlock(hash, st, extra, fork), t);
  }

  lemma {:induction false} ForksKeepNowhere(hash: BlockHash, st: ChainState, salt: int, n: nat, t: string)
    requires st.canonical != [] && Nowhere(st, t)
    ensures Nowhere(MineForks(hash, st, salt, n), t)
    decreases n
  {
    hide Nowhere, Mine;
    if n > 0 {
      ForksKeepNowhere(hash, st, salt, n - 1, t);
      MineKeepsNowhere(hash, MineForks(hash, st, salt, n - 1), [], Some(salt + n - 1), t);
    }
  }

  /** No reorganisation brings the transaction back. */
  lemma ReorgKeepsNowhere(hash: BlockHash, st: ChainState, forkHeight: int, newLength: int, t: string)
    requires st.canonical != [] && Nowhere(st, t) && 0 <= forkHeight - st.Start() < |st.canonical|
    ensures Nowhere(Reorg(hash, st, forkHeight, newLength), t)
  {
    hide LastIndex, MineForks;
    var back := Rollback(st, forkHeight);
    assert LastIndex(back.canonical, t) == -1;
    ForksKeepNowhere(hash, back, 10000 + |back.orphans|, ForkLength(newLength), t);
  }

  lemma {:induction false} QueueKeepsStranded(s: ServiceState, items: seq<QueueItem>, a: string, t: string)
    requires Stranded(s, a, t) && QuietItems(a, t, items)
    ensures Stranded(QueueProcessed(s, items).0, a, t)
    decreases |items|
  {
    hide MarkedBroadcast, Refused, Nowhere;
    if items != [] {
      var item, rest := items[0], items[1..];
      if !item.result.Sent() {
        QueueKeepsStranded(s, rest, a, t);
      } else if !Refused(s.store, item.assetId) {
        MarkIs(s.store, item.assetId, item.result.txid);
        var store := MarkedBroadcast(s.store, item.assetId, item.result.txid).value;
        var next := s.(store := store, chain := SubmitTx(s.chain, item.result.txid));
        SubmitKeepsNowhere(s.chain, item.result.txid, t);
        QueueKeepsStranded(next, rest, a, t);
      } else {
        MarkIs(s.store, item.assetId, item.result.txid);
      }
    }
  }

  lemma NotFoundStays(cfg: Config, st: ChainState, rec: AnchorRecord)
    requires st.canonical != [] && rec.status == BROADCAST && TxLocation(st, rec.txid).None?
    ensures After(SyncRecord(cfg, st, rec), rec) == rec
  {
    hide TxLocation, Located;
  }

  lemma SyncKeepsStranded(cfg: Config, s: ServiceState, assets: seq<string>, a: string, t: string)
    requires ServiceInv(cfg, s) && Stranded(s, a, t)
    ensures Stranded(Next(cfg, s, SyncStep(assets)), a, t)
  {
    hide Linked, Retained, RecordInv, Progressed, TxLocation, SyncRecord, After;
    ChainIsThere(cfg, s);
    if ListsAll(assets, s.store) {
      ProgressedStore(cfg, s, assets);
      NotFoundStays(cfg, s.chain, s.store[a]);
    }
  }

  /** No quiet step, a reorganisation included, gives the transaction of a
      stranded record to the chain, or the record another status. */
  lemma NextKeepsStranded(cfg: Config, s: ServiceState, step: Step, a: string, t: string)
    requires ServiceInv(cfg, s) && Stranded(s, a, t) && Quiet(a, t, step)
    ensures Stranded(Next(cfg, s, step), a, t)
  {
    hide Linked, Retained, RecordInv, Nowhere, QueueProcessed, BatchMarked, Progressed, Mine, SubmitTx, Reorg, CanFork;
    ChainIsThere(cfg, s);
    match step
    case RecordStep(req) =>
    case RequestStep(b, commitment) =>
    case QueueStep(items) => QueueKeepsStranded(s, items, a, t);
    case BatchStep(pending, result) =>
      if pending != [] && result.Sent() {
        BatchKeepsOthers(cfg, s.store, pending, result.txid, |pending|);
        SubmitKeepsNowhere(s.chain, result.txid, t);
      }
    case OnChain(SubmitStep(txid)) => SubmitKeepsNowhere(s.chain, txid, t);
    case OnChain(MineStep(extra, fork)) => MineKeepsNowhere(cfg.blockHash, s.chain, extra, fork, t);
    case OnChain(ReorgStep(forkHeight, newLength)) =>
      if CanFork(s.chain, forkHeight) {
        ForkInRange(cfg.blockHash, s.chain, forkHeight);
        ReorgKeepsNowhere(cfg.blockHash, s.chain, forkHeight, newLength, t);
      }
    case SyncStep(assets) => SyncKeepsStranded(cfg, s, assets, a, t);
  }

  /** A stranded record stays BROADCAST, on a transaction that the chain has not
      got, through every run in which nothing sends that transaction or gives the
      asset another one: no synchronisation ever raises or drops it. */
  lemma {:induction false} StrandedStays(cfg: Config, run: Trace, lo: nat, hi: nat, a: string, t: string)
    requires lo <= hi <= |run.steps| && AllQuiet(a, t, run.steps, lo, hi)
    requires Stranded(ServiceRun(cfg, run, lo), a, t)
    ensures Stranded(ServiceRun(cfg, run, hi), a, t)
    decreases hi
  {
    hide Quiet, Stranded, Next, ServiceInv, ServiceRun;
    if lo < hi {
      StrandedStays(cfg, run, lo, hi - 1, a, t);
      RunStep(cfg, run, hi - 1);
      NextKeepsStranded(cfg, ServiceRun(cfg, run, hi - 1), run.steps[hi - 1], a, t);
    }
  }

  // ----- from delivery to confirmation -----

  /** What a synchronisation makes of a transaction that is m blocks deep. */
  ghost predicate Settled(cfg: Config, rec: AnchorRecord, t: string, m: nat) {
    && rec.txid == t
    && rec.status == (if m >= EffectiveDepth(cfg.depth) then CONFIRMED else INCLUDED)
    && rec.canonical && rec.confirmations == m
  }

  lemma SyncSettles(cfg: Config, s: ServiceState, assets: seq<string>, a: string, t: string, m: nat)
    requires ServiceInv(cfg, s) && ListsAll(assets, s.store) && NoCollision(s.chain)
    requires Carries(s.store, a, t) && Carried(s.chain, t, m) && m >= 1 && t != ""
    ensures var r := Next(cfg, s, SyncStep(assets)); a in r.store && Settled(cfg, r.store[a], t, m)
  {
    hide ChainInv, NoCollision, TxLocation, Depth, SyncRecord, RecordInv;
    ProgressedStore(cfg, s, assets);
    SyncDecidesRecord(cfg, s.chain, a, s.store[a]);
    SyncedRec(cfg, s.chain, a, s.store[a]);
  }

  lemma QueueStarts(s: ServiceState, items: seq<QueueItem>, a: string)
    requires s.chain.canonical != [] && a in s.store && !QueueProcessed(s, items).1 && LastSent(items, a).Some?
    ensures var q, t := QueueProcessed(s, items).0, LastSent(items, a).value;
            Carries(q.store, a, t) && Carried(q.chain, t, 0) && t != ""
  {
    hide QueueProcessed, LastSent, SentTxids;
    QueueDelivers(s, items);
    LastSentIsSent(items, a);
  }

  /** A delivered transaction confirms at the configured depth, and no earlier,
      whatever else the service and the chain do in between. */
  lemma ConfirmedAtDepth(cfg: Config, run: Trace, q: nat, y: nat, a: string)
    requires q < y < |run.steps| && run.steps[q].QueueStep? && run.steps[y].SyncStep?
    requires var s, items := ServiceRun(cfg, run, q), run.steps[q].items;
             && a in s.store && !QueueProcessed(s, items).1 && LastSent(items, a).Some?
             && AllQuiet(a, LastSent(items, a).value, run.steps, q + 1, y)
    requires AllSpare(cfg, run, q + 1, y) && DepthOver(cfg, run, q + 1, y) >= 1
    requires var s := ServiceRun(cfg, run, y); ListsAll(run.steps[y].assets, s.store) && NoCollision(s.chain)
    ensures var r := ServiceRun(cfg, run, y + 1);
            && a in r.store
            && Settled(cfg, r.store[a], LastSent(run.steps[q].items, a).value, DepthOver(cfg, run, q + 1, y))
  {
    hide ServiceInv, NoCollision, QueueProcessed, ServiceRun, ListsAll, LastSent, Linked;
    hide Carried, Carries, AllQuiet, AllSpare, DepthOver, Settled;
    var s, items := ServiceRun(cfg, run, q), run.steps[q].items;
    ChainIsThere(cfg, s);
    RunStep(cfg, run, q);
    QueueStarts(s, items, a);
    RunCarries(cfg, run, q + 1, y, a, LastSent(items, a).value);
    RunStep(cfg, run, y);
    SyncSettles(cfg, ServiceRun(cfg, run, y), run.steps[y].assets, a, LastSent(items, a).value,
                DepthOver(cfg, run, q + 1, y));
  }

  lemma BatchStarts(cfg: Config, s: ServiceState, pending: seq<(string, Text)>, result: BroadcastResult, k: nat)
    requires s.chain.canonical != [] && StoreInv(cfg, s.store)
    requires k < |pending| && pending[k].0 in s.store && result.Sent() && !BatchProcessed(cfg, s, pending, result).1
    ensures var q := BatchProcessed(cfg, s, pending, result).0;
            Carries(q.store, pending[k].0, result.txid) && Carried(q.chain, result.txid, 0)
  {
    hide StoreInv, BatchMarked;
    BatchProves(cfg, s.store, pending, result.txid, |pending|, k);
  }

  /** The same for every member of a batch. */
  lemma BatchConfirmedAtDepth(cfg: Config, run: Trace, q: nat, y: nat, k: nat)
    requires q < y < |run.steps| && run.steps[q].BatchStep? && run.steps[y].SyncStep?
    requires var s, pending, result := ServiceRun(cfg, run, q), run.steps[q].pending, run.steps[q].result;
             && k < |pending| && pending[k].0 in s.store && result.Sent() && !BatchProcessed(cfg, s, pending, result).1
             && AllQuiet(pending[k].0, result.txid, run.steps, q + 1, y)
    requires AllSpare(cfg, run, q + 1, y) && DepthOver(cfg, run, q + 1, y) >= 1
    requires var s := ServiceRun(cfg, run, y); ListsAll(run.steps[y].assets, s.store) && NoCollision(s.chain)
    ensures var r, a := ServiceRun(cfg, run, y + 1), run.steps[q].pending[k].0;
            a in r.store && Settled(cfg, r.store[a], run.steps[q].result.txid, DepthOver(cfg, run, q + 1, y))
  {
    hide NoCollision, BatchProcessed, ServiceRun, ListsAll, ChainInv, StoreInv;
    hide Carried, Carries, AllQuiet, AllSpare, DepthOver, Settled;
    var s, pending, result := ServiceRun(cfg, run, q), run.steps[q].pending, run.steps[q].result;
    ChainIsThere(cfg, s);
    RunStep(cfg, run, q);
    BatchStarts(cfg, s, pending, result, k);
    RunCarries(cfg, run, q + 1, y, pending[k].0, result.txid);
    RunStep(cfg, run, y);
    SyncSettles(cfg, ServiceRun(cfg, run, y), run.steps[y].assets, pending[k].0, result.txid,
                DepthOver(cfg, run, q + 1, y));
  }

  // ----- the demotion -----

  lemma LinkedChain(cfg: Config, s: ServiceState)
    requires ServiceInv(cfg, s)
    ensures Linked(cfg.blockHash, s.chain)
  {
  }

  lemma LocatedIsDeep(hash: BlockHash, st: ChainState, t: string)
    requires Linked(hash, st) && TxLocation(st, t).Some? && t !in st.mempool
    ensures Depth(st, t) >= 1 && Carried(st, t, Depth(st, t))
  {
    hide Mined, LastIndex;
    assert st.canonical[LastIndex(st.canonical, t)] == TxLocation(st, t).value;
  }

  lemma ConfirmedHasTxid(cfg: Config, store: Store, a: string)
    requires StoreInv(cfg, store) && a in store && store[a].status == CONFIRMED
    ensures store[a].txid != ""
  {
  }

  lemma SameIsWithin(status: Status)
    ensures WithinTable(status, status)
  {
  }

  /** A reorganisation just above the block of a transaction leaves it there, no
      deeper than the new branch makes it.  So the next synchronisation takes a
      CONFIRMED record back to INCLUDED, outside the table, exactly when the new
      branch is too short. */
  lemma ReorgDemotes(cfg: Config, s: ServiceState, a: string, newLength: int, assets: seq<string>)
    requires ServiceInv(cfg, s) && s.chain.canonical != []
    requires a in s.store && s.store[a].status == CONFIRMED && s.store[a].txid !in s.chain.mempool
    requires TxLocation(s.chain, s.store[a].txid).Some?
    requires CanFork(s.chain, TxLocation(s.chain, s.store[a].txid).value.height)
    requires var r := Next(cfg, s, OnChain(ReorgStep(TxLocation(s.chain, s.store[a].txid).value.height, newLength)));
             ListsAll(assets, r.store) && NoCollision(r.chain)
    ensures var r := Next(cfg, s, OnChain(ReorgStep(TxLocation(s.chain, s.store[a].txid).value.height, newLength)));
            && Linked(cfg.blockHash, r.chain)
            && var q := Next(cfg, r, SyncStep(assets));
               && a in q.store && Settled(cfg, q.store[a], s.store[a].txid, 1 + ForkLength(newLength))
               && (!WithinTable(s.store[a].status, q.store[a].status)
                   <==> 1 + ForkLength(newLength) < EffectiveDepth(cfg.depth))
  {
    hide ChainInv, NoCollision, ListsAll, TxLocation, Carried, Reorg, WithinTable;
    var t := s.store[a].txid;
    var step := OnChain(ReorgStep(TxLocation(s.chain, t).value.height, newLength));
    LinkedChain(cfg, s);
    NextKeepsInv(cfg, s, step);
    ConfirmedHasTxid(cfg, s.store, a);
    LocatedIsDeep(cfg.blockHash, s.chain, t);
    ReorgCarries(cfg.blockHash, s.chain, TxLocation(s.chain, t).value.height, newLength, t, Depth(s.chain, t));
    var r := Next(cfg, s, step);
    LinkedChain(cfg, r);
    SyncSettles(cfg, r, assets, a, t, 1 + ForkLength(newLength));
    DemotionIsOffTable();
    SameIsWithin(CONFIRMED);
  }

  lemma LocatedIsAbove(hash: BlockHash, st: ChainState, t: string)
    requires Linked(hash, st) && TxLocation(st, t).Some?
    ensures st.Start() <= TxLocation(st, t).value.height
  {
    hide Mined, LastIndex;
    assert st.canonical[LastIndex(st.canonical, t)] == TxLocation(st, t).value;
  }

  /** A CONFIRMED record that agrees with the chain, at a depth of three or more,
      is always one step away from the demotion: one replacement block above its
      own and one synchronisation are enough. */
  lemma DemotionIsReached(cfg: Config, s: ServiceState, a: string, assets: seq<string>)
    requires ServiceInv(cfg, s) && s.chain.canonical != [] && EffectiveDepth(cfg.depth) >= 3
    requires a in s.store && s.store[a].status == CONFIRMED && InStep(cfg, s.chain, s.store[a])
    requires s.store[a].txid !in s.chain.mempool
    requires var r := Next(cfg, s, OnChain(ReorgStep(s.store[a].btcHeight.value, 1)));
             ListsAll(assets, r.store) && NoCollision(r.chain)
    ensures var r := Next(cfg, s, OnChain(ReorgStep(s.store[a].btcHeight.value, 1)));
            && Linked(cfg.blockHash, r.chain)
            && var q := Next(cfg, r, SyncStep(assets)); a in q.store && q.store[a].status == INCLUDED
  {
    hide ChainInv, NoCollision, ListsAll, TxLocation, Reorg, WithinTable;
    ConfirmedHasTxid(cfg, s.store, a);
    LinkedChain(cfg, s);
    LocatedIsAbove(cfg.blockHash, s.chain, s.store[a].txid);
    ReorgDemotes(cfg, s, a, 1, assets);
  }
}
