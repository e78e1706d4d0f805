/** The artifact clock (`mods/asset_fabric/artifact_clock.py`) and the
    verification of anchor records and of peers' clock claims against the chain
    (`mods/btc_anchor/verify.py`).

    Main result: after a synchronisation, an accepted claim names a canonical
    block that holds the transaction at full depth, and the clock derived from
    the local record is authoritative (`AcceptedClaimIsOnChain`). */
module ClockVerify {
  import opened Options
  import opened Hashing
  import opened AnchorMerkle
  import opened Chain
  import opened Lifecycle
  import opened AnchorState
  import opened AnchorRuns

  // ----- the artifact clock -----

  datatype Confidence = NoConfidence | Pending | IncludedOnly | FullyConfirmed | Reorganised

  /** `confidence_from_status` */
  function ConfidenceFromStatus(status: Status, confirmations: int, depth: int): Confidence {
    match status
    case UNANCHORED => NoConfidence
    case REORGED => Reorganised
    case RE_ANCHOR_REQUIRED => Reorganised
    case CONFIRMED => FullyConfirmed
    case INCLUDED => if confirmations >= depth then FullyConfirmed else IncludedOnly
    case COMMITMENT_PENDING => Pending
    case BROADCAST => Pending
  }

  datatype ArtifactClock = ArtifactClock(
    assetId: string, manifestHash: string, epoch: Option<int>, btcHeight: Option<int>,
    btcBlockHash: Option<string>, btcWork: Option<int>, anchorId: Option<string>, observedAt: int,
    confidence: Confidence)
  {
    predicate IsAuthoritative() {
      confidence == FullyConfirmed && epoch.Some?
    }

    /** `__post_init__`: without confidence there are no coordinates. */
    function Initialised(): ArtifactClock {
      if confidence != NoConfidence then this
      else this.(epoch := None, btcHeight := None, btcBlockHash := None, btcWork := None, anchorId := None)
    }
  }

  function NonEmpty(s: string): Option<string> {
    if s == "" then None else Some(s)
  }

  /** `ArtifactClock.from_anchor_record` */
  function FromAnchorRecord(rec: AnchorRecord, manifestHash: string, defaultDepth: int): ArtifactClock {
    var depth := if rec.confirmationDepth != 0 then rec.confirmationDepth else defaultDepth;
    var derived := ConfidenceFromStatus(rec.status, rec.confirmations, depth);
    var confidence := if derived == FullyConfirmed && !rec.canonical then IncludedOnly else derived;
    var epoch := if rec.artifactEpoch.Some? then rec.artifactEpoch else rec.btcHeight;
    ArtifactClock(
      rec.assetId,
      if rec.manifestHash != "" then rec.manifestHash else manifestHash,
      epoch, rec.btcHeight, NonEmpty(rec.btcBlockHash), rec.btcWork, rec.anchorId,
      if rec.includedAt.Some? then rec.includedAt.value else 0,
      confidence).Initialised()
  }

  // ----- verification of a record -----

  datatype Reason =
    | MismatchedAssetId | MismatchedManifestHash | MissingEpoch | MismatchedCommitment
    | ReorgedAnchor | UnverifiedAnchor | StaleOrReorgedAnchor
    | ArbitraryHeight | ArbitraryBlockHash

  datatype Verification = Verification(ok: bool, accepted: bool, reasons: seq<Reason>)

  /** The answer about a record also repeats what was checked. */
  datatype RecordVerification = RecordVerification(
    verdict: Verification, status: Status, canonical: bool, assetId: string, manifestHash: string, commitment: Text)

  /** `verify_artifact_commitment` */
  predicate CommitmentMatches(cfg: Config, rec: AnchorRecord)
    requires rec.artifactEpoch.Some?
  {
    var version := if rec.commitmentVersion != 0 then rec.commitmentVersion else 1;
    Lower(cfg.artifactCommitment(rec.assetId, rec.manifestHash, rec.artifactEpoch.value, version)) == Normal(rec.commitment)
  }

  /** What the record says, without looking at the chain. */
  ghost predicate RecordConsistent(cfg: Config, rec: AnchorRecord, expectedAsset: string, expectedManifest: string) {
    && (expectedAsset == "" || expectedAsset == rec.assetId)
    && (expectedManifest == "" || rec.manifestHash == "" || expectedManifest == rec.manifestHash)
    && rec.artifactEpoch.Some? && CommitmentMatches(cfg, rec)
    && rec.status != REORGED
  }

  /** The chain knows the transaction where the record says it is. */
  ghost predicate ChainAgrees(st: ChainState, rec: AnchorRecord)
    requires st.canonical != []
  {
    var loc := TxLocation(st, rec.txid);
    && rec.txid != "" && loc.Some?
    && (rec.btcBlockHash == "" || rec.btcBlockHash == loc.value.blockHash)
    && IsCanonical(st, loc.value.blockHash)
  }

  /** The reasons that the record itself gives. */
  method RecordReasons(cfg: Config, rec: AnchorRecord, expectedAsset: string, expectedManifest: string)
    returns (reasons: seq<Reason>)
    ensures MismatchedAssetId in reasons <==> expectedAsset !in {"", rec.assetId}
    ensures MismatchedManifestHash in reasons
       <==> expectedManifest !in {"", rec.manifestHash} && rec.manifestHash != ""
    ensures MissingEpoch in reasons <==> rec.artifactEpoch.None?
    ensures MismatchedCommitment in reasons <==> rec.artifactEpoch.Some? && !CommitmentMatches(cfg, rec)
    ensures ReorgedAnchor in reasons <==> rec.status == REORGED
    ensures forall r :: r in {UnverifiedAnchor, StaleOrReorgedAnchor, ArbitraryHeight, ArbitraryBlockHash} ==> r !in reasons
    ensures reasons == [] <==> RecordConsistent(cfg, rec, expectedAsset, expectedManifest)
  {
    hide CommitmentMatches;
    reasons := [];
    if expectedAsset != "" && expectedAsset != rec.assetId {
      reasons := reasons + [MismatchedAssetId];
    }
    if expectedManifest != "" && rec.manifestHash != "" && expectedManifest != rec.manifestHash {
      reasons := reasons + [MismatchedManifestHash];
    }
    if rec.artifactEpoch.None? {
      reasons := reasons + [MissingEpoch];
    } else if !CommitmentMatches(cfg, rec) {
      reasons := reasons + [MismatchedCommitment];
    }
    if rec.status == REORGED {
      reasons := reasons + [ReorgedAnchor];
    }
  }

  /** The chain has the transaction in a block that is not canonical. */
  ghost predicate Displaced(st: ChainState, rec: AnchorRecord)
    requires st.canonical != []
  {
    var loc := TxLocation(st, rec.txid);
    rec.txid != "" && loc.Some? && !IsCanonical(st, loc.value.blockHash)
  }

  /** The reasons that the chain gives, and whether the block found is canonical,
      as long as one is found. */
  method ChainReasons(st: ChainState, rec: AnchorRecord) returns (reasons: seq<Reason>, canonical: bool)
    requires st.canonical != []
    ensures UnverifiedAnchor in reasons <==> rec.txid == "" || TxLocation(st, rec.txid).None?
    ensures StaleOrReorgedAnchor in reasons <==> UnverifiedAnchor !in reasons && !ChainAgrees(st, rec)
    ensures forall r :: r in reasons ==> r in {UnverifiedAnchor, StaleOrReorgedAnchor}
    ensures reasons == [] <==> ChainAgrees(st, rec)
    ensures canonical <==> !Displaced(st, rec)
  {
    hide IsCanonical, TxLocation;
    reasons, canonical := [], true;
    if rec.txid == "" {
      return [UnverifiedAnchor], true;
    }
    var loc := TxLocation(st, rec.txid);
    if loc.None? {
      return [UnverifiedAnchor], true;
    }
    if rec.btcBlockHash != "" && loc.value.blockHash != rec.btcBlockHash {
      reasons := reasons + [StaleOrReorgedAnchor];
    }
    if !IsCanonical(st, loc.value.blockHash) {
      reasons := reasons + [StaleOrReorgedAnchor];
      canonical := false;
    }
  }

  predicate UnbackedConfirmation(rec: AnchorRecord) {
    rec.status == CONFIRMED && !rec.canonical && rec.txid == ""
  }

  /** The record passes: with a chain view it is where it says; without one it
      only must not claim a confirmation without a transaction. */
  ghost predicate RecordPasses(cfg: Config, rec: AnchorRecord, expectedAsset: string, expectedManifest: string,
                               chain: Option<ChainState>)
    requires chain.Some? ==> chain.value.canonical != []
  {
    && RecordConsistent(cfg, rec, expectedAsset, expectedManifest)
    && (if chain.Some? then ChainAgrees(chain.value, rec) else !UnbackedConfirmation(rec))
  }

  /** `verify_anchor_record`, with or without a chain view. */
  method VerifyAnchorRecord(cfg: Config, rec: AnchorRecord, expectedAsset: string, expectedManifest: string,
                            chain: Option<ChainState>) returns (r: RecordVerification)
    requires chain.Some? ==> chain.value.canonical != []
    ensures var reasons := r.verdict.reasons;
            && (MismatchedAssetId in reasons <==> expectedAsset !in {"", rec.assetId})
            && (MismatchedManifestHash in reasons
                <==> expectedManifest !in {"", rec.manifestHash} && rec.manifestHash != "")
            && (MissingEpoch in reasons <==> rec.artifactEpoch.None?)
            && (MismatchedCommitment in reasons <==> rec.artifactEpoch.Some? && !CommitmentMatches(cfg, rec))
            && (ReorgedAnchor in reasons <==> rec.status == REORGED)
            && (UnverifiedAnchor in reasons
                <==> if chain.Some? then rec.txid == "" || TxLocation(chain.value, rec.txid).None?
                     else rec.status == CONFIRMED && !rec.canonical && rec.txid == "")
            && (StaleOrReorgedAnchor in reasons
                <==> chain.Some? && UnverifiedAnchor !in reasons && !ChainAgrees(chain.value, rec))
            && ArbitraryHeight !in reasons && ArbitraryBlockHash !in reasons
    ensures r.verdict.ok <==> r.verdict.reasons == []
    ensures r.verdict.ok <==> RecordPasses(cfg, rec, expectedAsset, expectedManifest, chain)
    ensures r.verdict.accepted <==> r.verdict.ok && rec.canonical && rec.status == CONFIRMED
    ensures r.canonical <==> rec.canonical && rec.status != REORGED && (chain.Some? ==> !Displaced(chain.value, rec))
    ensures r.status == rec.status && r.assetId == rec.assetId
    ensures r.manifestHash == rec.manifestHash && r.commitment == rec.commitment
  {
    hide RecordConsistent, CommitmentMatches, TxLocation;
    var reasons := RecordReasons(cfg, rec, expectedAsset, expectedManifest);
    var canonical := rec.canonical && rec.status != REORGED;
    if chain.Some? {
      var more, agrees := ChainReasons(chain.value, rec);
      reasons := reasons + more;
      canonical := canonical && agrees;
    } else if rec.status != CONFIRMED || !canonical {
      if rec.status == CONFIRMED && rec.txid == "" {
        reasons := reasons + [UnverifiedAnchor];
      }
    }
    var verdict := Verification(reasons == [], reasons == [] && canonical && rec.status == CONFIRMED, reasons);
    r := RecordVerification(verdict, rec.status, canonical, rec.assetId, rec.manifestHash, rec.commitment);
  }

  // ----- claims of peers -----

  /** A claimed height may be absent; the texts are "" when absent. */
  datatype Claim = Claim(btcHeight: Option<int>, btcBlockHash: string, manifestHash: string, assetId: string)

  /** Which manifest the record is checked against. */
  function ExpectedManifest(claim: Claim, localManifest: string): string {
    if localManifest != "" then localManifest else claim.manifestHash
  }

  /** The coordinates claimed are those of the record, and the manifest is ours. */
  predicate ClaimMatches(claim: Claim, rec: AnchorRecord, localManifest: string) {
    && (localManifest == "" || claim.manifestHash == "" || claim.manifestHash == localManifest)
    && (claim.btcHeight.Some? ==> claim.btcHeight == rec.btcHeight)
    && (claim.btcBlockHash != "" ==> claim.btcBlockHash == rec.btcBlockHash)
  }

  /** The claim agrees with the record of the node. */
  ghost predicate ClaimAgrees(cfg: Config, claim: Claim, rec: AnchorRecord, localManifest: string) {
    && ClaimMatches(claim, rec, localManifest)
    && RecordConsistent(cfg, rec, claim.assetId, ExpectedManifest(claim, localManifest))
    && rec.canonical && rec.status == CONFIRMED
  }

  /** What makes a claim acceptable to a node that holds `rec` and sees `st`. */
  ghost predicate ClaimAccepted(cfg: Config, claim: Claim, rec: AnchorRecord, localManifest: string, st: ChainState)
    requires st.canonical != []
  {
    ClaimAgrees(cfg, claim, rec, localManifest) && ChainAgrees(st, rec)
  }

  /** What the claimed manifest gives away at once. */
  function ManifestReasons(claim: Claim, localManifest: string): seq<Reason> {
    if localManifest != "" && claim.manifestHash != "" && claim.manifestHash != localManifest
    then [MismatchedManifestHash] else []
  }

  /** The reasons that the claimed coordinates give. */
  method CoordinateReasons(claim: Claim, rec: AnchorRecord) returns (reasons: seq<Reason>)
    ensures ArbitraryHeight in reasons <==> claim.btcHeight.Some? && claim.btcHeight != rec.btcHeight
    ensures ArbitraryBlockHash in reasons <==> claim.btcBlockHash !in {"", rec.btcBlockHash}
    ensures forall r :: r in reasons ==> r in {ArbitraryHeight, ArbitraryBlockHash}
    ensures reasons == [] <==> ArbitraryHeight !in reasons && ArbitraryBlockHash !in reasons
  {
    reasons := [];
    if claim.btcHeight.Some? && rec.btcHeight.Some? {
      if claim.btcHeight.value != rec.btcHeight.value {
        reasons := reasons + [ArbitraryHeight];
      }
    } else if claim.btcHeight.Some? && rec.btcHeight.None? {
      reasons := reasons + [ArbitraryHeight];
    }
    if claim.btcBlockHash != "" && rec.btcBlockHash != "" {
      if claim.btcBlockHash != rec.btcBlockHash {
        reasons := reasons + [ArbitraryBlockHash];
      }
    } else if claim.btcBlockHash != "" && rec.btcBlockHash == "" {
      reasons := reasons + [ArbitraryBlockHash];
    }
  }

  /** `reject_peer_clock_claim`, with or without a chain view; without a local
      record nothing is accepted. */
  method RejectPeerClockClaim(cfg: Config, claim: Claim, localRecord: Option<AnchorRecord>, localManifest: string,
                              chain: Option<ChainState>) returns (v: Verification)
    requires chain.Some? ==> chain.value.canonical != []
    ensures localRecord.None? ==>
              && !v.ok && !v.accepted
              && v.reasons == (if localManifest != "" && claim.manifestHash !in {"", localManifest}
                               then [MismatchedManifestHash, UnverifiedAnchor] else [UnverifiedAnchor])
    ensures v.ok <==> v.reasons == []
    ensures localRecord.Some? ==>
              var rec := localRecord.value;
              && (v.ok ==> localManifest == "" || claim.manifestHash in {"", localManifest})
              && (v.ok <==> ClaimMatches(claim, rec, localManifest)
                            && RecordPasses(cfg, rec, claim.assetId, ExpectedManifest(claim, localManifest), chain))
              && (v.accepted <==> v.ok && rec.canonical && rec.status == CONFIRMED)
              && (ArbitraryHeight in v.reasons <==> claim.btcHeight.Some? && claim.btcHeight != rec.btcHeight)
              && (ArbitraryBlockHash in v.reasons <==> claim.btcBlockHash !in {"", rec.btcBlockHash})
              && (MismatchedManifestHash in v.reasons
                  <==> || (localManifest != "" && claim.manifestHash !in {"", localManifest})
                       || (rec.manifestHash != ""
                           && (if localManifest != "" then localManifest else claim.manifestHash) !in {"", rec.manifestHash}))
              && (MismatchedAssetId in v.reasons <==> claim.assetId !in {"", rec.assetId})
              && (MissingEpoch in v.reasons <==> rec.artifactEpoch.None?)
              && (MismatchedCommitment in v.reasons <==> rec.artifactEpoch.Some? && !CommitmentMatches(cfg, rec))
              && (ReorgedAnchor in v.reasons <==> rec.status == REORGED)
    ensures localRecord.Some? && chain.Some? ==>
              (v.accepted <==> ClaimAccepted(cfg, claim, localRecord.value, localManifest, chain.value))
    ensures localRecord.Some? && chain.None? ==>
              (v.accepted <==> ClaimAgrees(cfg, claim, localRecord.value, localManifest))
  {
    hide RecordConsistent, ChainAgrees, CommitmentMatches, TxLocation;
    var reasons := ManifestReasons(claim, localManifest);
    if localRecord.None? {
      return Verification(false, false, reasons + [UnverifiedAnchor]);
    }
    var rec := localRecord.value;
    var checked := VerifyAnchorRecord(cfg, rec, claim.assetId, ExpectedManifest(claim, localManifest), chain);
    var coordinates := CoordinateReasons(claim, rec);
    reasons := reasons + checked.verdict.reasons + coordinates;
    var ok := reasons == [] && checked.verdict.ok;
    v := Verification(ok, ok && checked.verdict.accepted, reasons);
  }

  // ----- what acceptance means after a synchronisation -----

  /** A canonical block that carries the transaction at full depth. */
  ghost predicate BuriedIn(cfg: Config, st: ChainState, txid: string, b: Block)
    requires st.canonical != []
  {
    b in st.canonical && txid in b.txs && st.Tip().height - b.height + 1 >= EffectiveDepth(cfg.depth)
  }

  /** The clock of a synchronised record is authoritative exactly when the
      transaction is buried at full depth. */
  lemma AuthoritativeMeansBuried(cfg: Config, st: ChainState, assetId: string, rec: AnchorRecord,
                                 manifestHash: string, defaultDepth: int)
    requires st.canonical != [] && RecordInv(cfg, assetId, rec) && InStep(cfg, st, rec)
    ensures FromAnchorRecord(rec, manifestHash, defaultDepth).IsAuthoritative()
       <==> rec.txid != "" && TxLocation(st, rec.txid).Some? && Depth(st, rec.txid) >= EffectiveDepth(cfg.depth)
  {
    hide TxLocation;
  }

  /** What the clock of a synchronised record says: the epoch that was recorded,
      even when the block came later, the coordinates of the block, and a
      confidence that the chain and the status decide. */
  lemma ClockIs(cfg: Config, st: ChainState, assetId: string, rec: AnchorRecord, manifestHash: string, defaultDepth: int)
    requires st.canonical != [] && RecordInv(cfg, assetId, rec) && InStep(cfg, st, rec)
    ensures var c, loc := FromAnchorRecord(rec, manifestHash, defaultDepth), TxLocation(st, rec.txid);
            var located := rec.txid != "" && loc.Some?;
            && c.assetId == assetId && c.epoch == rec.artifactEpoch
            && c.manifestHash == (if rec.manifestHash != "" then rec.manifestHash else manifestHash)
            && (located ==>
                 && c.btcHeight == Some(loc.value.height) && c.btcWork == Some(loc.value.work)
                 && (loc.value.blockHash != "" ==> c.btcBlockHash == Some(loc.value.blockHash))
                 && c.observedAt == loc.value.timestamp && c.anchorId == rec.anchorId)
            && (c.confidence == FullyConfirmed <==> located && Depth(st, rec.txid) >= EffectiveDepth(cfg.depth))
            && (c.confidence == IncludedOnly <==> located && Depth(st, rec.txid) < EffectiveDepth(cfg.depth))
            && (c.confidence == Pending <==> rec.status in {COMMITMENT_PENDING, BROADCAST})
            && (c.confidence == Reorganised <==> rec.status == RE_ANCHOR_REQUIRED)
  {
    hide TxLocation;
  }

  /** An authoritative clock has the epoch that was recorded; the height of the
      block stands in only for a record without one. */
  lemma AuthoritativeEpoch(rec: AnchorRecord, manifestHash: string, defaultDepth: int)
    requires FromAnchorRecord(rec, manifestHash, defaultDepth).IsAuthoritative()
    ensures FromAnchorRecord(rec, manifestHash, defaultDepth).epoch
            == if rec.artifactEpoch.Some? then rec.artifactEpoch else rec.btcHeight
    ensures FromAnchorRecord(rec, manifestHash, defaultDepth).epoch.Some?
    ensures rec.canonical && rec.status in {INCLUDED, CONFIRMED}
  {
  }

  /** The clock of any record, synchronised or not: a record without a depth of its
      own is measured by the default, one that is not canonical is never fully
      confirmed, and without confidence nothing is claimed. */
  lemma ClockOfRecord(rec: AnchorRecord, manifestHash: string, defaultDepth: int)
    ensures var c := FromAnchorRecord(rec, manifestHash, defaultDepth);
            var depth := if rec.confirmationDepth == 0 then defaultDepth else rec.confirmationDepth;
            && (c.confidence == FullyConfirmed <==>
                 rec.canonical && (rec.status == CONFIRMED || (rec.status == INCLUDED && rec.confirmations >= depth)))
            && (c.confidence in {FullyConfirmed, IncludedOnly} <==> rec.status in {INCLUDED, CONFIRMED})
            && (c.confidence == Pending <==> rec.status in {COMMITMENT_PENDING, BROADCAST})
            && (c.confidence == Reorganised <==> rec.status in {REORGED, RE_ANCHOR_REQUIRED})
            && (c.IsAuthoritative() <==> c.confidence == FullyConfirmed && c.epoch.Some?)
            && c.observedAt == (if rec.includedAt.Some? then rec.includedAt.value else 0)
            && (rec.status == UNANCHORED ==>
                 c.epoch.None? && c.btcHeight.None? && c.btcBlockHash.None? && c.btcWork.None? && c.anchorId.None?)
            && (rec.status != UNANCHORED ==>
                 && c.epoch == (if rec.artifactEpoch.Some? then rec.artifactEpoch else rec.btcHeight)
                 && c.btcHeight == rec.btcHeight && c.btcWork == rec.btcWork && c.anchorId == rec.anchorId
                 && c.btcBlockHash == if rec.btcBlockHash == "" then None else Some(rec.btcBlockHash))
  {
  }

  /** A record without a version is checked as version 1. */
  lemma NoVersionIsFirst(cfg: Config, rec: AnchorRecord)
    requires rec.artifactEpoch.Some?
    ensures CommitmentMatches(cfg, rec.(commitmentVersion := 0)) <==> CommitmentMatches(cfg, rec.(commitmentVersion := 1))
  {
    hide Normal, Lower;
  }

  /** An accepted claim is about the manifest of the record, as far as both name
      one, and so is the manifest known here. */
  lemma AcceptedManifest(cfg: Config, claim: Claim, rec: AnchorRecord, localManifest: string)
    requires ClaimAgrees(cfg, claim, rec, localManifest) && rec.manifestHash != ""
    ensures claim.manifestHash in {"", rec.manifestHash} && localManifest in {"", rec.manifestHash}
  {
    hide CommitmentMatches;
  }

  /** A commitment binds asset, manifest, epoch and version: no record with others
      passes with the same commitment, unless the two derived commitments collide. */
  lemma CommitmentBinds(cfg: Config, a: AnchorRecord, b: AnchorRecord)
    requires a.artifactEpoch.Some? && b.artifactEpoch.Some? && a.commitmentVersion != 0 && b.commitmentVersion != 0
    requires CommitmentMatches(cfg, a) && CommitmentMatches(cfg, b) && Normal(a.commitment) == Normal(b.commitment)
    requires var x := (a.assetId, a.manifestHash, a.artifactEpoch.value, a.commitmentVersion);
             var y := (b.assetId, b.manifestHash, b.artifactEpoch.value, b.commitmentVersion);
             CollisionFree((t: (string, string, int, int)) => Lower(cfg.artifactCommitment(t.0, t.1, t.2, t.3)), {x, y})
    ensures a.assetId == b.assetId && a.manifestHash == b.manifestHash
    ensures a.artifactEpoch == b.artifactEpoch && a.commitmentVersion == b.commitmentVersion
  {
    hide Normal, Lower;
    var x := (a.assetId, a.manifestHash, a.artifactEpoch.value, a.commitmentVersion);
    var y := (b.assetId, b.manifestHash, b.artifactEpoch.value, b.commitmentVersion);
    assert x in {x, y} && y in {x, y};
  }

  /** The two notions of authority, of the lifecycle and of the clock, agree
      exactly unless a canonical record is CONFIRMED too early or still INCLUDED
      at full depth. */
  lemma AuthoritiesAgreeExactlyWhen(rec: AnchorRecord, manifestHash: string, defaultDepth: int)
    requires rec.artifactEpoch.Some? && rec.confirmationDepth >= 1
    ensures (FromAnchorRecord(rec, manifestHash, defaultDepth).IsAuthoritative()
             <==> Authoritative(rec.status, rec.canonical, rec.confirmations, rec.confirmationDepth))
       <==> (rec.canonical ==>
               && (rec.status == CONFIRMED ==> rec.confirmations >= rec.confirmationDepth)
               && (rec.status == INCLUDED ==> rec.confirmations < rec.confirmationDepth))
  {
  }

  /** After a synchronisation they do. */
  lemma AuthoritiesAgree(cfg: Config, st: ChainState, assetId: string, rec: AnchorRecord,
                         manifestHash: string, defaultDepth: int)
    requires st.canonical != [] && RecordInv(cfg, assetId, rec) && InStep(cfg, st, rec)
    ensures FromAnchorRecord(rec, manifestHash, defaultDepth).IsAuthoritative()
       <==> Authoritative(rec.status, rec.canonical, rec.confirmations, rec.confirmationDepth)
  {
    hide FromAnchorRecord, TxLocation, Depth;
    AuthoritiesAgreeExactlyWhen(rec, manifestHash, defaultDepth);
  }

  lemma LocationFound(st: ChainState, txid: string)
    requires TxLocation(st, txid).Some?
    ensures TxLocation(st, txid).value in st.canonical && txid in TxLocation(st, txid).value.txs
  {
  }

  lemma ClockHeight(rec: AnchorRecord, manifestHash: string, defaultDepth: int)
    requires FromAnchorRecord(rec, manifestHash, defaultDepth).IsAuthoritative()
    ensures FromAnchorRecord(rec, manifestHash, defaultDepth).btcHeight == rec.btcHeight
  {
  }

  /** Soundness of `reject_peer_clock_claim`. */
  lemma AcceptedClaimIsOnChain(cfg: Config, st: ChainState, assetId: string, rec: AnchorRecord, claim: Claim,
                               localManifest: string, defaultDepth: int) returns (b: Block)
    requires st.canonical != [] && RecordInv(cfg, assetId, rec) && InStep(cfg, st, rec)
    requires ClaimAccepted(cfg, claim, rec, localManifest, st)
    ensures BuriedIn(cfg, st, rec.txid, b)
    ensures claim.btcHeight.Some? ==> claim.btcHeight.value == b.height
    ensures claim.btcBlockHash != "" ==> claim.btcBlockHash == b.blockHash
    ensures claim.assetId == "" || claim.assetId == assetId
    ensures var clock := FromAnchorRecord(rec, localManifest, defaultDepth);
            clock.IsAuthoritative() && clock.btcHeight == Some(b.height)
  {
    hide TxLocation, IsCanonical, CommitmentMatches, FromAnchorRecord;
    AuthoritativeMeansBuried(cfg, st, assetId, rec, localManifest, defaultDepth);
    b := TxLocation(st, rec.txid).value;
    LocationFound(st, rec.txid);
    ClockHeight(rec, localManifest, defaultDepth);
  }

  /** Completeness: a claim that repeats a synchronised, confirmed record whose
      commitment checks out is accepted. */
  lemma HonestClaimIsAccepted(cfg: Config, st: ChainState, assetId: string, rec: AnchorRecord)
    requires ChainInv(cfg.blockHash, st) && NoCollision(st)
    requires RecordInv(cfg, assetId, rec)
    requires st.canonical != [] && InStep(cfg, st, rec) && rec.status == CONFIRMED
    requires CommitmentMatches(cfg, rec)
    ensures ClaimAccepted(cfg, Claim(rec.btcHeight, rec.btcBlockHash, rec.manifestHash, assetId), rec, rec.manifestHash, st)
  {
    hide Linked, Retained, NoCollision, TxLocation, IsCanonical, CommitmentMatches;
    LocationIsCanonical(cfg.blockHash, st, rec.txid);
  }

  /** The commitment that `record` derives itself checks out, as long as it is
      hexadecimal and the version is not zero. */
  lemma DerivedCommitmentMatches(cfg: Config, st: ChainState, req: Request)
    requires st.canonical != [] && req.commitment == "" && req.commitmentVersion != 0
    requires var c := NewRecord(cfg, st, req).commitment;
             forall i :: 0 <= i < |c| ==> DigitValue(c[i]).Some?
    ensures CommitmentMatches(cfg, NewRecord(cfg, st, req))
  {
    HexIsKept(NewRecord(cfg, st, req).commitment);
  }

  /** In every run: what a node accepts right after a synchronisation is on the
      canonical chain at full depth. */
  lemma AcceptedAfterSync(cfg: Config, run: Trace, n: nat, assetId: string, claim: Claim, localManifest: string,
                          defaultDepth: int) returns (b: Block)
    requires n < |run.steps| && run.steps[n].SyncStep?
    requires var s := ServiceRun(cfg, run, n); ListsAll(run.steps[n].assets, s.store) && NoCollision(s.chain)
    requires var s := ServiceRun(cfg, run, n + 1);
             && assetId in s.store && s.chain.canonical != []
             && ClaimAccepted(cfg, claim, s.store[assetId], localManifest, s.chain)
    ensures var s := ServiceRun(cfg, run, n + 1);
            && s.chain.canonical != []
            && BuriedIn(cfg, s.chain, s.store[assetId].txid, b)
            && (claim.btcHeight.Some? ==> claim.btcHeight.value == b.height)
            && (claim.btcBlockHash != "" ==> claim.btcBlockHash == b.blockHash)
            && FromAnchorRecord(s.store[assetId], localManifest, defaultDepth).IsAuthoritative()
  {
    hide Linked, Retained, NoCollision, ClaimAccepted, InStep, RecordInv, ServiceRun, FromAnchorRecord, BuriedIn;
    SyncDecides(cfg, run, n);
    var s := ServiceRun(cfg, run, n + 1);
    b := AcceptedClaimIsOnChain(cfg, s.chain, assetId, s.store[assetId], claim, localManifest, defaultDepth);
  }
}
