/** What every run of the piece pipeline keeps, whatever messages arrive from
    whatever peers (`mods/torrent_protocol/torrent_manager.py`).

    Main results: the bounds and the disjointness of the pipeline
    (`NextKeepsInv`), the choice of the rarest pieces (`ChoiceIsRarest`), that a
    finished file is the original one (`FileIsOriginal`), and exactly when it is
    written (`WrittenExactlyWhen`) or can still be (`RecoverableExactlyWhen`):
    messages under negative indices, which pass the checks, can spoil that. */
module TorrentRuns {
  import opened ByteStrings
  import opened Options
  import opened Hashing
  import opened TorrentState

  // ----- runs -----

  datatype Step =
    | StartStep(now: real, lost: set<int>)
    | PieceStep(msg: PieceMsg, now: real, lost: set<int>)
    | AnnounceStep(count: int)
    | FillStep(now: real, lost: set<int>)
    | StallStep(now: real, lost: set<int>)
    | ServeStep(index: int)

  datatype Setup = Setup(h: Hash, meta: TorrentMeta, maxOutstanding: nat)

  function Next(u: Setup, d: Download, step: Step): Download {
    match step
    case StartStep(now, lost) => Started(u.h, u.meta, d, u.maxOutstanding, now, lost)
    case PieceStep(msg, now, lost) => Received(u.h, u.meta, d, u.maxOutstanding, msg, now, lost)
    case AnnounceStep(count) => Announced(d, count)
    case FillStep(now, lost) => if d.known then Filled(d, u.meta.Count(), u.maxOutstanding, now, lost) else d
    case StallStep(now, lost) => if d.known then Recovered(d, u.meta, u.maxOutstanding, now, lost) else d
    case ServeStep(i) => if Served(d, u.meta, i).Some? then d.(rarity := Counted(d.rarity, i)) else d
  }

  /** Before the manifest arrives only piece files of an earlier run are there. */
  function Initial(disk: map<int, Bytes>): Download {
    Download(false, {}, map[], map[], map[], map[], disk, None, true)
  }

  /** The download after the first n steps. */
  function After(u: Setup, disk: map<int, Bytes>, steps: seq<Step>, n: nat): Download
    requires n <= |steps|
  {
    if n == 0 then Initial(disk) else Next(u, After(u, disk, steps, n - 1), steps[n - 1])
  }

  function Run(u: Setup, disk: map<int, Bytes>, steps: seq<Step>): Download {
    After(u, disk, steps, |steps|)
  }

  // ----- the invariant -----

  ghost predicate Matches(u: Setup, i: int, data: Bytes) {
    HasSlot(u.meta.Count(), i) && Hex(u.h(data)) == u.meta.pieceHashes[Slot(u.meta.Count(), i)]
  }

  /** The pipeline: bounded, about existing pieces, and never about a piece that
      is already there. */
  ghost predicate PipelineInv(u: Setup, pending: map<int, real>, have: set<int>) {
    && |pending| <= u.maxOutstanding
    && forall i :: i in pending ==> 0 <= i < u.meta.Count() && i !in have
  }

  ghost predicate AllHad(u: Setup, have: set<int>) {
    forall i :: 0 <= i < u.meta.Count() ==> i in have
  }

  /** What is stored: every piece matches the manifest hash its index reads, in
      memory and, once it counts as had, on disk; a finished file means that
      nothing is missing.  Pieces under negative indices never leave the memory. */
  ghost predicate StorageInv(u: Setup, known: bool, have: set<int>, pieces: map<int, Bytes>, disk: map<int, Bytes>,
                             file: Option<Bytes>) {
    && (forall i :: i in have ==> HasSlot(u.meta.Count(), i) && (i < 0 ==> i in pieces))
    && (forall i :: i in pieces ==> i in have && Matches(u, i, pieces[i]))
    && (forall i :: i in have && i in disk ==> Matches(u, i, disk[i]))
    && (known ==> forall i :: i >= 0 && i in disk && Matches(u, i, disk[i]) ==> i in have)
    && (file.None? ==> pieces.Keys == have)
    && (file.Some? ==> AllHad(u, have))
    && (!known ==> have == {} && file.None?)
  }

  ghost predicate DownloadInv(u: Setup, d: Download) {
    && PipelineInv(u, d.pending, d.have)
    && StorageInv(u, d.known, d.have, d.pieces, d.disk, d.file)
    && (!d.known ==> d.pending == map[])
  }

  // ----- the fill -----

  function Elements(xs: seq<int>): (s: set<int>)
    ensures forall x :: x in s <==> x in xs
    ensures |s| <= |xs|
  {
    if xs == [] then {} else {xs[0]} + Elements(xs[1..])
  }

  lemma SubsetSize<T>(a: set<T>, b: set<T>)
    requires a <= b
    ensures |a| <= |b|
  {
    assert b == a + (b - a);
  }

  lemma UnionSize<T>(a: set<T>, b: set<T>)
    ensures |a + b| <= |a| + |b|
  {
    SubsetSize(b - a, b);
    assert a + b == a + (b - a);
  }

  lemma LiveIsFewer(pending: map<int, real>, now: real)
    ensures forall i :: i in LivePending(pending, now) ==> i in pending
    ensures |LivePending(pending, now)| <= |pending|
  {
    SubsetSize(LivePending(pending, now).Keys, pending.Keys);
  }

  lemma RequestedKeys(pending: map<int, real>, xs: seq<int>, now: real, lost: set<int>)
    ensures forall i :: i in Requested(pending, xs, now, lost) ==> i in pending || i in xs
  {
  }

  /** Never more requests than free slots. */
  lemma RequestedBound(pending: map<int, real>, xs: seq<int>, now: real, lost: set<int>)
    ensures |Requested(pending, xs, now, lost)| <= |pending| + |xs|
  {
    hide Requested;
    RequestedKeys(pending, xs, now, lost);
    var asked := Elements(xs);
    var keys := Requested(pending, xs, now, lost).Keys;
    UnionSize(pending.Keys, asked);
    hide Elements;
    forall i | i in keys
      ensures i in pending.Keys + asked
    {
      assert i in Requested(pending, xs, now, lost);
    }
    SubsetSize(keys, pending.Keys + asked);
  }

  lemma InPrefix(xs: seq<int>, k: int)
    ensures forall x :: x in Prefix(xs, k) ==> x in xs
  {
  }

  /** The chosen pieces are eligible, and no more than there are slots. */
  lemma ChoiceFacts(d: Download, n: nat, maxOutstanding: nat, now: real)
    ensures forall i :: i in Choice(d, n, maxOutstanding, now) ==> 0 <= i < n && Eligible(Expired(d, now), now, i)
    ensures |Choice(d, n, maxOutstanding, now)|
         == Min(Max0(maxOutstanding - |Expired(d, now).pending|), |RankedEligible(Expired(d, now), now, n)|)
  {
    hide Eligible, Expired;
    InPrefix(RankedEligible(Expired(d, now), now, n), Max0(maxOutstanding - |Expired(d, now).pending|));
  }

  lemma FilledFacts(d: Download, n: nat, maxOutstanding: nat, now: real, lost: set<int>)
    requires |d.pending| <= maxOutstanding
    ensures var r := Filled(d, n, maxOutstanding, now, lost);
            && |r.pending| <= maxOutstanding
            && (forall i :: i in r.pending ==> i in d.pending || (0 <= i < n && i !in d.have))
            && r == d.(pending := r.pending, backoff := r.backoff)
  {
    hide LaterBackoff, RankedEligible, LivePending, Choice, Requested;
    var e := Expired(d, now);
    var choice := Choice(d, n, maxOutstanding, now);
    LiveIsFewer(d.pending, now);
    ChoiceFacts(d, n, maxOutstanding, now);
    RequestedBound(e.pending, choice, now, lost);
    RequestedKeys(e.pending, choice, now, lost);
  }

  lemma LeftOut(rarity: map<int, nat>, all: seq<int>, choice: seq<int>, i: int, j: int)
    requires Ranked(rarity, all) && choice <= all && j in choice && i in all && i !in choice
    ensures Before(rarity, j, i)
  {
    hide Before;
    var b :| 0 <= b < |all| && all[b] == i;
    var a :| 0 <= a < |choice| && choice[a] == j;
    assert all[a] == j;
    assert b >= |choice|;
  }

  lemma AllDiffer(rarity: map<int, nat>, xs: seq<int>)
    requires Ranked(rarity, xs)
    ensures forall a, b :: 0 <= a < b < |xs| ==> xs[a] != xs[b]
  {
    forall a, b | 0 <= a < b < |xs|
      ensures xs[a] != xs[b]
    {
      assert Before(rarity, xs[a], xs[b]);
    }
  }

  /** A piece that may be asked for: missing, not asked for in the last 20
      seconds, and not kept back any longer.  `backoff` is the table after the
      overdue requests have expired. */
  ghost predicate MayAsk(d: Download, backoff: map<int, real>, n: nat, now: real, i: int) {
    && 0 <= i < n && i !in d.have
    && (i in d.pending ==> now - d.pending[i] > 20.0)
    && (i in backoff ==> backoff[i] <= now)
  }

  lemma MayAskIs(d: Download, n: nat, now: real, i: int)
    ensures MayAsk(d, Expired(d, now).backoff, n, now, i) <==> 0 <= i < n && Eligible(Expired(d, now), now, i)
  {
    hide LaterBackoff;
  }

  /** A fill asks for as many pieces as there are slots, each of them before every
      other piece that it might have asked for, by rarity and then by index. */
  lemma ChoiceIsRarest(d: Download, n: nat, maxOutstanding: nat, now: real)
    ensures var e := Expired(d, now);
            var choice := Choice(d, n, maxOutstanding, now);
            && (forall i :: i in choice ==> MayAsk(d, e.backoff, n, now, i))
            && (forall i, j :: j in choice && MayAsk(d, e.backoff, n, now, i) && i !in choice ==>
                 || RarityOf(d.rarity, j) < RarityOf(d.rarity, i)
                 || (RarityOf(d.rarity, j) == RarityOf(d.rarity, i) && j < i))
            && (forall i :: MayAsk(d, e.backoff, n, now, i) && i !in choice ==>
                 |choice| == Max0(maxOutstanding - |e.pending|))
            && |choice| <= Max0(maxOutstanding - |e.pending|)
            && forall a, b :: 0 <= a < b < |choice| ==> choice[a] != choice[b]
  {
    hide LaterBackoff, LivePending, Eligible, MayAsk;
    ChoiceFacts(d, n, maxOutstanding, now);
    var e := Expired(d, now);
    var all := RankedEligible(e, now, n);
    var choice := Choice(d, n, maxOutstanding, now);
    forall i
      ensures MayAsk(d, e.backoff, n, now, i) <==> i in all
    {
      MayAskIs(d, n, now, i);
    }
    AllDiffer(d.rarity, all);
    forall i | i in all && i !in choice
      ensures |choice| == Max0(maxOutstanding - |e.pending|)
    {
      assert choice != all;
    }
    forall i, j | j in choice && i in all && i !in choice
      ensures Before(d.rarity, j, i)
    {
      LeftOut(d.rarity, all, choice, i, j);
    }
  }

  /** What a fill does to the tables: a request that has waited for more than 20
      seconds is given up, and its piece kept back for 1.7 times its former
      entry, but no later than 120 seconds from now; the others go on waiting;
      and each piece chosen is asked for now, unless the request is lost. */
  lemma FillIs(d: Download, n: nat, maxOutstanding: nat, now: real, lost: set<int>)
    ensures var r, choice := Filled(d, n, maxOutstanding, now, lost), Choice(d, n, maxOutstanding, now);
            && (forall i :: i in r.backoff <==> i in d.backoff || (i in d.pending && now - d.pending[i] > 20.0))
            && (forall i :: i in r.backoff ==>
                 r.backoff[i] == if i in d.pending && now - d.pending[i] > 20.0 then
                                   var next := 1.7 * (if i in d.backoff then d.backoff[i] else 20.0);
                                   now + (if next <= 120.0 then next else 120.0)
                                 else d.backoff[i])
            && (forall i :: i in r.pending <==>
                 (i in d.pending && now - d.pending[i] <= 20.0) || (i in choice && i !in lost))
            && (forall i :: i in r.pending ==>
                 r.pending[i] == if i in d.pending && now - d.pending[i] <= 20.0 then d.pending[i] else now)
            && (forall i :: i in choice ==> MayAsk(d, r.backoff, n, now, i))
  {
    hide RankedEligible, Choice;
    ChoiceIsRarest(d, n, maxOutstanding, now);
  }

  lemma {:induction false} DistinctElements(xs: seq<int>)
    requires forall a, b :: 0 <= a < b < |xs| ==> xs[a] != xs[b]
    ensures |Elements(xs)| == |xs|
    decreases |xs|
  {
    if xs != [] {
      DistinctElements(xs[1..]);
      assert xs[0] !in xs[1..];
    }
  }

  lemma RequestedAll(pending: map<int, real>, xs: seq<int>, now: real)
    ensures forall i :: i in Requested(pending, xs, now, {}).Keys <==> i in pending.Keys + Elements(xs)
  {
    hide Elements;
    forall i
      ensures i in Requested(pending, xs, now, {}).Keys <==> i in pending.Keys + Elements(xs)
    {
      assert i in Requested(pending, xs, now, {}) <==> i in pending || i in xs;
    }
  }

  lemma SameElements<T>(a: set<T>, b: set<T>)
    requires forall x :: x in a <==> x in b
    ensures a == b
  {
  }

  lemma DisjointSize<T>(a: set<T>, b: set<T>)
    requires forall x :: x in a ==> x !in b
    ensures |a + b| == |a| + |b|
  {
    assert a !! b;
  }

  lemma NothingLost(pending: map<int, real>, xs: seq<int>, now: real)
    requires forall a, b :: 0 <= a < b < |xs| ==> xs[a] != xs[b]
    requires forall i :: i in xs ==> i !in pending
    ensures |Requested(pending, xs, now, {})| == |pending| + |xs|
  {
    DistinctElements(xs);
    hide Elements;
    RequestedAll(pending, xs, now);
    hide Requested;
    var keys, asked := Requested(pending, xs, now, {}).Keys, Elements(xs);
    SameElements(keys, pending.Keys + asked);
    DisjointSize(pending.Keys, asked);
  }

  /** If no request is lost, a fill that leaves a slot free has asked for every
      piece that it may ask for. */
  lemma FillUsesSlots(d: Download, n: nat, maxOutstanding: nat, now: real, i: int)
    requires |d.pending| <= maxOutstanding
    requires var r := Filled(d, n, maxOutstanding, now, {});
             |r.pending| < maxOutstanding && MayAsk(d, r.backoff, n, now, i)
    ensures i in Filled(d, n, maxOutstanding, now, {}).pending
  {
    hide LaterBackoff, LivePending, Choice, RankedEligible, MayAsk, Requested;
    ChoiceIsRarest(d, n, maxOutstanding, now);
    ChoiceFacts(d, n, maxOutstanding, now);
    FillIs(d, n, maxOutstanding, now, {});
    LiveIsFewer(d.pending, now);
    NothingLost(Expired(d, now).pending, Choice(d, n, maxOutstanding, now), now);
  }

  /** A fill touches requests only. */
  lemma FilledStores(d: Download, u: Setup, now: real, lost: set<int>)
    ensures var r := Filled(d, u.meta.Count(), u.maxOutstanding, now, lost);
            r == d.(pending := r.pending, backoff := r.backoff)
  {
    hide LivePending, LaterBackoff, Requested, Choice;
  }

  /** A stall recovery forgets all back-off, and what is then pending was asked
      for just now. */
  lemma RecoveredIs(d: Download, meta: TorrentMeta, maxOutstanding: nat, now: real, lost: set<int>)
    ensures var r := Recovered(d, meta, maxOutstanding, now, lost);
            && (forall i :: i !in r.backoff)
            && forall i :: i in r.pending ==> r.pending[i] == now && 0 <= i < meta.Count() && i !in d.have
  {
    hide Filled, Choice;
    FillIs(d.(backoff := map[], pending := map[]), meta.Count(), maxOutstanding, now, lost);
  }

  lemma StartWants(u: Setup, d: Download, now: real, lost: set<int>)
    ensures Started(u.h, u.meta, d, u.maxOutstanding, now, lost).wanted
       <==> && !(if d.known then |d.have| == u.meta.Count() else d.file.Some?)
            && u.meta.Count() <= 50000 && u.meta.size <= 32 * 1024 * 1024 * 1024
  {
    hide Filled, MatchingOnDisk;
    FilledStores(Loaded(u.h, u.meta, d.(wanted := true, known := true)), u, now, lost);
  }

  /** What a fill leaves in the pipeline: the requests that are not overdue, and
      new ones for pieces that are missing and not kept back; all of those when
      no request is lost and a slot stays free. */
  ghost predicate FilledRightly(d: Download, r: Download, n: nat, maxOutstanding: nat, now: real, lost: set<int>) {
    && (forall i :: i in r.pending ==>
         || (i in d.pending && now - d.pending[i] <= 20.0 && r.pending[i] == d.pending[i])
         || (0 <= i < n && i !in d.have && (i in r.backoff ==> r.backoff[i] <= now) && r.pending[i] == now))
    && (forall i :: i in d.pending && now - d.pending[i] <= 20.0 ==> i in r.pending)
    && (lost == {} && |r.pending| < maxOutstanding ==>
         forall i :: 0 <= i < n && i !in d.have && (i in r.backoff ==> r.backoff[i] <= now) ==> i in r.pending)
  }

  lemma FillIsRight(u: Setup, d: Download, now: real, lost: set<int>)
    requires DownloadInv(u, d)
    ensures FilledRightly(d, Filled(d, u.meta.Count(), u.maxOutstanding, now, lost),
                          u.meta.Count(), u.maxOutstanding, now, lost)
  {
    hide Filled, Choice, StorageInv;
    var n, max := u.meta.Count(), u.maxOutstanding;
    var r := Filled(d, n, max, now, lost);
    FillIs(d, n, max, now, lost);
    if lost == {} && |r.pending| < max {
      forall i | 0 <= i < n && i !in d.have && (i in r.backoff ==> r.backoff[i] <= now)
        ensures i in r.pending
      {
        if !(i in d.pending && now - d.pending[i] <= 20.0) {
          FillUsesSlots(d, n, max, now, i);
        }
      }
    }
  }

  /** A piece newly asked for, now, that was missing and not kept back. */
  ghost predicate AskedRightly(r: Download, n: nat, now: real, i: int) {
    && 0 <= i < n && i !in r.have
    && (i in r.backoff ==> r.backoff[i] <= now)
    && i in r.pending && r.pending[i] == now
  }

  lemma FillAsks(d: Download, n: nat, maxOutstanding: nat, now: real, lost: set<int>, i: int)
    requires i in Filled(d, n, maxOutstanding, now, lost).pending && i !in d.pending
    ensures AskedRightly(Filled(d, n, maxOutstanding, now, lost), n, now, i)
  {
    FillIs(d, n, maxOutstanding, now, lost);
    hide LaterBackoff, LivePending, Choice, Requested;
  }

  lemma LoadedAsks(u: Setup, d: Download)
    ensures Loaded(u.h, u.meta, d.(wanted := true, known := true)).pending == d.pending
  {
  }

  lemma ReceiveAsks(u: Setup, d: Download, msg: PieceMsg, now: real, lost: set<int>, i: int)
    requires i in Received(u.h, u.meta, d, u.maxOutstanding, msg, now, lost).pending && i !in d.pending
    ensures AskedRightly(Received(u.h, u.meta, d, u.maxOutstanding, msg, now, lost), u.meta.Count(), now, i)
  {
    hide Filled, Accepted, Join, AskedRightly;
    if d.known && Accepted(u.h, u.meta, msg).Some? {
      var data := Accepted(u.h, u.meta, msg).value;
      if msg.index in d.have {
        FillAsks(Answered(d, msg.index), u.meta.Count(), u.maxOutstanding, now, lost, i);
      } else if |TakenIn(d, msg.index, data).have| != u.meta.Count() {
        FillAsks(TakenIn(d, msg.index, data), u.meta.Count(), u.maxOutstanding, now, lost, i);
      }
    }
  }

  /** Whatever the step, a request that it adds is for a piece that is missing and
      not kept back at that time. */
  lemma NewRequests(u: Setup, d: Download, step: Step, i: int)
    requires i in Next(u, d, step).pending && i !in d.pending
    ensures !step.AnnounceStep? && !step.ServeStep? && AskedRightly(Next(u, d, step), u.meta.Count(), step.now, i)
  {
    hide Filled, Received, Loaded, Served, AskedRightly;
    var n := u.meta.Count();
    match step
    case StartStep(now, lost) =>
      var loaded := Loaded(u.h, u.meta, d.(wanted := true, known := true));
      LoadedAsks(u, d);
      FillAsks(loaded, n, u.maxOutstanding, now, lost, i);
    case PieceStep(msg, now, lost) => ReceiveAsks(u, d, msg, now, lost, i);
    case AnnounceStep(count) =>
    case FillStep(now, lost) => FillAsks(d, n, u.maxOutstanding, now, lost, i);
    case StallStep(now, lost) => FillAsks(d.(backoff := map[], pending := map[]), n, u.maxOutstanding, now, lost, i);
    case ServeStep(k) =>
  }

  // ----- every step keeps the invariant -----

  lemma FillKeeps(u: Setup, d: Download, now: real, lost: set<int>)
    requires DownloadInv(u, d) && d.known
    ensures DownloadInv(u, Filled(d, u.meta.Count(), u.maxOutstanding, now, lost))
  {
    hide StorageInv, Filled;
    FilledFacts(d, u.meta.Count(), u.maxOutstanding, now, lost);
  }

  lemma AcceptedMatches(u: Setup, msg: PieceMsg)
    requires Accepted(u.h, u.meta, msg).Some?
    ensures Matches(u, msg.index, Accepted(u.h, u.meta, msg).value)
    ensures FromHex(msg.data) == Accepted(u.h, u.meta, msg)
    ensures -(u.meta.Count() as int) <= msg.index < u.meta.Count()
    ensures msg.data != "" && msg.hash == Hex(u.h(Accepted(u.h, u.meta, msg).value))
  {
  }

  lemma MatchesBelow(u: Setup)
    ensures forall i, x :: Matches(u, i, x) ==> HasSlot(u.meta.Count(), i)
  {
  }

  lemma FullHave(n: nat, have: set<int>)
    requires forall i :: i in have ==> 0 <= i < n
    ensures |have| <= n
    ensures |have| == n ==> have == FirstIndices(n)
  {
    var all := FirstIndices(n);
    SubsetSize(have, all);
    if |have| == n {
      assert |all - have| == |all| - |have|;
      assert all - have == {};
    }
  }

  /** All the pieces of the manifest and nothing else. */
  lemma AllAndNoMore(u: Setup, have: set<int>)
    requires AllHad(u, have)
    ensures |have| >= u.meta.Count()
    ensures |have| == u.meta.Count() ==> have == FirstIndices(u.meta.Count())
  {
    var all := FirstIndices(u.meta.Count());
    SubsetSize(all, have);
    if |have| == u.meta.Count() {
      assert |have - all| == |have| - |all|;
      assert have - all == {};
    }
  }

  lemma PendingWithout(u: Setup, pending: map<int, real>, have: set<int>, i: int)
    requires PipelineInv(u, pending, have)
    ensures PipelineInv(u, pending - {i}, have + {i})
    ensures PipelineInv(u, pending - {i}, have)
  {
    SubsetSize((pending - {i}).Keys, pending.Keys);
  }

  lemma StorageWith(u: Setup, have: set<int>, pieces: map<int, Bytes>, disk: map<int, Bytes>, file: Option<Bytes>,
                    i: int, data: Bytes)
    requires StorageInv(u, true, have, pieces, disk, file) && i !in have && Matches(u, i, data)
    ensures StorageInv(u, true, have + {i}, pieces[i := data], disk[i := data], file)
  {
    MatchesBelow(u);
    hide Matches, HasSlot;
    assert pieces[i := data].Keys == pieces.Keys + {i};
  }

  /** The assembly changes nothing, or it writes the file and clears the tables. */
  lemma AssembledIs(d: Download, meta: TorrentMeta)
    ensures var r := Assembled(d, meta);
            || r == d
            || (&& (forall i :: 0 <= i < meta.Count() ==> i in d.pieces)
                && r.file.Some? && |r.file.value| == meta.size
                && r.pieces == map[] && r.pending == map[] && r.backoff == map[] && !r.wanted
                && (forall i :: i in r.disk <==> i in d.disk && !(0 <= i < meta.Count()))
                && (forall i :: i in r.disk ==> r.disk[i] == d.disk[i])
                && r.known == d.known && r.have == d.have && r.rarity == d.rarity)
  {
    hide Join;
  }

  lemma AssembleKeeps(u: Setup, d: Download)
    requires DownloadInv(u, d) && d.known && |d.have| == u.meta.Count()
    ensures DownloadInv(u, Assembled(d, u.meta))
  {
    MatchesBelow(u);
    AssembledIs(d, u.meta);
    hide Assembled, Matches, HasSlot;
    var r := Assembled(d, u.meta);
    if r != d {
      assert AllHad(u, d.have);
      AllAndNoMore(u, d.have);
    }
  }

  lemma TakeInKeeps(u: Setup, d: Download, i: int, data: Bytes)
    requires DownloadInv(u, d) && d.known && i !in d.have && Matches(u, i, data)
    ensures DownloadInv(u, TakenIn(d, i, data))
  {
    hide Matches, PipelineInv, StorageInv;
    PendingWithout(u, d.pending, d.have, i);
    StorageWith(u, d.have, d.pieces, d.disk, d.file, i, data);
  }

  lemma AnswerKeeps(u: Setup, d: Download, i: int)
    requires DownloadInv(u, d)
    ensures DownloadInv(u, Answered(d, i))
  {
    hide PipelineInv, StorageInv;
    PendingWithout(u, d.pending, d.have, i);
  }

  lemma StillKnown(d: Download, i: int, data: Bytes)
    ensures Answered(d, i).known == d.known && TakenIn(d, i, data).known == d.known
  {
  }

  lemma ReceiveKeeps(u: Setup, d: Download, msg: PieceMsg, now: real, lost: set<int>)
    requires DownloadInv(u, d)
    ensures DownloadInv(u, Received(u.h, u.meta, d, u.maxOutstanding, msg, now, lost))
  {
    hide Accepted, Matches, Filled, Assembled, TakenIn, Answered, DownloadInv;
    if d.known && Accepted(u.h, u.meta, msg).Some? {
      var i, data := msg.index, Accepted(u.h, u.meta, msg).value;
      AcceptedMatches(u, msg);
      if i in d.have {
        AnswerKeeps(u, d, i);
        StillKnown(d, i, data);
        FillKeeps(u, Answered(d, i), now, lost);
      } else {
        TakeInKeeps(u, d, i, data);
        StillKnown(d, i, data);
        if |TakenIn(d, i, data).have| == u.meta.Count() {
          AssembleKeeps(u, TakenIn(d, i, data));
        } else {
          FillKeeps(u, TakenIn(d, i, data), now, lost);
        }
      }
    }
  }

  lemma FoundFacts(u: Setup, disk: map<int, Bytes>)
    ensures forall i :: i in MatchingOnDisk(u.h, u.meta, disk) <==> i >= 0 && i in disk && Matches(u, i, disk[i])
    ensures forall i :: i in MatchingOnDisk(u.h, u.meta, disk) ==> MatchingOnDisk(u.h, u.meta, disk)[i] == disk[i]
  {
  }

  lemma NothingLeftOnDisk(u: Setup, d: Download)
    requires DownloadInv(u, d) && d.known
    ensures MatchingOnDisk(u.h, u.meta, d.disk).Keys <= d.have
  {
    FoundFacts(u, d.disk);
    hide Matches, MatchingOnDisk, PipelineInv;
    forall i | i in MatchingOnDisk(u.h, u.meta, d.disk).Keys
      ensures i in d.have
    {
      assert i in MatchingOnDisk(u.h, u.meta, d.disk);
    }
  }

  lemma LoadKeepsStorage(u: Setup, d: Download)
    requires DownloadInv(u, d)
    ensures var r := Loaded(u.h, u.meta, d); StorageInv(u, true, r.have, r.pieces, r.disk, r.file)
  {
    FoundFacts(u, d.disk);
    MatchesBelow(u);
    hide Matches, HasSlot, MatchingOnDisk, PipelineInv;
    var found := MatchingOnDisk(u.h, u.meta, d.disk);
    assert d.file.None? ==> (d.pieces + found).Keys == d.have + found.Keys;
  }

  lemma LoadKeeps(u: Setup, d: Download)
    requires DownloadInv(u, d)
    ensures DownloadInv(u, Loaded(u.h, u.meta, d.(wanted := true, known := true)))
  {
    hide StorageInv, MatchingOnDisk;
    LoadKeepsStorage(u, d);
    if d.known {
      NothingLeftOnDisk(u, d);
      assert d.have + MatchingOnDisk(u.h, u.meta, d.disk).Keys == d.have;
    }
  }

  lemma LoadedKnown(u: Setup, d: Download)
    ensures Loaded(u.h, u.meta, d.(wanted := true, known := true)).known
  {
  }

  lemma StartKeeps(u: Setup, d: Download, now: real, lost: set<int>)
    requires DownloadInv(u, d)
    ensures DownloadInv(u, Started(u.h, u.meta, d, u.maxOutstanding, now, lost))
  {
    hide Matches, Filled, Loaded, StorageInv, PipelineInv;
    if !Complete(d, u.meta) && !(u.meta.Count() > MAX_PIECES || u.meta.size > MAX_FILE_SIZE) {
      LoadKeeps(u, d);
      LoadedKnown(u, d);
      FillKeeps(u, Loaded(u.h, u.meta, d.(wanted := true, known := true)), now, lost);
    }
  }

  lemma StallKeeps(u: Setup, d: Download)
    requires DownloadInv(u, d) && d.known
    ensures DownloadInv(u, d.(backoff := map[], pending := map[]))
  {
    hide StorageInv;
  }

  /** Every step keeps the pipeline bounded and disjoint from what is had, and
      every stored piece matching its hash. */
  lemma NextKeepsInv(u: Setup, d: Download, step: Step)
    requires DownloadInv(u, d)
    ensures DownloadInv(u, Next(u, d, step))
  {
    hide Matches, Filled, Received, Started, Served, StorageInv, PipelineInv;
    match step
    case StartStep(now, lost) => StartKeeps(u, d, now, lost);
    case PieceStep(msg, now, lost) => ReceiveKeeps(u, d, msg, now, lost);
    case AnnounceStep(count) =>
    case FillStep(now, lost) =>
      if d.known {
        FillKeeps(u, d, now, lost);
      }
    case StallStep(now, lost) =>
      if d.known {
        StallKeeps(u, d);
        FillKeeps(u, d.(backoff := map[], pending := map[]), now, lost);
      }
    case ServeStep(i) =>
  }

  lemma InitialInv(u: Setup, disk: map<int, Bytes>)
    ensures DownloadInv(u, Initial(disk))
  {
  }

  lemma {:induction false} RunKeepsInv(u: Setup, disk: map<int, Bytes>, steps: seq<Step>, n: nat)
    requires n <= |steps|
    ensures DownloadInv(u, After(u, disk, steps, n))
  {
    hide DownloadInv, Next;
    if n == 0 {
      InitialInv(u, disk);
    } else {
      RunKeepsInv(u, disk, steps, n - 1);
      NextKeepsInv(u, After(u, disk, steps, n - 1), steps[n - 1]);
    }
  }

  // ----- the file is the original -----

  /** The data that a step brings in, whoever sent it. */
  ghost function Payload(step: Step): set<Bytes> {
    if step.PieceStep? && FromHex(step.msg.data).Some? then {FromHex(step.msg.data).value} else {}
  }

  /** What was on disk before and what the first n steps bring in. */
  ghost function PayloadsOf(disk: map<int, Bytes>, steps: seq<Step>, n: nat): set<Bytes>
    requires n <= |steps|
  {
    if n == 0 then disk.Values else PayloadsOf(disk, steps, n - 1) + Payload(steps[n - 1])
  }

  ghost function Payloads(disk: map<int, Bytes>, steps: seq<Step>): set<Bytes> {
    PayloadsOf(disk, steps, |steps|)
  }

  ghost predicate StoredFrom(d: Download, all: set<Bytes>) {
    && (forall i :: i in d.pieces ==> d.pieces[i] in all)
    && (forall i :: i in d.disk ==> d.disk[i] in all)
  }

  ghost function OriginalPieces(meta: TorrentMeta, data: Bytes): set<Bytes> {
    set i | 0 <= i < meta.Count() :: Piece(data, meta.pieceSize, i)
  }

  /** The manifest was made from the data, and none of the given payloads
      collides with a piece of it. */
  ghost predicate Genuine(u: Setup, data: Bytes, all: set<Bytes>) {
    MadeFrom(u.h, u.meta, data) && CollisionFree(u.h, all + OriginalPieces(u.meta, data))
  }

  lemma MatchIsOriginal(u: Setup, data: Bytes, all: set<Bytes>, i: int, x: Bytes)
    requires Genuine(u, data, all) && Matches(u, i, x) && x in all
    ensures x == Piece(data, u.meta.pieceSize, Slot(u.meta.Count(), i))
  {
    hide Piece, Hex;
    var k := Slot(u.meta.Count(), i);
    var p := Piece(data, u.meta.pieceSize, k);
    HexInjective(u.h(x), u.h(p));
    assert p in OriginalPieces(u.meta, data);
  }

  lemma PiecesCover(size: nat, pieceSize: nat)
    requires pieceSize > 0
    ensures size <= PieceCount(size, pieceSize) * pieceSize
  {
    var m := size + pieceSize - 1;
    assert m == m / pieceSize * pieceSize + m % pieceSize;
  }

  /** With nothing missing, joining the pieces gives the original. */
  lemma JoinIsOriginal(u: Setup, data: Bytes, all: set<Bytes>, d: Download)
    requires Genuine(u, data, all) && DownloadInv(u, d) && StoredFrom(d, all)
    requires d.file.None? && AllHad(u, d.have)
    ensures forall i :: 0 <= i < u.meta.Count() ==> i in d.pieces
    ensures Join(Ordered(d.pieces, u.meta.Count())) == data
  {
    hide Piece, Join, Matches;
    var n, size := u.meta.Count(), u.meta.pieceSize;
    forall i: nat | i < n
      ensures i in d.pieces && d.pieces[i] == Piece(data, size, i)
    {
      assert i in d.pieces.Keys;
      MatchIsOriginal(u, data, all, i, d.pieces[i]);
    }
    assert Ordered(d.pieces, n) == Pieces(data, size, n);
    JoinPieces(data, size, n);
    PiecesCover(|data|, size);
  }

  lemma StoredLoaded(u: Setup, d: Download, all: set<Bytes>)
    requires StoredFrom(d, all)
    ensures StoredFrom(Loaded(u.h, u.meta, d.(wanted := true, known := true)), all)
  {
    FoundFacts(u, d.disk);
    hide MatchingOnDisk, Matches;
  }

  lemma StoredAssembled(d: Download, meta: TorrentMeta, all: set<Bytes>)
    requires StoredFrom(d, all)
    ensures StoredFrom(Assembled(d, meta), all)
  {
    hide Join;
  }

  lemma StoredTaken(d: Download, i: int, x: Bytes, all: set<Bytes>)
    requires StoredFrom(d, all) && x in all
    ensures StoredFrom(TakenIn(d, i, x), all)
  {
  }

  lemma StoredReceived(u: Setup, d: Download, msg: PieceMsg, now: real, lost: set<int>, all: set<Bytes>)
    requires StoredFrom(d, all) && Payload(PieceStep(msg, now, lost)) <= all
    ensures StoredFrom(Received(u.h, u.meta, d, u.maxOutstanding, msg, now, lost), all)
  {
    hide Filled, Accepted, FromHex, Assembled;
    if Accepted(u.h, u.meta, msg).Some? {
      var i, x := msg.index, Accepted(u.h, u.meta, msg).value;
      AcceptedMatches(u, msg);
      FilledStores(Answered(d, i), u, now, lost);
      StoredTaken(d, i, x, all);
      FilledStores(TakenIn(d, i, x), u, now, lost);
      StoredAssembled(TakenIn(d, i, x), u.meta, all);
    }
  }

  lemma StoredNext(u: Setup, d: Download, step: Step, all: set<Bytes>)
    requires StoredFrom(d, all) && Payload(step) <= all
    ensures StoredFrom(Next(u, d, step), all)
  {
    hide Filled, Received, Served, Loaded, Payload;
    match step
    case StartStep(now, lost) =>
      StoredLoaded(u, d, all);
      FilledStores(Loaded(u.h, u.meta, d.(wanted := true, known := true)), u, now, lost);
    case PieceStep(msg, now, lost) => StoredReceived(u, d, msg, now, lost, all);
    case AnnounceStep(count) =>
    case FillStep(now, lost) => FilledStores(d, u, now, lost);
    case StallStep(now, lost) => FilledStores(d.(backoff := map[], pending := map[]), u, now, lost);
    case ServeStep(i) =>
  }

  lemma SizeOfManifest(u: Setup, data: Bytes, all: set<Bytes>)
    requires Genuine(u, data, all)
    ensures u.meta.size == |data|
  {
  }

  lemma LastPieceFinishes(u: Setup, data: Bytes, taken: Download, all: set<Bytes>)
    requires Genuine(u, data, all) && DownloadInv(u, taken) && StoredFrom(taken, all)
    requires taken.file.None? && AllHad(u, taken.have)
    ensures Assembled(taken, u.meta).file == Some(data)
  {
    hide DownloadInv, StoredFrom, Genuine, Join;
    JoinIsOriginal(u, data, all, taken);
    SizeOfManifest(u, data, all);
  }

  lemma TakenFacts(u: Setup, d: Download, msg: PieceMsg, now: real, lost: set<int>, all: set<Bytes>)
    requires DownloadInv(u, d) && StoredFrom(d, all) && d.known && d.file.None?
    requires Payload(PieceStep(msg, now, lost)) <= all
    requires Accepted(u.h, u.meta, msg).Some? && msg.index !in d.have
    ensures var taken := TakenIn(d, msg.index, Accepted(u.h, u.meta, msg).value);
            && DownloadInv(u, taken) && StoredFrom(taken, all)
            && taken.file.None? && |taken.have| == |d.have| + 1
  {
    hide Accepted, FromHex, DownloadInv, Matches, StoredFrom;
    AcceptedMatches(u, msg);
    TakeInKeeps(u, d, msg.index, Accepted(u.h, u.meta, msg).value);
    StoredTaken(d, msg.index, Accepted(u.h, u.meta, msg).value, all);
  }

  /** No piece is counted under a negative index. */
  ghost predicate Plain(have: set<int>) {
    forall i :: i in have ==> i >= 0
  }

  /** As many pieces as the manifest has are all of them exactly when none is
      counted under a negative index. */
  lemma AllExactlyWhen(u: Setup, d: Download)
    requires DownloadInv(u, d) && |d.have| == u.meta.Count()
    ensures AllHad(u, d.have) <==> Plain(d.have)
  {
    hide PipelineInv;
    if AllHad(u, d.have) {
      AllAndNoMore(u, d.have);
    }
    if Plain(d.have) {
      FullHave(u.meta.Count(), d.have);
    }
  }

  lemma MissingEndsAssembly(u: Setup, d: Download)
    requires DownloadInv(u, d) && d.file.None? && !AllHad(u, d.have)
    ensures Assembled(d, u.meta) == d
  {
    hide PipelineInv, Join;
    var i :| 0 <= i < u.meta.Count() && i !in d.have;
    assert i !in d.pieces.Keys;
  }

  lemma NewPieceDecides(u: Setup, data: Bytes, d: Download, msg: PieceMsg, now: real, lost: set<int>, all: set<Bytes>)
    requires Genuine(u, data, all) && DownloadInv(u, d) && StoredFrom(d, all) && d.known && d.file.None?
    requires Payload(PieceStep(msg, now, lost)) <= all
    requires Accepted(u.h, u.meta, msg).Some? && msg.index !in d.have
    ensures Next(u, d, PieceStep(msg, now, lost)).file
            == if |d.have| + 1 == u.meta.Count() && Plain(d.have + {msg.index}) then Some(data) else None
  {
    hide Filled, Accepted, FromHex, Genuine, DownloadInv, Assembled, Matches, StoredFrom, Payload, AllHad;
    var x := Accepted(u.h, u.meta, msg).value;
    var taken := TakenIn(d, msg.index, x);
    TakenFacts(u, d, msg, now, lost, all);
    FilledStores(taken, u, now, lost);
    if |taken.have| == u.meta.Count() {
      AllExactlyWhen(u, taken);
      if AllHad(u, taken.have) {
        LastPieceFinishes(u, data, taken, all);
      } else {
        MissingEndsAssembly(u, taken);
      }
    }
  }

  /** The file is written exactly by the message that brings the last missing
      piece when no piece is counted under a negative index; in particular not
      when all pieces are found on disk at the start. */
  lemma FinishedExactlyWhen(u: Setup, data: Bytes, d: Download, step: Step, all: set<Bytes>)
    requires Genuine(u, data, all) && DownloadInv(u, d) && StoredFrom(d, all) && Payload(step) <= all
    requires d.file.None?
    ensures Next(u, d, step).file.Some? <==>
              && step.PieceStep? && d.known
              && Accepted(u.h, u.meta, step.msg).Some? && step.msg.index !in d.have
              && |d.have| + 1 == u.meta.Count() && Plain(d.have + {step.msg.index})
    ensures Next(u, d, step).file.Some? ==> Next(u, d, step).file == Some(data)
  {
    hide Filled, Accepted, Served, DiskMatches, Genuine, DownloadInv, Assembled, StoredFrom, Payload, Plain, TakenIn;
    match step
    case StartStep(now, lost) => FilledStores(Loaded(u.h, u.meta, d.(wanted := true, known := true)), u, now, lost);
    case PieceStep(msg, now, lost) =>
      if d.known && Accepted(u.h, u.meta, msg).Some? {
        FilledStores(Answered(d, msg.index), u, now, lost);
        if msg.index !in d.have {
          NewPieceDecides(u, data, d, msg, now, lost, all);
        }
      }
    case AnnounceStep(count) =>
    case FillStep(now, lost) => FilledStores(d, u, now, lost);
    case StallStep(now, lost) => FilledStores(d.(backoff := map[], pending := map[]), u, now, lost);
    case ServeStep(i) =>
  }

  /** A message that passes the checks ends the request for its piece and its
      back-off. */
  lemma AnswerForgets(u: Setup, d: Download, msg: PieceMsg, now: real, lost: set<int>)
    requires d.known && Accepted(u.h, u.meta, msg).Some?
    ensures var r := Next(u, d, PieceStep(msg, now, lost));
            msg.index !in r.pending && msg.index !in r.backoff
  {
    hide Filled, Accepted, Join, Choice;
    var x, n := Accepted(u.h, u.meta, msg).value, u.meta.Count();
    FillIs(Answered(d, msg.index), n, u.maxOutstanding, now, lost);
    FillIs(TakenIn(d, msg.index, x), n, u.maxOutstanding, now, lost);
  }

  ghost predicate Cleared(u: Setup, d: Download, r: Download) {
    && r.pending == map[] && r.backoff == map[] && r.pieces == map[] && !r.wanted
    && (forall i :: 0 <= i < u.meta.Count() ==> i !in r.disk)
    && (forall i :: i in d.disk && !(0 <= i < u.meta.Count()) ==> i in r.disk)
    && r.file.Some? && |r.file.value| == u.meta.size
  }

  lemma ReceiveClears(u: Setup, d: Download, msg: PieceMsg, now: real, lost: set<int>)
    requires d.file.None? && Received(u.h, u.meta, d, u.maxOutstanding, msg, now, lost).file.Some?
    ensures Cleared(u, d, Received(u.h, u.meta, d, u.maxOutstanding, msg, now, lost))
  {
    hide Filled, Accepted, Assembled;
    var taken := TakenIn(d, msg.index, Accepted(u.h, u.meta, msg).value);
    FilledStores(Answered(d, msg.index), u, now, lost);
    FilledStores(taken, u, now, lost);
    AssembledIs(taken, u.meta);
  }

  /** The step that writes the file leaves no request, no back-off, no piece in
      memory and no piece file of the manifest, and the download is not wanted any
      more. */
  lemma FinishClears(u: Setup, d: Download, step: Step)
    requires d.file.None? && Next(u, d, step).file.Some?
    ensures Cleared(u, d, Next(u, d, step))
  {
    hide Filled, Received, Served, MatchingOnDisk, Cleared;
    match step
    case StartStep(now, lost) => FilledStores(Loaded(u.h, u.meta, d.(wanted := true, known := true)), u, now, lost);
    case PieceStep(msg, now, lost) => ReceiveClears(u, d, msg, now, lost);
    case AnnounceStep(count) =>
    case FillStep(now, lost) => FilledStores(d, u, now, lost);
    case StallStep(now, lost) => FilledStores(d.(backoff := map[], pending := map[]), u, now, lost);
    case ServeStep(i) =>
  }

  /** Once no more pieces can be missing, none counts as the last one. */
  lemma NoneIsLast(u: Setup, d: Download, msg: PieceMsg, now: real, lost: set<int>)
    requires DownloadInv(u, d) && d.known && AllHad(u, d.have)
    ensures Received(u.h, u.meta, d, u.maxOutstanding, msg, now, lost).file == d.file
  {
    hide Filled, Accepted, Assembled;
    AllAndNoMore(u, d.have);
    if Accepted(u.h, u.meta, msg).Some? {
      FilledStores(Answered(d, msg.index), u, now, lost);
      FilledStores(TakenIn(d, msg.index, Accepted(u.h, u.meta, msg).value), u, now, lost);
    }
  }

  lemma FileNeedsAll(u: Setup, d: Download)
    requires DownloadInv(u, d) && d.file.Some?
    ensures d.known && AllHad(u, d.have)
  {
  }

  lemma FileStays(u: Setup, d: Download, step: Step)
    requires DownloadInv(u, d) && d.file.Some?
    ensures Next(u, d, step).file == d.file
  {
    hide Filled, Received, Served, DiskMatches, DownloadInv;
    FileNeedsAll(u, d);
    match step
    case StartStep(now, lost) => FilledStores(Loaded(u.h, u.meta, d.(wanted := true, known := true)), u, now, lost);
    case PieceStep(msg, now, lost) => NoneIsLast(u, d, msg, now, lost);
    case AnnounceStep(count) =>
    case FillStep(now, lost) => FilledStores(d, u, now, lost);
    case StallStep(now, lost) => FilledStores(d.(backoff := map[], pending := map[]), u, now, lost);
    case ServeStep(i) =>
  }

  lemma StoredInitially(disk: map<int, Bytes>, all: set<Bytes>)
    requires disk.Values <= all
    ensures StoredFrom(Initial(disk), all)
  {
  }

  lemma {:induction false} RunStores(u: Setup, data: Bytes, disk: map<int, Bytes>, steps: seq<Step>, all: set<Bytes>, n: nat)
    requires n <= |steps| && Genuine(u, data, all) && PayloadsOf(disk, steps, n) <= all
    ensures StoredFrom(After(u, disk, steps, n), all)
    ensures After(u, disk, steps, n).file in {None, Some(data)}
  {
    hide Next, Genuine, DownloadInv, Payload, StoredFrom;
    if n == 0 {
      StoredInitially(disk, all);
    } else {
      var d, last := After(u, disk, steps, n - 1), steps[n - 1];
      RunStores(u, data, disk, steps, all, n - 1);
      RunKeepsInv(u, disk, steps, n - 1);
      StoredNext(u, d, last, all);
      if d.file.Some? {
        FileStays(u, d, last);
      } else {
        FinishedExactlyWhen(u, data, d, last, all);
      }
    }
  }

  /** Whatever messages arrive, from whatever peers and in whatever order, and
      whatever piece files were on disk: a finished file is the original, unless
      some payload received or found collides with a piece of it. */
  lemma FileIsOriginal(u: Setup, data: Bytes, disk: map<int, Bytes>, steps: seq<Step>)
    requires MadeFrom(u.h, u.meta, data)
    requires CollisionFree(u.h, Payloads(disk, steps) + OriginalPieces(u.meta, data))
    ensures Run(u, disk, steps).file in {None, Some(data)}
  {
    RunStores(u, data, disk, steps, Payloads(disk, steps), |steps|);
  }

  // ----- when the file is written -----

  ghost function OnDisk(u: Setup, disk: map<int, Bytes>): set<int> {
    MatchingOnDisk(u.h, u.meta, disk).Keys
  }

  /** The piece that a step takes in. */
  ghost predicate TakesIn(u: Setup, d: Download, step: Step) {
    step.PieceStep? && Accepted(u.h, u.meta, step.msg).Some? && step.msg.index !in d.have
  }

  lemma LoadedHas(u: Setup, d: Download)
    requires DownloadInv(u, d)
    ensures var r := Loaded(u.h, u.meta, d.(wanted := true, known := true));
            r.known && r.disk == d.disk && r.have == if d.known then d.have else OnDisk(u, d.disk)
  {
    hide MatchingOnDisk, Matches, PipelineInv;
    if d.known {
      NothingLeftOnDisk(u, d);
      assert d.have + MatchingOnDisk(u.h, u.meta, d.disk).Keys == d.have;
    } else {
      assert d.have + MatchingOnDisk(u.h, u.meta, d.disk).Keys == OnDisk(u, d.disk);
    }
  }

  lemma StartChange(u: Setup, d: Download, now: real, lost: set<int>)
    requires DownloadInv(u, d)
    ensures var r := Started(u.h, u.meta, d, u.maxOutstanding, now, lost);
            && (d.known ==> r.known && r.have == d.have)
            && (!d.known ==> r.disk == d.disk && (r.known ==> r.have == OnDisk(u, d.disk)))
  {
    hide Filled, Loaded, OnDisk, DownloadInv;
    LoadedHas(u, d);
    FilledStores(Loaded(u.h, u.meta, d.(wanted := true, known := true)), u, now, lost);
  }

  lemma PieceChange(u: Setup, d: Download, msg: PieceMsg, now: real, lost: set<int>)
    ensures var r := Received(u.h, u.meta, d, u.maxOutstanding, msg, now, lost);
            && r.known == d.known
            && (d.known ==>
                 r.have == if TakesIn(u, d, PieceStep(msg, now, lost)) then d.have + {msg.index} else d.have)
            && (!d.known ==> r.disk == d.disk)
  {
    hide Filled, Accepted, Join;
    if d.known && Accepted(u.h, u.meta, msg).Some? {
      FilledStores(Answered(d, msg.index), u, now, lost);
      FilledStores(TakenIn(d, msg.index, Accepted(u.h, u.meta, msg).value), u, now, lost);
    }
  }

  /** How a step changes what is had. */
  lemma HaveChange(u: Setup, d: Download, step: Step)
    requires DownloadInv(u, d)
    ensures var r := Next(u, d, step);
            && (d.known ==> r.known && r.have == if TakesIn(u, d, step) then d.have + {step.msg.index} else d.have)
            && (!d.known ==> r.disk == d.disk && (r.known ==> !step.PieceStep? && r.have == OnDisk(u, d.disk)))
  {
    hide Filled, Received, Started, Served, DownloadInv, Accepted, MatchingOnDisk;
    match step
    case StartStep(now, lost) => StartChange(u, d, now, lost);
    case PieceStep(msg, now, lost) => PieceChange(u, d, msg, now, lost);
    case AnnounceStep(count) =>
    case FillStep(now, lost) => FilledStores(d, u, now, lost);
    case StallStep(now, lost) => FilledStores(d.(backoff := map[], pending := map[]), u, now, lost);
    case ServeStep(i) =>
  }

  /** Just the pieces of the manifest are had. */
  ghost predicate JustAll(u: Setup, d: Download) {
    d.known && d.have == FirstIndices(u.meta.Count())
  }

  lemma JustAllExactlyWhen(u: Setup, d: Download)
    requires DownloadInv(u, d) && d.known && |d.have| == u.meta.Count()
    ensures JustAll(u, d) <==> Plain(d.have)
  {
    hide PipelineInv;
    if Plain(d.have) {
      FullHave(u.meta.Count(), d.have);
    }
  }

  /** That was so after some of the first n steps. */
  ghost predicate Reached(u: Setup, disk: map<int, Bytes>, steps: seq<Step>, n: nat)
    requires n <= |steps|
  {
    exists k :: 0 <= k <= n && JustAll(u, After(u, disk, steps, k))
  }

  /** `disk` is what was on disk before the run; `reached` says whether just the
      pieces of the manifest have ever been had. */
  ghost predicate FinishInv(u: Setup, data: Bytes, disk: map<int, Bytes>, d: Download, reached: bool) {
    && (!d.known ==> d.disk == disk && !reached)
    && (d.known ==> OnDisk(u, disk) <= d.have)
    && (JustAll(u, d) ==> reached)
    && (reached ==> |d.have| >= u.meta.Count())
    && (d.known && |d.have| >= u.meta.Count() ==>
         d.file == if |OnDisk(u, disk)| < u.meta.Count() && reached then Some(data) else None)
  }

  lemma SameSize(a: set<int>, b: set<int>)
    requires a <= b && |a| >= |b|
    ensures a == b
  {
    assert |b - a| == |b| - |a|;
    assert b - a == {};
  }

  lemma FinishedStays(u: Setup, data: Bytes, disk: map<int, Bytes>, d: Download, reached: bool, step: Step)
    requires DownloadInv(u, d) && d.file.Some? && FinishInv(u, data, disk, d, reached)
    ensures FinishInv(u, data, disk, Next(u, d, step), reached || JustAll(u, Next(u, d, step)))
  {
    hide Next, DownloadInv, OnDisk, TakesIn;
    FileNeedsAll(u, d);
    AllAndNoMore(u, d.have);
    FileStays(u, d, step);
    HaveChange(u, d, step);
    SubsetSize(d.have, Next(u, d, step).have);
  }

  /** A step of a download that knows its manifest and has no file yet. */
  lemma UnfinishedStep(u: Setup, data: Bytes, disk: map<int, Bytes>, d: Download, reached: bool, step: Step,
                       all: set<Bytes>)
    requires Genuine(u, data, all) && DownloadInv(u, d) && StoredFrom(d, all) && Payload(step) <= all
    requires d.known && d.file.None? && FinishInv(u, data, disk, d, reached)
    ensures FinishInv(u, data, disk, Next(u, d, step), reached || JustAll(u, Next(u, d, step)))
  {
    hide Next, Genuine, DownloadInv, StoredFrom, Payload, OnDisk, Accepted, Plain;
    var r := Next(u, d, step);
    HaveChange(u, d, step);
    FinishedExactlyWhen(u, data, d, step, all);
    SubsetSize(OnDisk(u, disk), d.have);
    SubsetSize(d.have, r.have);
    if |d.have| >= u.meta.Count() {
      if JustAll(u, r) {
        SameSize(d.have, r.have);
      }
    } else if |r.have| >= u.meta.Count() {
      NextKeepsInv(u, d, step);
      JustAllExactlyWhen(u, r);
    }
  }

  lemma NotYetKnown(u: Setup, d: Download)
    requires DownloadInv(u, d) && !d.known
    ensures d.file.None?
  {
  }

  /** A step of a download without a manifest. */
  lemma FirstStep(u: Setup, data: Bytes, disk: map<int, Bytes>, d: Download, step: Step, all: set<Bytes>)
    requires Genuine(u, data, all) && DownloadInv(u, d) && StoredFrom(d, all) && Payload(step) <= all
    requires !d.known && FinishInv(u, data, disk, d, false)
    ensures FinishInv(u, data, disk, Next(u, d, step), JustAll(u, Next(u, d, step)))
  {
    hide Next, Genuine, DownloadInv, StoredFrom, Payload, OnDisk, TakesIn;
    NotYetKnown(u, d);
    HaveChange(u, d, step);
    FinishedExactlyWhen(u, data, d, step, all);
  }

  lemma NotReachedAtFirst(u: Setup, disk: map<int, Bytes>, steps: seq<Step>)
    ensures !JustAll(u, After(u, disk, steps, 0)) && !Reached(u, disk, steps, 0)
  {
  }

  lemma UnknownNotReached(u: Setup, data: Bytes, disk: map<int, Bytes>, d: Download, reached: bool)
    requires FinishInv(u, data, disk, d, reached) && !d.known
    ensures !reached
  {
  }

  lemma FinishInitially(u: Setup, data: Bytes, disk: map<int, Bytes>)
    ensures FinishInv(u, data, disk, Initial(disk), false)
  {
  }

  lemma ReachedStep(u: Setup, disk: map<int, Bytes>, steps: seq<Step>, n: nat)
    requires 0 < n <= |steps|
    ensures Reached(u, disk, steps, n) <==> Reached(u, disk, steps, n - 1) || JustAll(u, After(u, disk, steps, n))
    ensures !Reached(u, disk, steps, 0)
  {
    hide After;
    assert !JustAll(u, After(u, disk, steps, 0)) by { NotReachedAtFirst(u, disk, steps); }
  }

  lemma {:induction false} RunFinish(u: Setup, data: Bytes, disk: map<int, Bytes>, steps: seq<Step>, all: set<Bytes>,
                                     n: nat)
    requires n <= |steps| && Genuine(u, data, all) && PayloadsOf(disk, steps, n) <= all
    ensures FinishInv(u, data, disk, After(u, disk, steps, n), Reached(u, disk, steps, n))
  {
    hide Next, Genuine, DownloadInv, Payload, StoredFrom, FinishInv, JustAll;
    if n == 0 {
      FinishInitially(u, data, disk);
      NotReachedAtFirst(u, disk, steps);
    } else {
      var d, reached := After(u, disk, steps, n - 1), Reached(u, disk, steps, n - 1);
      RunFinish(u, data, disk, steps, all, n - 1);
      RunStores(u, data, disk, steps, all, n - 1);
      RunKeepsInv(u, disk, steps, n - 1);
      ReachedStep(u, disk, steps, n);
      if d.file.Some? {
        FinishedStays(u, data, disk, d, reached, steps[n - 1]);
      } else if d.known {
        UnfinishedStep(u, data, disk, d, reached, steps[n - 1], all);
      } else {
        UnknownNotReached(u, data, disk, d, reached);
        FirstStep(u, data, disk, d, steps[n - 1], all);
      }
    }
  }

  /** In every run a download that counts as many pieces as the manifest has, or
      more, has written the original exactly if just those pieces were had at
      some moment, and were not all on disk before; otherwise it has written
      nothing. */
  lemma WrittenExactlyWhen(u: Setup, data: Bytes, disk: map<int, Bytes>, steps: seq<Step>)
    requires MadeFrom(u.h, u.meta, data)
    requires CollisionFree(u.h, Payloads(disk, steps) + OriginalPieces(u.meta, data))
    requires var d := Run(u, disk, steps); d.known && |d.have| >= u.meta.Count()
    ensures Run(u, disk, steps).file
            == if |MatchingOnDisk(u.h, u.meta, disk)| < u.meta.Count() && Reached(u, disk, steps, |steps|)
               then Some(data) else None
  {
    hide After, MatchingOnDisk, Reached;
    RunFinish(u, data, disk, steps, Payloads(disk, steps), |steps|);
    assert |MatchingOnDisk(u.h, u.meta, disk)| == |OnDisk(u, disk)|;
  }

  // ----- how rare a piece is -----

  lemma CountedIs(rarity: map<int, nat>, k: int, i: int)
    ensures RarityOf(Counted(rarity, k), i) == RarityOf(rarity, i) + (if k == i then 1 else 0)
  {
  }

  lemma NothingCounted(disk: map<int, Bytes>, i: int)
    ensures RarityOf(Initial(disk).rarity, i) == 0
  {
  }

  lemma {:induction false} CountedBelowIs(rarity: map<int, nat>, n: nat, i: int)
    ensures RarityOf(CountedBelow(rarity, n), i) == RarityOf(rarity, i) + (if 0 <= i < n then 1 else 0)
  {
    if n > 0 {
      CountedBelowIs(rarity, n - 1, i);
    }
  }

  lemma ReceivedRarity(u: Setup, d: Download, msg: PieceMsg, now: real, lost: set<int>, i: int)
    ensures RarityOf(Received(u.h, u.meta, d, u.maxOutstanding, msg, now, lost).rarity, i)
            == RarityOf(d.rarity, i)
               + if d.known && msg.index == i && TakesIn(u, d, PieceStep(msg, now, lost)) then 1 else 0
  {
    hide Filled, Accepted, Assembled, RarityOf, Counted;
    if d.known && Accepted(u.h, u.meta, msg).Some? {
      var taken := TakenIn(d, msg.index, Accepted(u.h, u.meta, msg).value);
      FilledStores(Answered(d, msg.index), u, now, lost);
      FilledStores(taken, u, now, lost);
      AssembledIs(taken, u.meta);
      CountedIs(d.rarity, msg.index, i);
    }
  }

  /** A piece becomes less rare by one when it is announced, taken in or served,
      and by nothing else. */
  lemma RarityCounts(u: Setup, d: Download, step: Step, i: int)
    ensures RarityOf(Next(u, d, step).rarity, i)
            == RarityOf(d.rarity, i)
               + match step
                 case AnnounceStep(count) => (if 0 <= i < count then 1 else 0)
                 case PieceStep(msg, _, _) => (if d.known && msg.index == i && TakesIn(u, d, step) then 1 else 0)
                 case ServeStep(k) => (if k == i && Served(d, u.meta, k).Some? then 1 else 0)
                 case _ => 0
  {
    hide Filled, Received, Served, MatchingOnDisk, RarityOf, Counted, CountedBelow;
    match step
    case StartStep(now, lost) => FilledStores(Loaded(u.h, u.meta, d.(wanted := true, known := true)), u, now, lost);
    case PieceStep(msg, now, lost) => ReceivedRarity(u, d, msg, now, lost, i);
    case AnnounceStep(count) => CountedBelowIs(d.rarity, Max0(count), i);
    case FillStep(now, lost) => FilledStores(d, u, now, lost);
    case StallStep(now, lost) => FilledStores(d.(backoff := map[], pending := map[]), u, now, lost);
    case ServeStep(k) => CountedIs(d.rarity, k, i);
  }

  // ----- when it can still be written -----

  /** A download that cannot write its file any more. */
  ghost predicate Lost(u: Setup, d: Download) {
    d.known && d.file.None? && (!Plain(d.have) || AllHad(u, d.have))
  }

  lemma NeverTheLast(u: Setup, d: Download, msg: PieceMsg, now: real, lost: set<int>)
    requires DownloadInv(u, d) && d.known && d.file.None? && !Plain(d.have)
    ensures Received(u.h, u.meta, d, u.maxOutstanding, msg, now, lost).file.None?
  {
    hide Filled, Accepted, Assembled, DownloadInv, Matches, AllHad;
    if Accepted(u.h, u.meta, msg).Some? {
      var taken := TakenIn(d, msg.index, Accepted(u.h, u.meta, msg).value);
      FilledStores(Answered(d, msg.index), u, now, lost);
      FilledStores(taken, u, now, lost);
      if msg.index !in d.have && |taken.have| == u.meta.Count() {
        AcceptedMatches(u, msg);
        TakeInKeeps(u, d, msg.index, Accepted(u.h, u.meta, msg).value);
        AllExactlyWhen(u, taken);
        MissingEndsAssembly(u, taken);
      }
    }
  }

  lemma LostStays(u: Setup, d: Download, step: Step)
    requires DownloadInv(u, d) && Lost(u, d)
    ensures Lost(u, Next(u, d, step))
  {
    hide Filled, Received, Served, DiskMatches, DownloadInv, TakesIn;
    HaveChange(u, d, step);
    match step
    case StartStep(now, lost) => FilledStores(Loaded(u.h, u.meta, d.(wanted := true, known := true)), u, now, lost);
    case PieceStep(msg, now, lost) =>
      if AllHad(u, d.have) {
        NoneIsLast(u, d, msg, now, lost);
      } else {
        NeverTheLast(u, d, msg, now, lost);
      }
    case AnnounceStep(count) =>
    case FillStep(now, lost) => FilledStores(d, u, now, lost);
    case StallStep(now, lost) => FilledStores(d.(backoff := map[], pending := map[]), u, now, lost);
    case ServeStep(i) =>
  }

  /** The download after more steps. */
  function Onward(u: Setup, d: Download, more: seq<Step>): Download
    decreases |more|
  {
    if more == [] then d else Onward(u, Next(u, d, more[0]), more[1..])
  }

  lemma {:induction false} LostForGood(u: Setup, d: Download, more: seq<Step>)
    requires DownloadInv(u, d) && Lost(u, d)
    ensures Onward(u, d, more).file.None?
    decreases |more|
  {
    hide DownloadInv, Next;
    if more != [] {
      NextKeepsInv(u, d, more[0]);
      LostStays(u, d, more[0]);
      LostForGood(u, Next(u, d, more[0]), more[1..]);
    }
  }

  lemma PieceNotEmpty(size: nat, pieceSize: nat, i: nat)
    requires pieceSize > 0 && i < PieceCount(size, pieceSize)
    ensures i * pieceSize < size
  {
    var m := size + pieceSize - 1;
    var q := m / pieceSize;
    assert m == q * pieceSize + m % pieceSize;
    ScaleMonotone(i + 1, q, pieceSize);
    assert (i + 1) * pieceSize == i * pieceSize + pieceSize;
  }

  function PieceMsgOf(h: Hash, i: int, x: Bytes): PieceMsg {
    PieceMsg(i, Hex(x), Hex(h(x)))
  }

  lemma IndexPasses(u: Setup, data: Bytes, i: int)
    requires MadeFrom(u.h, u.meta, data) && HasSlot(u.meta.Count(), i)
    ensures var x := Piece(data, u.meta.pieceSize, Slot(u.meta.Count(), i));
            Accepted(u.h, u.meta, PieceMsgOf(u.h, i, x)) == Some(x)
  {
    hide FromHex;
    var k := Slot(u.meta.Count(), i);
    PieceNotEmpty(|data|, u.meta.pieceSize, k);
    HexRoundTrip(Piece(data, u.meta.pieceSize, k));
  }

  /** Piece k of n is accepted under its own index and under k - n. */
  lemma BothIndicesPass(u: Setup, data: Bytes, k: nat)
    requires MadeFrom(u.h, u.meta, data) && k < u.meta.Count()
    ensures var x := Piece(data, u.meta.pieceSize, k);
            && Accepted(u.h, u.meta, PieceMsg(k, Hex(x), Hex(u.h(x)))) == Some(x)
            && Accepted(u.h, u.meta, PieceMsg(k - u.meta.Count(), Hex(x), Hex(u.h(x)))) == Some(x)
  {
    hide FromHex, Hex, Accepted;
    IndexPasses(u, data, k);
    IndexPasses(u, data, k - u.meta.Count());
  }

  /** A missing piece arrives. */
  lemma OneMorePiece(u: Setup, data: Bytes, d: Download, all: set<Bytes>) returns (step: Step)
    requires Genuine(u, data, all) && DownloadInv(u, d) && StoredFrom(d, all) && OriginalPieces(u.meta, data) <= all
    requires d.known && d.file.None? && Plain(d.have) && !AllHad(u, d.have)
    ensures Payload(step) <= all
    ensures var r := Next(u, d, step); r.known && Plain(r.have) && |r.have| == |d.have| + 1
  {
    hide DownloadInv, StoredFrom, Next, Accepted, FromHex, Piece, Hex;
    var i :| 0 <= i < u.meta.Count() && i !in d.have;
    var x := Piece(data, u.meta.pieceSize, i);
    IndexPasses(u, data, i);
    step := PieceStep(PieceMsgOf(u.h, i, x), 0.0, {});
    HexRoundTrip(x);
    assert x in OriginalPieces(u.meta, data);
    HaveChange(u, d, step);
  }

  lemma PlainIsFew(u: Setup, d: Download)
    requires DownloadInv(u, d) && Plain(d.have)
    ensures |d.have| <= u.meta.Count() && (|d.have| == u.meta.Count() <==> AllHad(u, d.have))
  {
    hide PipelineInv;
    FullHave(u.meta.Count(), d.have);
    if AllHad(u, d.have) {
      AllAndNoMore(u, d.have);
    }
  }

  lemma {:induction false} CanFinish(u: Setup, data: Bytes, d: Download, all: set<Bytes>) returns (more: seq<Step>)
    requires Genuine(u, data, all) && DownloadInv(u, d) && StoredFrom(d, all) && OriginalPieces(u.meta, data) <= all
    requires d.known && Plain(d.have) && !Lost(u, d)
    ensures Onward(u, d, more).file.Some?
    decreases u.meta.Count() - |d.have|
  {
    hide DownloadInv, StoredFrom, Genuine, Next, AllHad;
    if d.file.Some? {
      more := [];
    } else {
      var step := OneMorePiece(u, data, d, all);
      var r := Next(u, d, step);
      NextKeepsInv(u, d, step);
      StoredNext(u, d, step, all);
      FinishedExactlyWhen(u, data, d, step, all);
      PlainIsFew(u, r);
      HaveChange(u, d, step);
      var rest := CanFinish(u, data, r, all);
      more := [step] + rest;
      assert more[1..] == rest;
    }
  }

  /** A download without a file can still write it exactly when a piece is missing
      and none is counted under a negative index. */
  lemma RecoverableExactlyWhen(u: Setup, data: Bytes, disk: map<int, Bytes>, steps: seq<Step>)
    requires MadeFrom(u.h, u.meta, data)
    requires CollisionFree(u.h, Payloads(disk, steps) + OriginalPieces(u.meta, data))
    requires Run(u, disk, steps).known && Run(u, disk, steps).file.None?
    ensures (exists more :: Onward(u, Run(u, disk, steps), more).file.Some?)
       <==> Plain(Run(u, disk, steps).have) && !AllHad(u, Run(u, disk, steps).have)
  {
    hide After, DownloadInv, Onward, Plain, AllHad, StoredFrom, MadeFrom;
    var d, all := Run(u, disk, steps), Payloads(disk, steps) + OriginalPieces(u.meta, data);
    RunKeepsInv(u, disk, steps, |steps|);
    assert all + OriginalPieces(u.meta, data) == all;
    RunStores(u, data, disk, steps, all, |steps|);
    if Plain(d.have) && !AllHad(u, d.have) {
      var more := CanFinish(u, data, d, all);
    } else {
      forall more
        ensures Onward(u, d, more).file.None?
      {
        LostForGood(u, d, more);
      }
    }
  }

  // ----- serving -----

  /** What a run serves is the original piece that the index reads, and any
      receiver with the same manifest accepts it. */
  lemma ServedIsAccepted(u: Setup, data: Bytes, disk: map<int, Bytes>, steps: seq<Step>, i: int)
    requires MadeFrom(u.h, u.meta, data)
    requires CollisionFree(u.h, Payloads(disk, steps) + OriginalPieces(u.meta, data))
    requires Served(Run(u, disk, steps), u.meta, i).Some?
    ensures HasSlot(u.meta.Count(), i)
    ensures var x := Served(Run(u, disk, steps), u.meta, i).value;
            && x == Piece(data, u.meta.pieceSize, Slot(u.meta.Count(), i))
            && Accepted(u.h, u.meta, PieceMsgOf(u.h, i, x)) == Some(x)
  {
    hide Piece, FromHex, After, Accepted;
    var d := Run(u, disk, steps);
    var all := Payloads(disk, steps);
    var x := Served(d, u.meta, i).value;
    RunKeepsInv(u, disk, steps, |steps|);
    RunStores(u, data, disk, steps, all, |steps|);
    if i in d.pieces {
      MatchIsOriginal(u, data, all, i, x);
    } else if i in d.disk {
      MatchIsOriginal(u, data, all, i, x);
    }
    IndexPasses(u, data, i);
  }

  lemma HeldIsStored(u: Setup, d: Download, i: int)
    requires DownloadInv(u, d) && i in d.have
    ensures HasSlot(u.meta.Count(), i) && (i in d.pieces || (i >= 0 && d.file.Some?))
  {
    hide PipelineInv, Matches;
    if d.file.None? {
      assert i in d.pieces.Keys;
    }
  }

  lemma StoredIsOriginal(u: Setup, data: Bytes, d: Download, all: set<Bytes>, i: int)
    requires Genuine(u, data, all) && DownloadInv(u, d) && StoredFrom(d, all) && i in d.have
    ensures i in d.pieces ==> d.pieces[i] == Piece(data, u.meta.pieceSize, Slot(u.meta.Count(), i))
    ensures i in d.disk ==> d.disk[i] == Piece(data, u.meta.pieceSize, Slot(u.meta.Count(), i))
  {
    hide PipelineInv, Matches, Piece, Genuine;
    if i in d.pieces {
      MatchIsOriginal(u, data, all, i, d.pieces[i]);
    }
    if i in d.disk {
      MatchIsOriginal(u, data, all, i, d.disk[i]);
    }
  }

  lemma PieceHasBytes(u: Setup, data: Bytes, k: nat)
    requires MadeFrom(u.h, u.meta, data) && k < u.meta.Count()
    ensures Piece(data, u.meta.pieceSize, k) != []
  {
    PieceNotEmpty(|data|, u.meta.pieceSize, k);
  }

  lemma HeldIsServed(u: Setup, data: Bytes, d: Download, all: set<Bytes>, i: int)
    requires Genuine(u, data, all) && DownloadInv(u, d) && StoredFrom(d, all) && i in d.have
    requires d.file in {None, Some(data)}
    ensures Served(d, u.meta, i).Some?
  {
    HeldIsStored(u, d, i);
    PieceHasBytes(u, data, Slot(u.meta.Count(), i));
    hide Piece, DownloadInv, Genuine, StoredFrom;
    StoredIsOriginal(u, data, d, all, i);
  }

  /** A run serves exactly the pieces that it counts as had. */
  lemma ServedExactlyWhen(u: Setup, data: Bytes, disk: map<int, Bytes>, steps: seq<Step>, i: int)
    requires MadeFrom(u.h, u.meta, data)
    requires CollisionFree(u.h, Payloads(disk, steps) + OriginalPieces(u.meta, data))
    ensures Served(Run(u, disk, steps), u.meta, i).Some? <==> i in Run(u, disk, steps).have
  {
    hide After, DownloadInv, StoredFrom, MadeFrom, PayloadsOf, OriginalPieces;
    var d, all := Run(u, disk, steps), Payloads(disk, steps);
    if i in d.have {
      RunKeepsInv(u, disk, steps, |steps|);
      RunStores(u, data, disk, steps, all, |steps|);
      HeldIsServed(u, data, d, all, i);
    }
  }
}
