/** The download object of `mods/torrent_protocol/torrent_manager.py`: its
    handlers update the piece tables in place and follow TorrentState.dfy. */
module TorrentManager {
  import opened ByteStrings
  import opened Options
  import opened Hashing
  import opened TorrentState
  import opened TorrentRuns

  lemma CountIs(size: nat, step: nat, n: nat)
    requires step > 0 && size <= n * step && (n - 1) * step < size
    ensures n == PieceCount(size, step)
  {
    var m := size + step - 1;
    var q := m / step;
    assert m == q * step + m % step;
    assert n * step == (n - 1) * step + step;
    assert (q + 1) * step == q * step + step;
    assert (n + 1) * step == n * step + step;
    if q < n {
      ScaleMonotone(q + 1, n, step);
    }
    if q > n {
      ScaleMonotone(n + 1, q, step);
    }
  }

  lemma TooManyPieces(size: nat, step: nat, n: nat)
    requires step > 0
    ensures PieceCount(size, step) > n <==> n * step < size
  {
    var m := size + step - 1;
    var q := m / step;
    assert m == q * step + m % step;
    if q > n {
      ScaleMonotone(n + 1, q, step);
      assert (n + 1) * step == n * step + step;
    } else {
      ScaleMonotone(q, n, step);
    }
  }

  /** `create_torrent`: the manifest of a file, or None when it raises. */
  method CreateTorrent(h: Hash, data: Bytes, pieceSize: int) returns (r: Option<TorrentMeta>)
    ensures r.None? <==>
              |data| == 0 || |data| > 32 * 1024 * 1024 * 1024 || 50000 * ClampPieceSize(pieceSize) < |data|
    ensures r.Some? ==>
              && MadeFrom(h, r.value, data)
              && r.value.pieceSize == if pieceSize < 16 * 1024 then 16 * 1024
                                      else if pieceSize > 4 * 1024 * 1024 then 4 * 1024 * 1024 else pieceSize
  {
    hide Piece, Hex;
    var size := |data|;
    if size > MAX_FILE_SIZE || size == 0 {
      return None;
    }
    var step := ClampPieceSize(pieceSize);
    TooManyPieces(size, step, MAX_PIECES);
    assert MAX_PIECES * step == 50000 * step;
    if PieceCount(size, step) > MAX_PIECES {
      return None;
    }
    var hashes: seq<Text> := [];
    var i := 0;
    while i < size
      invariant i == |hashes| * step
      invariant (|hashes| - 1) * step < size
      invariant forall k :: 0 <= k < |hashes| ==> hashes[k] == Hex(h(Piece(data, step, k)))
      decreases size - i
    {
      hashes := hashes + [Hex(h(Piece(data, step, |hashes|)))];
      i := i + step;
    }
    CountIs(size, step, |hashes|);
    r := Some(TorrentMeta(size, step, hashes));
  }

  function Stale(pending: map<int, real>, now: real): set<int> {
    set i | i in pending && now - pending[i] > REQUEST_TIMEOUT
  }

  /** The back-off table once the requests in `done` have been expired. */
  ghost function LaterOf(backoff: map<int, real>, done: set<int>, now: real): map<int, real> {
    map i | i in backoff.Keys + done :: if i in done then NewBackoff(backoff, i, now) else backoff[i]
  }

  lemma NoneLater(backoff: map<int, real>, now: real)
    ensures LaterOf(backoff, {}, now) == backoff
  {
  }

  lemma OneLater(backoff: map<int, real>, done: set<int>, i: int, now: real)
    requires i !in done
    ensures var b := LaterOf(backoff, done, now);
            b[i := NewBackoff(b, i, now)] == LaterOf(backoff, done + {i}, now)
  {
    var b := LaterOf(backoff, done, now);
    assert NewBackoff(b, i, now) == NewBackoff(backoff, i, now);
    hide NewBackoff;
  }

  lemma AllLater(pending: map<int, real>, backoff: map<int, real>, now: real)
    ensures pending - Stale(pending, now) == LivePending(pending, now)
    ensures LaterOf(backoff, Stale(pending, now), now) == LaterBackoff(pending, backoff, now)
  {
    hide NewBackoff;
  }

  lemma LivePendingIs(pending: map<int, real>, now: real)
    ensures forall i :: i in LivePending(pending, now) <==> i in pending && now - pending[i] <= 20.0
    ensures forall i :: i in LivePending(pending, now) ==> LivePending(pending, now)[i] == pending[i]
  {
  }

  lemma NothingRequested(p: map<int, real>, now: real, lost: set<int>)
    ensures Requested(p, [], now, lost) == p
  {
  }

  lemma RequestOne(p: map<int, real>, chosen: seq<int>, k: nat, now: real, lost: set<int>)
    requires k < |chosen| && chosen[k] !in p
    ensures chosen[k] in lost ==> chosen[k] !in Requested(p, chosen[..k], now, lost)
    ensures Requested(p, chosen[..k + 1], now, lost)
         == if chosen[k] in lost then Requested(p, chosen[..k], now, lost)
            else Requested(p, chosen[..k], now, lost)[chosen[k] := now]
  {
    assert chosen[..k + 1] == chosen[..k] + [chosen[k]];
  }

  /** A chosen piece is not pending. */
  lemma ChosenAreNew(d: Download, n: nat, maxOutstanding: nat, now: real)
    ensures forall k :: 0 <= k < |Choice(d, n, maxOutstanding, now)| ==>
              Choice(d, n, maxOutstanding, now)[k] !in Expired(d, now).pending
  {
    hide Choice, Expired;
    ChoiceFacts(d, n, maxOutstanding, now);
    forall k | 0 <= k < |Choice(d, n, maxOutstanding, now)|
      ensures Choice(d, n, maxOutstanding, now)[k] !in Expired(d, now).pending
    {
      var i := Choice(d, n, maxOutstanding, now)[k];
      assert i in Choice(d, n, maxOutstanding, now);
      assert Eligible(Expired(d, now), now, i);
    }
  }

  /** The tables after the first n turns of the loading loop. */
  function LoadedPieces(h: Hash, meta: TorrentMeta, disk: map<int, Bytes>, pieces: map<int, Bytes>, n: nat)
    : map<int, Bytes>
  {
    if n == 0 then pieces
    else
      var before := LoadedPieces(h, meta, disk, pieces, n - 1);
      if DiskMatches(h, meta, disk, n - 1) then before[n - 1 := disk[n - 1]] else before
  }

  function LoadedHave(h: Hash, meta: TorrentMeta, disk: map<int, Bytes>, have: set<int>, n: nat): set<int> {
    if n == 0 then have
    else
      var before := LoadedHave(h, meta, disk, have, n - 1);
      if DiskMatches(h, meta, disk, n - 1) then before + {n - 1} else before
  }

  lemma {:induction false} LoadedBelow(h: Hash, meta: TorrentMeta, d: Download, n: nat)
    ensures var ps := LoadedPieces(h, meta, d.disk, d.pieces, n);
            && (forall k :: k in ps <==> k in d.pieces || (0 <= k < n && DiskMatches(h, meta, d.disk, k)))
            && (forall k :: k in ps ==>
                 ps[k] == if 0 <= k < n && DiskMatches(h, meta, d.disk, k) then d.disk[k] else d.pieces[k])
  {
    hide Hex;
    if n > 0 {
      LoadedBelow(h, meta, d, n - 1);
    }
  }

  lemma {:induction false} HeldBelow(h: Hash, meta: TorrentMeta, d: Download, n: nat)
    ensures forall k :: k in LoadedHave(h, meta, d.disk, d.have, n)
                   <==> k in d.have || (0 <= k < n && DiskMatches(h, meta, d.disk, k))
  {
    hide DiskMatches;
    if n > 0 {
      HeldBelow(h, meta, d, n - 1);
    }
  }

  lemma FoundBelow(h: Hash, meta: TorrentMeta, disk: map<int, Bytes>)
    ensures var found := MatchingOnDisk(h, meta, disk);
            && (forall k :: k in found <==> 0 <= k < meta.Count() && DiskMatches(h, meta, disk, k))
            && (forall k :: k in found ==> found[k] == disk[k])
  {
  }

  lemma LoadedAll(h: Hash, meta: TorrentMeta, d: Download)
    ensures d.(pieces := LoadedPieces(h, meta, d.disk, d.pieces, meta.Count()),
               have := LoadedHave(h, meta, d.disk, d.have, meta.Count())) == Loaded(h, meta, d)
  {
    hide LoadedPieces, LoadedHave, MatchingOnDisk;
    LoadedBelow(h, meta, d, meta.Count());
    HeldBelow(h, meta, d, meta.Count());
    FoundBelow(h, meta, d.disk);
    hide DiskMatches;
    var found := MatchingOnDisk(h, meta, d.disk);
    var ps := LoadedPieces(h, meta, d.disk, d.pieces, meta.Count());
    var hs := LoadedHave(h, meta, d.disk, d.have, meta.Count());
    assert forall k :: k in ps <==> k in d.pieces + found;
    assert forall k :: k in ps ==> ps[k] == (d.pieces + found)[k];
    assert ps == d.pieces + found;
    assert forall k :: k in hs <==> k in d.have + found.Keys;
    assert hs == d.have + found.Keys;
  }

  /** Some element of the set. */
  method Any<T>(s: set<T>) returns (x: T)
    requires s != {}
    ensures x in s
  {
    x :| x in s;
  }

  /** One download with a fixed manifest. */
  class TorrentDownload {
    const u: Setup
    var known: bool
    var have: set<int>
    var pieces: map<int, Bytes>
    var pending: map<int, real>
    var backoff: map<int, real>
    var rarity: map<int, nat>
    var disk: map<int, Bytes>
    var file: Option<Bytes>
    var wanted: bool

    function View(): Download
      reads this
    {
      Download(known, have, pieces, pending, backoff, rarity, disk, file, wanted)
    }

    ghost predicate Valid()
      reads this
    {
      DownloadInv(u, View())
    }

    /** The manager clamps the number of outstanding requests to 1..64. */
    constructor (h: Hash, meta: TorrentMeta, maxOutstanding: int, disk: map<int, Bytes>)
      ensures Valid() && View() == Initial(disk)
      ensures u.h == h && u.meta == meta && 1 <= u.maxOutstanding <= 64
    {
      u := Setup(h, meta, if maxOutstanding < 1 then 1 else if maxOutstanding > 64 then 64 else maxOutstanding);
      known := false;
      have := {};
      pieces := map[];
      pending := map[];
      backoff := map[];
      rarity := map[];
      this.disk := disk;
      file := None;
      wanted := true;
      new;
      InitialInv(u, disk);
    }

    /** `_expire_stale_requests` */
    method ExpireStale(now: real)
      modifies this`pending, this`backoff
      ensures View() == Expired(old(View()), now)
      ensures forall i :: i in pending <==> i in old(pending) && now - old(pending)[i] <= 20.0
      ensures forall i :: i in pending ==> pending[i] == old(pending)[i]
    {
      hide Stale, LaterOf, NewBackoff, LivePending, LaterBackoff;
      ghost var p0, b0 := pending, backoff;
      var stale := Stale(pending, now);
      ghost var done: set<int> := {};
      NoneLater(b0, now);
      while stale != {}
        invariant done !! stale && done + stale == Stale(p0, now)
        invariant pending == p0 - done
        invariant backoff == LaterOf(b0, done, now)
        decreases stale
      {
        var i := Any(stale);
        OneLater(b0, done, i, now);
        pending := pending - {i};
        backoff := backoff[i := NewBackoff(backoff, i, now)];
        stale := stale - {i};
        done := done + {i};
      }
      assert done == Stale(p0, now);
      AllLater(p0, b0, now);
      LivePendingIs(p0, now);
    }

    /** `_rarest_missing` */
    method RarestMissing(now: real) returns (r: seq<int>)
      ensures r == RankedEligible(View(), now, u.meta.Count())
      ensures forall i :: i in r <==>
                && 0 <= i < u.meta.Count() && i !in have && i !in pending
                && (i in backoff ==> backoff[i] <= now)
      ensures forall j, k :: 0 <= j < k < |r| ==>
                || RarityOf(rarity, r[j]) < RarityOf(rarity, r[k])
                || (RarityOf(rarity, r[j]) == RarityOf(rarity, r[k]) && r[j] < r[k])
    {
      r := [];
      for i := 0 to u.meta.Count()
        invariant r == RankedEligible(View(), now, i)
      {
        if i !in have && i !in pending && !(i in backoff && now < backoff[i]) {
          r := Inserted(rarity, r, i);
        }
      }
    }

    /** The loop over `_request_piece`; the requests in `lost` fail to go out. */
    method RequestPieces(chosen: seq<int>, now: real, lost: set<int>)
      requires forall k :: 0 <= k < |chosen| ==> chosen[k] !in pending
      modifies this`pending
      ensures pending == Requested(old(pending), chosen, now, lost)
    {
      hide Requested;
      ghost var p := pending;
      NothingRequested(p, now, lost);
      assert chosen[..0] == [];
      for k := 0 to |chosen|
        invariant pending == Requested(p, chosen[..k], now, lost)
      {
        RequestOne(p, chosen, k, now, lost);
        pending := pending[chosen[k] := now];
        if chosen[k] in lost {
          pending := pending - {chosen[k]};
        }
      }
      assert chosen[..|chosen|] == chosen;
    }

    /** `_fill_pipeline` */
    method FillPipeline(now: real, lost: set<int>)
      requires Valid() && known
      modifies this`pending, this`backoff
      ensures Valid() && View() == Filled(old(View()), u.meta.Count(), u.maxOutstanding, now, lost)
      ensures FilledRightly(old(View()), View(), u.meta.Count(), u.maxOutstanding, now, lost)
    {
      hide DownloadInv, RankedEligible, LaterBackoff, LivePending, Requested, FilledRightly;
      ghost var before := View();
      FillKeeps(u, before, now, lost);
      FillIsRight(u, before, now, lost);
      ChosenAreNew(before, u.meta.Count(), u.maxOutstanding, now);
      ExpireStale(now);
      var slots := u.maxOutstanding - |pending|;
      if slots <= 0 {
        NothingRequested(pending, now, lost);
        return;
      }
      var ranked := RarestMissing(now);
      RequestPieces(Prefix(ranked, slots), now, lost);
    }

    /** `b"".join(...)` over the manifest's indices; None when one is missing. */
    method JoinStored() returns (r: Option<Bytes>)
      ensures r.None? <==> exists i :: 0 <= i < u.meta.Count() && i !in pieces
      ensures r.Some? ==> r.value == Join(Ordered(pieces, u.meta.Count()))
    {
      var ordered: Bytes := [];
      for i := 0 to u.meta.Count()
        invariant forall k :: 0 <= k < i ==> k in pieces
        invariant ordered == Join(Ordered(pieces, i))
      {
        if i !in pieces {
          return None;
        }
        JoinSnoc(Ordered(pieces, i), pieces[i]);
        assert Ordered(pieces, i + 1) == Ordered(pieces, i) + [pieces[i]];
        ordered := ordered + pieces[i];
      }
      r := Some(ordered);
    }

    /** `_assemble_and_finish` */
    method AssembleAndFinish()
      modifies this
      ensures View() == Assembled(old(View()), u.meta)
    {
      hide Join, Ordered;
      var ordered := JoinStored();
      if ordered.None? {
        return;
      }
      if |ordered.value| != u.meta.size {
        return;
      }
      file := ordered;
      pieces := map[];
      pending := map[];
      backoff := map[];
      wanted := false;
      disk := map i | i in disk && !(0 <= i < u.meta.Count()) :: disk[i];
    }

    /** The checks of `_on_piece_data`. */
    method CheckPiece(msg: PieceMsg) returns (r: Option<Bytes>)
      ensures r == if known then Accepted(u.h, u.meta, msg) else None
    {
      hide Hex, FromHex;
      if msg.data == "" || msg.hash == "" {
        return None;
      }
      var data := FromHex(msg.data);
      if data.None? || Hex(u.h(data.value)) != msg.hash {
        return None;
      }
      if !known || msg.index >= u.meta.Count() {
        return None;
      }
      if !HasSlot(u.meta.Count(), msg.index) {
        return None;
      }
      if msg.hash != u.meta.pieceHashes[Slot(u.meta.Count(), msg.index)] {
        return None;
      }
      r := data;
    }

    /** `_on_piece_data`, for a message from another peer that is not addressed
        to someone else. */
    method OnPieceData(msg: PieceMsg, now: real, lost: set<int>)
      requires Valid()
      modifies this
      ensures Valid() && View() == Next(u, old(View()), PieceStep(msg, now, lost))
    {
      hide DownloadInv, FilledRightly, Filled, Assembled, Accepted, Matches, TakenIn, Answered;
      ghost var before := View();
      NextKeepsInv(u, before, PieceStep(msg, now, lost));
      var data := CheckPiece(msg);
      if data.None? {
        return;
      }
      AcceptedMatches(u, msg);
      var i := msg.index;
      if i in have {
        AnswerKeeps(u, before, i);
        StillKnown(before, i, data.value);
        ForgetRequest(i);
        FillPipeline(now, lost);
      } else {
        TakeInKeeps(u, before, i, data.value);
        StillKnown(before, i, data.value);
        StorePiece(i, data.value);
        if |have| == u.meta.Count() {
          AssembleAndFinish();
        } else {
          FillPipeline(now, lost);
        }
      }
    }

    method ForgetRequest(i: int)
      modifies this`pending, this`backoff
      ensures View() == Answered(old(View()), i)
    {
      pending := pending - {i};
      backoff := backoff - {i};
    }

    /** The request is forgotten and the piece stored, in memory and, as
        `_write_piece` does, on disk. */
    method StorePiece(i: int, data: Bytes)
      modifies this
      ensures View() == TakenIn(old(View()), i, data)
    {
      ForgetRequest(i);
      pieces := pieces[i := data];
      have := have + {i};
      rarity := Counted(rarity, i);
      disk := disk[i := data];
    }

    /** `start_download` */
    method StartDownload(now: real, lost: set<int>) returns (accepted: bool)
      requires Valid()
      modifies this
      ensures Valid() && View() == Next(u, old(View()), StartStep(now, lost))
      ensures accepted <==>
                || (if old(known) then |old(have)| == u.meta.Count() else old(file).Some?)
                || (u.meta.Count() <= 50000 && u.meta.size <= 32 * 1024 * 1024 * 1024)
      ensures wanted <==>
                && !(if old(known) then |old(have)| == u.meta.Count() else old(file).Some?)
                && u.meta.Count() <= 50000 && u.meta.size <= 32 * 1024 * 1024 * 1024
    {
      hide DownloadInv, FilledRightly, Filled, Loaded;
      ghost var before := View();
      NextKeepsInv(u, before, StartStep(now, lost));
      StartWants(u, before, now, lost);
      wanted := true;
      if Complete(View(), u.meta) {
        wanted := false;
        return true;
      }
      if u.meta.Count() > MAX_PIECES || u.meta.size > MAX_FILE_SIZE {
        wanted := false;
        return false;
      }
      LoadKeeps(u, before);
      LoadedKnown(u, before);
      known := true;
      LoadPartialPieces();
      FillPipeline(now, lost);
      accepted := true;
    }

    /** `_load_partial_pieces` */
    method LoadPartialPieces()
      modifies this`pieces, this`have
      ensures View() == Loaded(u.h, u.meta, old(View()))
    {
      hide Hex;
      ghost var before := View();
      for i := 0 to u.meta.Count()
        invariant pieces == LoadedPieces(u.h, u.meta, disk, before.pieces, i)
        invariant have == LoadedHave(u.h, u.meta, disk, before.have, i)
      {
        if DiskMatches(u.h, u.meta, disk, i) {
          pieces := pieces[i := disk[i]];
          have := have + {i};
        }
      }
      LoadedAll(u.h, u.meta, before);
    }

    /** `_on_announce` */
    method OnAnnounce(count: int)
      requires Valid()
      modifies this
      ensures Valid() && View() == Next(u, old(View()), AnnounceStep(count))
    {
      hide DownloadInv;
      ghost var before := View();
      NextKeepsInv(u, before, AnnounceStep(count));
      for i := 0 to Max0(count)
        invariant View() == before.(rarity := CountedBelow(before.rarity, i))
      {
        rarity := Counted(rarity, i);
      }
    }

    /** The stall recovery of `_maintenance_tick`. */
    method RecoverStall(now: real, lost: set<int>)
      requires Valid()
      modifies this
      ensures Valid() && View() == Next(u, old(View()), StallStep(now, lost))
      ensures known ==> (forall i :: i !in backoff) && forall i :: i in pending ==> pending[i] == now && i !in have
    {
      hide DownloadInv, Filled;
      if known {
        StallKeeps(u, View());
        RecoveredIs(View(), u.meta, u.maxOutstanding, now, lost);
        backoff := map[];
        pending := map[];
        FillPipeline(now, lost);
      }
    }

    /** `_on_piece_request`: the answer, if there is one. */
    method OnPieceRequest(i: int) returns (reply: Option<PieceMsg>)
      requires Valid()
      modifies this`rarity
      ensures Valid() && View() == Next(u, old(View()), ServeStep(i))
      ensures reply.Some? <==> Served(old(View()), u.meta, i).Some?
      ensures reply.Some? ==>
                var x := Served(old(View()), u.meta, i).value;
                reply.value == PieceMsgOf(u.h, i, x)
    {
      NextKeepsInv(u, View(), ServeStep(i));
      hide DownloadInv, Hex, Chunk;
      if i !in have {
        return None;
      }
      var data: Bytes := [];
      if i in pieces {
        data := pieces[i];
      } else if i in disk {
        data := disk[i];
      } else if file.Some? {
        data := Chunk(file.value, u.meta.pieceSize, i);
      }
      if data == [] {
        return None;
      }
      rarity := Counted(rarity, i);
      reply := Some(PieceMsg(i, Hex(data), Hex(u.h(data))));
    }
  }
}
