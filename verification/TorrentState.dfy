/** The piece pipeline of `mods/torrent_protocol/torrent_manager.py` for one
    infohash with a fixed manifest: the steps on values.  The object that
    follows them is in TorrentManager.dfy. */
module TorrentState {
  import opened ByteStrings
  import opened Options
  import opened Hashing

  const REQUEST_TIMEOUT: real := 20.0
  const MAX_BACKOFF: real := 120.0
  const MAX_PIECES: nat := 50000
  const MAX_FILE_SIZE: nat := 32 * 1024 * 1024 * 1024

  // ----- the manifest -----

  datatype TorrentMeta = TorrentMeta(size: nat, pieceSize: nat, pieceHashes: seq<Text>) {
    function Count(): nat {
      |pieceHashes|
    }
  }

  function ClampPieceSize(pieceSize: int): (n: nat)
    ensures 16 * 1024 <= n <= 4 * 1024 * 1024
    ensures n == pieceSize || (n == 16 * 1024 && pieceSize < n) || (n == 4 * 1024 * 1024 && pieceSize > n)
  {
    if pieceSize < 16 * 1024 then 16 * 1024
    else if pieceSize > 4 * 1024 * 1024 then 4 * 1024 * 1024
    else pieceSize
  }

  function PieceCount(size: nat, pieceSize: nat): nat
    requires pieceSize > 0
  {
    (size + pieceSize - 1) / pieceSize
  }

  /** The manifest that `create_torrent` makes of the data. */
  ghost predicate MadeFrom(h: Hash, meta: TorrentMeta, data: Bytes) {
    && meta.size == |data| && meta.pieceSize > 0
    && meta.Count() == PieceCount(|data|, meta.pieceSize)
    && forall i :: 0 <= i < meta.Count() ==> meta.pieceHashes[i] == Hex(h(Piece(data, meta.pieceSize, i)))
  }

  // ----- the state -----

  /** `known` says whether the manifest has arrived, `disk` holds the piece
      files, `file` the finished file. */
  datatype Download = Download(
    known: bool, have: set<int>, pieces: map<int, Bytes>, pending: map<int, real>, backoff: map<int, real>,
    rarity: map<int, nat>, disk: map<int, Bytes>, file: Option<Bytes>, wanted: bool)

  function RarityOf(rarity: map<int, nat>, i: int): nat {
    if i in rarity then rarity[i] else 0
  }

  function Counted(rarity: map<int, nat>, i: int): map<int, nat> {
    rarity[i := RarityOf(rarity, i) + 1]
  }

  // ----- requesting -----

  /** `_expire_stale_requests`: what remains pending. */
  function LivePending(pending: map<int, real>, now: real): map<int, real> {
    map i | i in pending && now - pending[i] <= REQUEST_TIMEOUT :: pending[i]
  }

  function NewBackoff(backoff: map<int, real>, i: int, now: real): real {
    var prev := if i in backoff then backoff[i] else REQUEST_TIMEOUT;
    now + (if prev * 1.7 <= MAX_BACKOFF then prev * 1.7 else MAX_BACKOFF)
  }

  /** `_expire_stale_requests`: the back-off of the expired requests. */
  function LaterBackoff(pending: map<int, real>, backoff: map<int, real>, now: real): map<int, real> {
    map i | i in backoff.Keys + pending.Keys && (i in backoff || now - pending[i] > REQUEST_TIMEOUT) ::
      if i in pending && now - pending[i] > REQUEST_TIMEOUT then NewBackoff(backoff, i, now) else backoff[i]
  }

  predicate Eligible(d: Download, now: real, i: int) {
    i !in d.have && i !in d.pending && !(i in d.backoff && now < d.backoff[i])
  }

  /** The order of `candidates.sort()`: by rarity, then by index. */
  predicate Before(rarity: map<int, nat>, a: int, b: int) {
    RarityOf(rarity, a) < RarityOf(rarity, b) || (RarityOf(rarity, a) == RarityOf(rarity, b) && a < b)
  }

  ghost predicate Ranked(rarity: map<int, nat>, xs: seq<int>) {
    forall i, j :: 0 <= i < j < |xs| ==> Before(rarity, xs[i], xs[j])
  }

  lemma TailBefore(rarity: map<int, nat>, xs: seq<int>)
    requires xs != [] && Ranked(rarity, xs)
    ensures forall y :: y in xs[1..] ==> Before(rarity, xs[0], y)
  {
  }

  function Inserted(rarity: map<int, nat>, xs: seq<int>, x: int): (r: seq<int>)
    requires Ranked(rarity, xs) && x !in xs
    ensures Ranked(rarity, r)
    ensures forall y :: y in r <==> y == x || y in xs
    ensures |r| == |xs| + 1
  {
    if xs == [] then [x]
    else if Before(rarity, x, xs[0]) then [x] + xs
    else
      var tail := Inserted(rarity, xs[1..], x);
      var r := [xs[0]] + tail;
      assert forall y :: y in xs[1..] ==> Before(rarity, xs[0], y) by { TailBefore(rarity, xs); }
      assert forall y :: y in tail ==> Before(rarity, xs[0], y);
      assert forall y :: y in r <==> y == xs[0] || y in tail;
      assert forall y :: y in xs <==> y == xs[0] || y in xs[1..];
      r
  }

  /** The eligible pieces below n, the rarest first. */
  function RankedEligible(d: Download, now: real, n: nat): (r: seq<int>)
    ensures Ranked(d.rarity, r)
    ensures forall i :: i in r <==> 0 <= i < n && Eligible(d, now, i)
  {
    if n == 0 then []
    else if Eligible(d, now, n - 1) then Inserted(d.rarity, RankedEligible(d, now, n - 1), n - 1)
    else RankedEligible(d, now, n - 1)
  }

  /** Requests go out in the order of xs; those in `lost` fail and are taken
      back. */
  function Requested(pending: map<int, real>, xs: seq<int>, now: real, lost: set<int>): map<int, real> {
    pending + map i | i in xs && i !in lost :: now
  }

  function Expired(d: Download, now: real): Download {
    d.(pending := LivePending(d.pending, now), backoff := LaterBackoff(d.pending, d.backoff, now))
  }

  function Max0(x: int): (m: nat)
    ensures m >= x && (m == 0 || m == x)
  {
    if x < 0 then 0 else x
  }

  /** The pieces that `_fill_pipeline` asks for. */
  function Choice(d: Download, n: nat, maxOutstanding: nat, now: real): seq<int> {
    var e := Expired(d, now);
    Prefix(RankedEligible(e, now, n), Max0(maxOutstanding - |e.pending|))
  }

  /** `_fill_pipeline` */
  function Filled(d: Download, n: nat, maxOutstanding: nat, now: real, lost: set<int>): Download {
    var e := Expired(d, now);
    e.(pending := Requested(e.pending, Choice(d, n, maxOutstanding, now), now, lost))
  }

  // ----- receiving -----

  /** A piece message: index, data in hexadecimal and the claimed hash; texts
      are "" when absent. */
  datatype PieceMsg = PieceMsg(index: int, data: Text, hash: Text)

  /** Which entry of the manifest an index reads: only its upper bound is checked,
      and a negative one counts from the end, as in Python. */
  function Slot(n: nat, i: int): int {
    if i < 0 then i + n else i
  }

  predicate HasSlot(n: nat, i: int) {
    -(n as int) <= i < n
  }

  /** The data of a message that passes all checks of `_on_piece_data`; an index
      too far below zero raises, and the message is dropped. */
  function Accepted(h: Hash, meta: TorrentMeta, msg: PieceMsg): Option<Bytes> {
    if msg.data == "" || msg.hash == "" then None
    else
      match FromHex(msg.data)
      case None => None
      case Some(data) =>
        if Hex(h(data)) == msg.hash && HasSlot(meta.Count(), msg.index)
           && msg.hash == meta.pieceHashes[Slot(meta.Count(), msg.index)]
        then Some(data) else None
  }

  function Ordered(pieces: map<int, Bytes>, n: nat): (xs: seq<Bytes>)
    requires forall i :: 0 <= i < n ==> i in pieces
    ensures |xs| == n
  {
    seq(n, i requires 0 <= i < n => pieces[i])
  }

  /** `_assemble_and_finish`; a missing piece or a wrong size ends it early. */
  function Assembled(d: Download, meta: TorrentMeta): Download {
    if exists i :: 0 <= i < meta.Count() && i !in d.pieces then d
    else
      var ordered := Join(Ordered(d.pieces, meta.Count()));
      if |ordered| != meta.size then d
      else d.(file := Some(ordered), pieces := map[], pending := map[], backoff := map[], wanted := false,
              disk := map i | i in d.disk && !(0 <= i < meta.Count()) :: d.disk[i])
  }

  /** A matching message ends the request for its piece. */
  function Answered(d: Download, i: int): Download {
    d.(pending := d.pending - {i}, backoff := d.backoff - {i})
  }

  /** The piece is stored, in memory and on disk. */
  function TakenIn(d: Download, i: int, data: Bytes): Download {
    Answered(d, i).(pieces := d.pieces[i := data], have := d.have + {i}, rarity := Counted(d.rarity, i),
                    disk := d.disk[i := data])
  }

  /** What follows: finish when nothing is missing, else ask for more. */
  function Continued(d: Download, meta: TorrentMeta, maxOutstanding: nat, now: real, lost: set<int>): Download {
    if |d.have| == meta.Count() then Assembled(d, meta)
    else Filled(d, meta.Count(), maxOutstanding, now, lost)
  }

  /** `_on_piece_data` */
  function Received(h: Hash, meta: TorrentMeta, d: Download, maxOutstanding: nat, msg: PieceMsg, now: real, lost: set<int>)
    : Download
  {
    match if d.known then Accepted(h, meta, msg) else None
    case None => d
    case Some(data) =>
      if msg.index in d.have then Filled(Answered(d, msg.index), meta.Count(), maxOutstanding, now, lost)
      else Continued(TakenIn(d, msg.index, data), meta, maxOutstanding, now, lost)
  }

  // ----- starting, announcements, maintenance -----

  predicate DiskMatches(h: Hash, meta: TorrentMeta, disk: map<int, Bytes>, i: int) {
    0 <= i < meta.Count() && i in disk && Hex(h(disk[i])) == meta.pieceHashes[i]
  }

  function MatchingOnDisk(h: Hash, meta: TorrentMeta, disk: map<int, Bytes>): map<int, Bytes> {
    map i | i in disk && DiskMatches(h, meta, disk, i) :: disk[i]
  }

  /** `_load_partial_pieces` */
  function Loaded(h: Hash, meta: TorrentMeta, d: Download): Download {
    var found := MatchingOnDisk(h, meta, d.disk);
    d.(pieces := d.pieces + found, have := d.have + found.Keys)
  }

  /** `is_complete` */
  predicate Complete(d: Download, meta: TorrentMeta) {
    if d.known then |d.have| == meta.Count() else d.file.Some?
  }

  /** `start_download` with the fixed manifest. */
  function Started(h: Hash, meta: TorrentMeta, d: Download, maxOutstanding: nat, now: real, lost: set<int>): Download {
    if Complete(d, meta) then d.(wanted := false)
    else if meta.Count() > MAX_PIECES || meta.size > MAX_FILE_SIZE then d.(wanted := false)
    else Filled(Loaded(h, meta, d.(wanted := true, known := true)), meta.Count(), maxOutstanding, now, lost)
  }

  function FirstIndices(n: nat): (s: set<int>)
    ensures forall i :: i in s <==> 0 <= i < n
    ensures |s| == n
  {
    if n == 0 then {} else FirstIndices(n - 1) + {n - 1}
  }

  function CountedBelow(rarity: map<int, nat>, n: nat): map<int, nat> {
    if n == 0 then rarity else Counted(CountedBelow(rarity, n - 1), n - 1)
  }

  /** `_on_announce`: every piece of the announced count becomes less rare. */
  function Announced(d: Download, count: int): Download {
    d.(rarity := CountedBelow(d.rarity, Max0(count)))
  }

  /** The stall recovery of `_maintenance_tick`. */
  function Recovered(d: Download, meta: TorrentMeta, maxOutstanding: nat, now: real, lost: set<int>): Download {
    Filled(d.(backoff := map[], pending := map[]), meta.Count(), maxOutstanding, now, lost)
  }

  /** `data[i * size : i * size + size]`, where negative bounds count from the end. */
  function Chunk(data: Bytes, size: nat, i: int): Bytes {
    if i >= 0 then Piece(data, size, i)
    else if i * size + size == 0 then []
    else Slice(data, Max0(|data| + i * size), Max0(|data| + i * size + size))
  }

  /** `_on_piece_request`: the bytes served, if any. */
  function Served(d: Download, meta: TorrentMeta, i: int): (r: Option<Bytes>)
    ensures r.Some? ==> r.value != []
  {
    if i !in d.have then None
    else
      var found :=
        if i in d.pieces then Some(d.pieces[i])
        else if i in d.disk then Some(d.disk[i])
        else if d.file.Some? then Some(Chunk(d.file.value, meta.pieceSize, i))
        else None;
      if found == Some([]) then None else found
  }
}
