/** How long a lost request keeps a piece back
    (`mods/torrent_protocol/torrent_manager.py`, lines 436-470).

    The back-off table holds points in time, but the next back-off is computed
    from its entry as if that were a duration (line 469). So on any clock past
    71 seconds the growth by 1.7 never shows: the first time-out costs 34
    seconds and every later one the maximum (`BackoffJumps`). No piece is kept
    back for more than that maximum (`NoPieceStarves`). */
module TorrentBackoff {
  import opened ByteStrings
  import opened TorrentState
  import opened TorrentRuns

  const FIRST_BACKOFF: real := 34.0

  ghost predicate InTime(step: Step, low: real, high: real) {
    match step
    case StartStep(now, _) => low <= now <= high
    case PieceStep(_, now, _) => low <= now <= high
    case FillStep(now, _) => low <= now <= high
    case StallStep(now, _) => low <= now <= high
    case AnnounceStep(_) => true
    case ServeStep(_) => true
  }

  ghost predicate AllInTime(steps: seq<Step>, low: real, high: real) {
    forall k :: 0 <= k < |steps| ==> InTime(steps[k], low, high)
  }

  /** Every entry is a point in time of the run, plus at most the maximum. */
  ghost predicate Within(backoff: map<int, real>, low: real, high: real) {
    forall i :: i in backoff ==> low <= backoff[i] <= high + MAX_BACKOFF
  }

  lemma LaterWithin(pending: map<int, real>, backoff: map<int, real>, now: real, low: real, high: real)
    requires 0.0 <= low <= now <= high && Within(backoff, low, high)
    ensures Within(LaterBackoff(pending, backoff, now), low, high)
  {
  }

  lemma FilledWithin(d: Download, n: nat, maxOutstanding: nat, now: real, lost: set<int>, low: real, high: real)
    requires 0.0 <= low <= now <= high && Within(d.backoff, low, high)
    ensures Within(Filled(d, n, maxOutstanding, now, lost).backoff, low, high)
  {
    hide Within, LaterBackoff, LivePending, Choice, Requested;
    LaterWithin(d.pending, d.backoff, now, low, high);
  }

  lemma FewerWithin(backoff: map<int, real>, i: int, low: real, high: real)
    requires Within(backoff, low, high)
    ensures Within(backoff - {i}, low, high)
  {
  }

  lemma NoneWithin(low: real, high: real)
    ensures Within(map[], low, high)
  {
  }

  lemma ReceivedWithin(u: Setup, d: Download, msg: PieceMsg, now: real, lost: set<int>, low: real, high: real)
    requires 0.0 <= low <= now <= high && Within(d.backoff, low, high)
    ensures Within(Received(u.h, u.meta, d, u.maxOutstanding, msg, now, lost).backoff, low, high)
  {
    hide Within, Filled, Accepted, Join;
    var i := msg.index;
    FewerWithin(d.backoff, i, low, high);
    NoneWithin(low, high);
    FilledWithin(Answered(d, i), u.meta.Count(), u.maxOutstanding, now, lost, low, high);
    if d.known && Accepted(u.h, u.meta, msg).Some? {
      var data := Accepted(u.h, u.meta, msg).value;
      FilledWithin(TakenIn(d, i, data), u.meta.Count(), u.maxOutstanding, now, lost, low, high);
    }
  }

  lemma NextWithin(u: Setup, d: Download, step: Step, low: real, high: real)
    requires 0.0 <= low <= high && InTime(step, low, high) && Within(d.backoff, low, high)
    ensures Within(Next(u, d, step).backoff, low, high)
  {
    hide Within, Filled, Received, MatchingOnDisk, Served, CountedBelow, Counted;
    match step
    case StartStep(now, lost) =>
      FilledWithin(Loaded(u.h, u.meta, d.(wanted := true, known := true)), u.meta.Count(), u.maxOutstanding, now, lost,
                   low, high);
    case PieceStep(msg, now, lost) => ReceivedWithin(u, d, msg, now, lost, low, high);
    case FillStep(now, lost) => FilledWithin(d, u.meta.Count(), u.maxOutstanding, now, lost, low, high);
    case StallStep(now, lost) =>
      NoneWithin(low, high);
      FilledWithin(d.(backoff := map[], pending := map[]), u.meta.Count(), u.maxOutstanding, now, lost, low, high);
    case AnnounceStep(_) =>
    case ServeStep(_) =>
  }

  lemma {:induction false} RunWithin(u: Setup, disk: map<int, Bytes>, steps: seq<Step>, low: real, high: real, n: nat)
    requires n <= |steps| && 0.0 <= low <= high && AllInTime(steps, low, high)
    ensures Within(After(u, disk, steps, n).backoff, low, high)
  {
    hide Next, Within, InTime;
    if n == 0 {
      NoneWithin(low, high);
    } else {
      RunWithin(u, disk, steps, low, high, n - 1);
      NextWithin(u, After(u, disk, steps, n - 1), steps[n - 1], low, high);
    }
  }

  /** On a clock past 71 seconds a piece that times out is kept back for 34
      seconds if it has no back-off entry yet, and otherwise for the maximum. */
  lemma BackoffJumps(u: Setup, disk: map<int, Bytes>, steps: seq<Step>, low: real, high: real, now: real, i: int)
    requires 71.0 <= low <= high && AllInTime(steps, low, high)
    requires var d := Run(u, disk, steps); i in d.pending && now - d.pending[i] > REQUEST_TIMEOUT
    ensures var d := Run(u, disk, steps);
            && i in Expired(d, now).backoff
            && Expired(d, now).backoff[i] == now + (if i in d.backoff then MAX_BACKOFF else FIRST_BACKOFF)
  {
    hide After;
    RunWithin(u, disk, steps, low, high, |steps|);
  }

  /** Once the maximum has passed since the last step, every missing piece is
      asked for already or may be asked for. */
  lemma NoPieceStarves(u: Setup, disk: map<int, Bytes>, steps: seq<Step>, low: real, high: real, now: real, i: int)
    requires 0.0 <= low <= high && AllInTime(steps, low, high) && now >= high + MAX_BACKOFF
    ensures var d := Run(u, disk, steps); i in d.have || i in d.pending || Eligible(d, now, i)
  {
    hide After;
    RunWithin(u, disk, steps, low, high, |steps|);
  }
}
