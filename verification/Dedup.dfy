/** The bounded replay cache (`comms/routing/delivery.py`, class `DedupCache`).

    Main results: the purge loop ends and the cache never exceeds its bound; a
    recorded message is refused as a duplicate before its expiry exactly when
    fewer than `max_entries - 1` live entries outrank it (`DuplicateAccepted`,
    `KeptWhile`); with one ttl and a clock that never goes back the replay
    window is exactly `max_entries - 1` accepted messages (`WindowIsExact`). The
    lookup comes after the eviction, so a duplicate can evict its own record. */
module Dedup {
  import opened Options

  /** One dictionary entry; a cache is its entries in insertion order. */
  datatype Item = Item(id: string, expiry: real, nonces: set<string>)

  /** The three readings of the clock inside one check. */
  datatype Clock = Clock(purge: real, check: real, record: real)

  datatype Op =
    | Check(id: string, nonce: string, ttl: real, clock: Clock)
    | Look(sought: string, at: real)

  /** When the purge of this call reads the clock. */
  function OpTime(op: Op): real {
    if op.Check? then op.clock.purge else op.at
  }

  ghost predicate Unique(s: seq<Item>) {
    forall i, j :: 0 <= i < j < |s| ==> s[i].id != s[j].id
  }

  // ----- purging -----

  function Live(s: seq<Item>, now: real): (r: seq<Item>)
    ensures |r| <= |s|
    decreases |s|
  {
    if s == [] then []
    else
      var init, last := s[..|s| - 1], s[|s| - 1];
      Live(init, now) + (if last.expiry > now then [last] else [])
  }

  lemma {:induction false} LiveHolds(s: seq<Item>, now: real)
    ensures forall x :: x in Live(s, now) <==> x in s && x.expiry > now
    decreases |s|
  {
    if s != [] {
      LiveHolds(s[..|s| - 1], now);
      assert s == s[..|s| - 1] + [s[|s| - 1]];
    }
  }

  /** The first entry with the least expiry, as `min` picks it. */
  function Oldest(s: seq<Item>): (m: nat)
    requires s != []
    ensures m < |s|
    ensures forall j :: 0 <= j < m ==> s[m].expiry < s[j].expiry
    ensures forall j :: m < j < |s| ==> s[m].expiry <= s[j].expiry
    decreases |s|
  {
    if |s| == 1 then 0
    else
      var m := Oldest(s[..|s| - 1]);
      if s[|s| - 1].expiry < s[m].expiry then |s| - 1 else m
  }

  function Without(s: seq<Item>, m: nat): (r: seq<Item>)
    requires m < |s|
    ensures |r| == |s| - 1
  {
    s[..m] + s[m + 1..]
  }

  function Trimmed(s: seq<Item>, max: int): (r: seq<Item>)
    requires max >= 1
    ensures |r| < max && |r| <= |s|
    decreases |s|
  {
    if |s| < max then s else Trimmed(Without(s, Oldest(s)), max)
  }

  /** `_purge` */
  function Purged(s: seq<Item>, max: int, now: real): (r: seq<Item>)
    requires max >= 1
    ensures |r| < max
  {
    Trimmed(Live(s, now), max)
  }

  function Find(s: seq<Item>, id: string): (r: Option<nat>)
    ensures r.Some? ==> r.value < |s| && s[r.value].id == id
    ensures r.None? ==> forall x :: x in s ==> x.id != id
    decreases |s|
  {
    if s == [] then None
    else if s[|s| - 1].id == id then Some(|s| - 1)
    else
      assert s == s[..|s| - 1] + [s[|s| - 1]];
      Find(s[..|s| - 1], id)
  }

  function Refuses(s: seq<Item>, id: string, nonce: string, now: real): bool {
    var at := Find(s, id);
    at.Some? && (nonce in s[at.value].nonces || now < s[at.value].expiry)
  }

  function Recorded(s: seq<Item>, id: string, nonce: string, expiry: real): (r: seq<Item>) {
    var at := Find(s, id);
    if at.Some? then s[at.value := Item(id, expiry, {nonce} + s[at.value].nonces)] else s + [Item(id, expiry, {nonce})]
  }

  function Step(s: seq<Item>, max: int, op: Op): seq<Item>
    requires max >= 1
  {
    var p := Purged(s, max, OpTime(op));
    if op.Look? || Refuses(p, op.id, op.nonce, op.clock.check) then p
    else Recorded(p, op.id, op.nonce, op.clock.record + op.ttl)
  }

  predicate Accepts(s: seq<Item>, max: int, op: Op)
    requires max >= 1
  {
    op.Check? && !Refuses(Purged(s, max, OpTime(op)), op.id, op.nonce, op.clock.check)
  }

  /** The cache after the first k calls of a run. */
  function After(s: seq<Item>, max: int, ops: seq<Op>, k: nat): seq<Item>
    requires max >= 1 && k <= |ops|
  {
    if k == 0 then s else Step(After(s, max, ops, k - 1), max, ops[k - 1])
  }

  // ----- what every run keeps -----

  lemma {:induction false} LiveKeepsUnique(s: seq<Item>, now: real)
    requires Unique(s)
    ensures Unique(Live(s, now))
    decreases |s|
  {
    if s != [] {
      var init := s[..|s| - 1];
      LiveKeepsUnique(init, now);
      LiveHolds(init, now);
      forall i: nat | i < |Live(init, now)|
        ensures Live(init, now)[i].id != s[|s| - 1].id
      {
        assert Live(init, now)[i] in init;
      }
    }
  }

  lemma {:induction false} TrimKeepsUnique(s: seq<Item>, max: int)
    requires max >= 1 && Unique(s)
    ensures Unique(Trimmed(s, max))
    decreases |s|
  {
    hide Oldest;
    if |s| >= max {
      TrimKeepsUnique(Without(s, Oldest(s)), max);
    }
  }

  lemma PurgeKeepsUnique(s: seq<Item>, max: int, now: real)
    requires max >= 1 && Unique(s)
    ensures Unique(Purged(s, max, now))
  {
    LiveKeepsUnique(s, now);
    TrimKeepsUnique(Live(s, now), max);
  }

  lemma StepKeepsBound(s: seq<Item>, max: int, op: Op)
    requires max >= 1 && Unique(s)
    ensures Unique(Step(s, max, op)) && |Step(s, max, op)| <= max
  {
    hide Live, Trimmed, Find;
    PurgeKeepsUnique(s, max, OpTime(op));
    var p := Purged(s, max, OpTime(op));
    assert forall i :: 0 <= i < |p| ==> p[i] in p;
  }

  lemma EmptyUnique()
    ensures Unique([])
  {
  }

  /** No run makes the cache exceed its bound or hold an id twice. */
  lemma {:induction false} RunKeepsBound(max: int, ops: seq<Op>, k: nat)
    requires max >= 1 && k <= |ops|
    ensures Unique(After([], max, ops, k)) && |After([], max, ops, k)| <= max
  {
    hide Step, Unique;
    if k == 0 {
      EmptyUnique();
    } else {
      RunKeepsBound(max, ops, k - 1);
      StepKeepsBound(After([], max, ops, k - 1), max, ops[k - 1]);
    }
  }

  // ----- which entries an eviction removes -----

  function Above(s: seq<Item>, bound: real, orEqual: bool): (n: nat)
    ensures n <= |s|
    decreases |s|
  {
    if s == [] then 0
    else
      var e := s[|s| - 1].expiry;
      Above(s[..|s| - 1], bound, orEqual) + (if e > bound || (orEqual && e == bound) then 1 else 0)
  }

  /** How many entries are evicted later than entry `i`: those that expire later,
      or at the same time and were recorded later. */
  function Rank(s: seq<Item>, i: nat): (n: nat)
    requires i < |s|
    ensures n < |s|
  {
    Above(s[..i], s[i].expiry, false) + Above(s[i + 1..], s[i].expiry, true)
  }

  lemma {:induction false} AboveConcat(a: seq<Item>, b: seq<Item>, bound: real, orEqual: bool)
    ensures Above(a + b, bound, orEqual) == Above(a, bound, orEqual) + Above(b, bound, orEqual)
    decreases |b|
  {
    if b == [] {
      assert a + b == a;
    } else {
      AboveConcat(a, b[..|b| - 1], bound, orEqual);
      assert (a + b)[..|a + b| - 1] == a + b[..|b| - 1];
    }
  }

  lemma {:induction false} AboveAll(s: seq<Item>, bound: real, orEqual: bool)
    requires forall j :: 0 <= j < |s| ==> s[j].expiry > bound || (orEqual && s[j].expiry == bound)
    ensures Above(s, bound, orEqual) == |s|
    decreases |s|
  {
    if s != [] {
      AboveAll(s[..|s| - 1], bound, orEqual);
    }
  }

  /** Taking out an entry that does not count leaves the count. */
  lemma AboveWithout(s: seq<Item>, m: nat, bound: real, orEqual: bool)
    requires m < |s| && !(s[m].expiry > bound || (orEqual && s[m].expiry == bound))
    ensures Above(Without(s, m), bound, orEqual) == Above(s, bound, orEqual)
  {
    AboveConcat(s[..m], s[m + 1..], bound, orEqual);
    AboveConcat(s[..m], [s[m]], bound, orEqual);
    AboveConcat(s[..m] + [s[m]], s[m + 1..], bound, orEqual);
    assert s == s[..m] + [s[m]] + s[m + 1..];
    assert Above([s[m]], bound, orEqual) == 0;
  }

  /** The position of entry `i` once entry `m` is gone. */
  function Shifted(i: nat, m: nat): nat {
    if i < m || i == 0 then i else i - 1
  }

  lemma OldestRank(s: seq<Item>)
    requires s != []
    ensures Rank(s, Oldest(s)) == |s| - 1
  {
    hide Oldest;
    var m := Oldest(s);
    AboveAll(s[..m], s[m].expiry, false);
    AboveAll(s[m + 1..], s[m].expiry, true);
  }

  lemma RankWithoutLater(s: seq<Item>, i: nat, m: nat)
    requires i < m < |s| && s[m].expiry < s[i].expiry
    ensures Without(s, m)[i] == s[i] && Rank(Without(s, m), i) == Rank(s, i)
  {
    hide Above;
    var r := Without(s, m);
    AboveWithout(s[i + 1..], m - i - 1, s[i].expiry, true);
    assert r[..i] == s[..i];
    assert r[i + 1..] == Without(s[i + 1..], m - i - 1);
  }

  lemma RankWithoutEarlier(s: seq<Item>, i: nat, m: nat)
    requires m < i < |s| && s[m].expiry <= s[i].expiry
    ensures Without(s, m)[i - 1] == s[i] && Rank(Without(s, m), i - 1) == Rank(s, i)
  {
    hide Above;
    var r := Without(s, m);
    AboveWithout(s[..i], m, s[i].expiry, false);
    assert r[..i - 1] == Without(s[..i], m);
    assert r[i..] == s[i + 1..];
  }

  lemma RankWithoutOldest(s: seq<Item>, i: nat)
    requires i < |s| && i != Oldest(s)
    ensures var r, k := Without(s, Oldest(s)), Shifted(i, Oldest(s));
            k < |r| && r[k] == s[i] && Rank(r, k) == Rank(s, i)
  {
    hide Oldest, Rank, Without;
    if i < Oldest(s) {
      RankWithoutLater(s, i, Oldest(s));
    } else {
      RankWithoutEarlier(s, i, Oldest(s));
    }
  }

  lemma {:induction false} TrimmedIsSub(s: seq<Item>, max: int, x: Item)
    requires max >= 1 && x in Trimmed(s, max)
    ensures x in s
    decreases |s|
  {
    hide Oldest;
    if |s| >= max {
      TrimmedIsSub(Without(s, Oldest(s)), max, x);
    }
  }

  lemma WithoutDrops(s: seq<Item>, m: nat)
    requires m < |s| && Unique(s)
    ensures Unique(Without(s, m)) && s[m] !in Without(s, m)
  {
  }

  /** Eviction keeps exactly the entries outranked by fewer than `max - 1`. */
  lemma {:induction false} SurvivesExactlyWhen(s: seq<Item>, max: int, i: nat)
    requires max >= 1 && i < |s| && Unique(s)
    ensures s[i] in Trimmed(s, max) <==> Rank(s, i) < max - 1
    decreases |s|
  {
    hide Oldest, Rank, Unique;
    if |s| >= max {
      var m := Oldest(s);
      var r := Without(s, m);
      WithoutDrops(s, m);
      if i == m {
        OldestRank(s);
        if s[i] in Trimmed(r, max) {
          TrimmedIsSub(r, max, s[i]);
        }
      } else {
        RankWithoutOldest(s, i);
        SurvivesExactlyWhen(r, max, Shifted(i, m));
      }
    }
  }

  // ----- duplicates -----

  /** Fewer than `max - 1` live entries outrank `x` when the purge runs. */
  ghost predicate Room(s: seq<Item>, max: int, x: Item, now: real) {
    forall i: nat :: i < |Live(s, now)| && Live(s, now)[i] == x ==> Rank(Live(s, now), i) < max - 1
  }

  lemma PurgeKeepsExactlyWhen(s: seq<Item>, max: int, x: Item, now: real)
    requires max >= 1 && Unique(s) && x in s && now < x.expiry
    ensures x in Purged(s, max, now) <==> Room(s, max, x, now)
  {
    hide Live, Trimmed, Rank, Unique;
    LiveKeepsUnique(s, now);
    var live := Live(s, now);
    forall i: nat | i < |live| && live[i] == x
      ensures x in Trimmed(live, max) <==> Rank(live, i) < max - 1
    {
      SurvivesExactlyWhen(live, max, i);
    }
    LiveHolds(s, now);
    assert x in live;
  }

  lemma FindsIt(s: seq<Item>, x: Item)
    requires Unique(s) && x in s
    ensures Find(s, x.id).Some? && s[Find(s, x.id).value] == x
  {
    hide Find;
    var i :| 0 <= i < |s| && s[i] == x;
    var at := Find(s, x.id);
    assert at.Some?;
  }

  lemma PurgedIsSub(s: seq<Item>, max: int, now: real, x: Item)
    requires max >= 1 && x in Purged(s, max, now)
    ensures x in s && x.expiry > now
  {
    TrimmedIsSub(Live(s, now), max, x);
    LiveHolds(s, now);
  }

  lemma SameId(s: seq<Item>, x: Item, y: Item)
    requires Unique(s) && x in s && y in s && x.id == y.id
    ensures x == y
  {
    var i :| 0 <= i < |s| && s[i] == x;
    var j :| 0 <= j < |s| && s[j] == y;
    assert i == j;
  }

  lemma Gone(s: seq<Item>, max: int, now: real, x: Item)
    requires max >= 1 && Unique(s) && x in s && x !in Purged(s, max, now)
    ensures Find(Purged(s, max, now), x.id).None?
  {
    hide Purged, Find, Unique;
    var p := Purged(s, max, now);
    var at := Find(p, x.id);
    if at.Some? {
      PurgedIsSub(s, max, now, p[at.value]);
      SameId(s, x, p[at.value]);
    }
  }

  /** A recorded id passes as new exactly when its record has expired before
      the purge, when there is no room left for the record, which its own check
      then evicts, or when the record expires between purge and check and the
      nonce is another one. */
  lemma DuplicateAccepted(s: seq<Item>, max: int, x: Item, nonce: string, ttl: real, clock: Clock)
    requires max >= 1 && Unique(s) && x in s
    ensures Accepts(s, max, Check(x.id, nonce, ttl, clock))
       <==> || x.expiry <= clock.purge
            || !Room(s, max, x, clock.purge)
            || (x.expiry <= clock.check && nonce !in x.nonces)
  {
    hide Purged, Room, Find, Unique;
    PurgeKeepsUnique(s, max, clock.purge);
    var p := Purged(s, max, clock.purge);
    if x.expiry > clock.purge {
      PurgeKeepsExactlyWhen(s, max, x, clock.purge);
    }
    if x in p {
      PurgedIsSub(s, max, clock.purge, x);
      FindsIt(p, x);
    } else {
      Gone(s, max, clock.purge, x);
    }
  }

  /** A message that comes after its expiry is rejected exactly when the record
      was still live at the purge, had room, and holds the nonce. */
  lemma LateRejected(s: seq<Item>, max: int, x: Item, nonce: string, ttl: real, clock: Clock)
    requires max >= 1 && Unique(s) && x in s && x.expiry <= clock.check
    ensures !Accepts(s, max, Check(x.id, nonce, ttl, clock))
       <==> clock.purge < x.expiry && Room(s, max, x, clock.purge) && nonce in x.nonces
  {
    hide Room, Unique, Accepts;
    DuplicateAccepted(s, max, x, nonce, ttl, clock);
  }

  /** The times of a run at which `x` must still be live. */
  ghost predicate Before(op: Op, expiry: real) {
    OpTime(op) < expiry && (op.Check? ==> op.clock.check < expiry)
  }

  lemma RecordedKeeps(s: seq<Item>, id: string, nonce: string, expiry: real, x: Item)
    requires x in s && x.id != id
    ensures x in Recorded(s, id, nonce, expiry)
  {
    hide Find;
    var i :| 0 <= i < |s| && s[i] == x;
    var r := Recorded(s, id, nonce, expiry);
    assert r[i] == x;
  }

  lemma StepKeepsWhile(s: seq<Item>, max: int, x: Item, op: Op)
    requires max >= 1 && Unique(s) && x in s && Before(op, x.expiry) && Room(s, max, x, OpTime(op))
    ensures x in Step(s, max, op) && (op.Check? && op.id == x.id ==> !Accepts(s, max, op))
  {
    hide Purged, Room, Find, Unique;
    PurgeKeepsExactlyWhen(s, max, x, OpTime(op));
    PurgeKeepsUnique(s, max, OpTime(op));
    var p := Purged(s, max, OpTime(op));
    FindsIt(p, x);
    if op.Check? && op.id != x.id {
      RecordedKeeps(p, op.id, op.nonce, op.clock.record + op.ttl, x);
    }
  }

  /** The record is live and has room at every purge of the first n calls. */
  ghost predicate RoomThroughout(s: seq<Item>, max: int, x: Item, ops: seq<Op>, n: nat)
    requires max >= 1 && n <= |ops|
  {
    forall k: nat :: k < n ==> Before(ops[k], x.expiry) && Room(After(s, max, ops, k), max, x, OpTime(ops[k]))
  }

  ghost predicate RefusedThroughout(s: seq<Item>, max: int, id: string, ops: seq<Op>, n: nat)
    requires max >= 1 && n <= |ops|
  {
    forall k: nat :: k < n && ops[k].Check? && ops[k].id == id ==> !Accepts(After(s, max, ops, k), max, ops[k])
  }

  /** Along any run up to its expiry, a record that always has room stays, and
      every duplicate of it is refused. */
  lemma {:induction false} KeptWhile(s: seq<Item>, max: int, x: Item, ops: seq<Op>, n: nat)
    requires max >= 1 && n <= |ops| && Unique(s) && x in s && RoomThroughout(s, max, x, ops, n)
    ensures Unique(After(s, max, ops, n)) && x in After(s, max, ops, n)
    ensures RefusedThroughout(s, max, x.id, ops, n)
  {
    hide Step, Room, Unique, Accepts, Before;
    if n > 0 {
      KeptWhile(s, max, x, ops, n - 1);
      var before := After(s, max, ops, n - 1);
      StepKeepsWhile(before, max, x, ops[n - 1]);
      StepKeepsBound(before, max, ops[n - 1]);
    }
  }

  // ----- ranks through purging and recording -----

  /** `x` is held, outranked by n entries. */
  ghost predicate RankIs(s: seq<Item>, x: Item, n: nat) {
    exists i: nat :: i < |s| && s[i] == x && Rank(s, i) == n
  }

  ghost predicate NoId(s: seq<Item>, id: string) {
    forall i :: 0 <= i < |s| ==> s[i].id != id
  }

  lemma LiveSnoc(s: seq<Item>, x: Item, now: real)
    ensures Live(s + [x], now) == if x.expiry > now then Live(s, now) + [x] else Live(s, now)
  {
    assert (s + [x])[..|s|] == s;
  }

  lemma AboveSnoc(s: seq<Item>, x: Item, bound: real, orEqual: bool)
    ensures Above(s + [x], bound, orEqual)
            == Above(s, bound, orEqual) + (if x.expiry > bound || (orEqual && x.expiry == bound) then 1 else 0)
  {
    assert (s + [x])[..|s|] == s;
  }

  lemma Grouped(a: seq<Item>, b: seq<Item>, c: seq<Item>)
    ensures a + (b + c) == (a + b) + c
  {
  }

  lemma LiveNothing(now: real)
    ensures Live([], now) == []
  {
  }

  lemma SplitAt(s: seq<Item>, i: nat)
    requires i < |s|
    ensures s == s[..i] + [s[i]] + s[i + 1..]
  {
  }

  lemma {:induction false} LiveConcat(a: seq<Item>, b: seq<Item>, now: real)
    ensures Live(a + b, now) == Live(a, now) + Live(b, now)
    decreases |b|
  {
    hide Live;
    if b == [] {
      assert a + b == a;
      LiveNothing(now);
    } else {
      var init, last := b[..|b| - 1], b[|b| - 1];
      SplitAt(b, |b| - 1);
      assert b == init + [last];
      Grouped(a, init, [last]);
      LiveSnoc(a + init, last, now);
      LiveSnoc(init, last, now);
      LiveConcat(a, init, now);
      Grouped(Live(a, now), Live(init, now), [last]);
    }
  }

  /** Dropping what has expired does not change who outranks a live entry. */
  lemma {:induction false} LiveAbove(s: seq<Item>, now: real, bound: real, orEqual: bool)
    requires now < bound
    ensures Above(Live(s, now), bound, orEqual) == Above(s, bound, orEqual)
    decreases |s|
  {
    hide Live, Above;
    if s == [] {
      LiveNothing(now);
    } else {
      var init, last := s[..|s| - 1], s[|s| - 1];
      assert s == init + [last];
      LiveAbove(init, now, bound, orEqual);
      LiveSnoc(init, last, now);
      AboveSnoc(init, last, bound, orEqual);
      AboveSnoc(Live(init, now), last, bound, orEqual);
    }
  }

  lemma RankInMiddle(a: seq<Item>, x: Item, b: seq<Item>)
    ensures (a + [x] + b)[|a|] == x
    ensures Rank(a + [x] + b, |a|) == Above(a, x.expiry, false) + Above(b, x.expiry, true)
  {
    var s := a + [x] + b;
    assert s[..|a|] == a && s[|a| + 1..] == b;
  }

  lemma LiveOne(x: Item, now: real)
    requires now < x.expiry
    ensures Live([x], now) == [x]
  {
    assert [x][..0] == [];
  }

  lemma LiveRank(s: seq<Item>, x: Item, n: nat, now: real)
    requires RankIs(s, x, n) && now < x.expiry
    ensures RankIs(Live(s, now), x, n)
  {
    hide Above, Rank;
    var i: nat :| i < |s| && s[i] == x && Rank(s, i) == n;
    var a, b := s[..i], s[i + 1..];
    SplitAt(s, i);
    RankInMiddle(a, x, b);
    LiveOne(x, now);
    LiveConcat(a, [x], now);
    LiveConcat(a + [x], b, now);
    LiveAbove(a, now, x.expiry, false);
    LiveAbove(b, now, x.expiry, true);
    RankInMiddle(Live(a, now), x, Live(b, now));
  }

  lemma {:induction false} TrimRank(s: seq<Item>, max: int, x: Item, n: nat)
    requires max >= 1 && RankIs(s, x, n) && n < max - 1
    ensures RankIs(Trimmed(s, max), x, n)
    decreases |s|
  {
    hide Oldest, Rank;
    if |s| >= max {
      var i: nat :| i < |s| && s[i] == x && Rank(s, i) == n;
      OldestRank(s);
      RankWithoutOldest(s, i);
      TrimRank(Without(s, Oldest(s)), max, x, n);
    }
  }

  lemma TrimEvicts(s: seq<Item>, max: int, x: Item, n: nat)
    requires max >= 1 && Unique(s) && RankIs(s, x, n) && n >= max - 1
    ensures x !in Trimmed(s, max)
  {
    hide Rank, Unique, Trimmed;
    var i: nat :| i < |s| && s[i] == x && Rank(s, i) == n;
    SurvivesExactlyWhen(s, max, i);
  }

  lemma AboveOne(y: Item, bound: real, orEqual: bool)
    ensures Above([y], bound, orEqual) == if y.expiry > bound || (orEqual && y.expiry == bound) then 1 else 0
  {
    assert [y][..0] == [];
  }

  lemma AppendRank(s: seq<Item>, x: Item, n: nat, y: Item)
    requires RankIs(s, x, n) && y.expiry >= x.expiry
    ensures RankIs(s + [y], x, n + 1)
  {
    hide Above, Rank;
    var i: nat :| i < |s| && s[i] == x && Rank(s, i) == n;
    var a, b := s[..i], s[i + 1..];
    SplitAt(s, i);
    RankInMiddle(a, x, b);
    RankInMiddle(a, x, b + [y]);
    AboveConcat(b, [y], x.expiry, true);
    AboveOne(y, x.expiry, true);
    assert s + [y] == a + [x] + (b + [y]);
  }

  /** An entry that did not count is replaced by one that does. */
  lemma AboveReplaced(s: seq<Item>, j: nat, y: Item, bound: real, orEqual: bool)
    requires j < |s| && s[j].expiry < bound < y.expiry
    ensures Above(s[j := y], bound, orEqual) == Above(s, bound, orEqual) + 1
  {
    hide Above;
    SplitAt(s, j);
    AboveConcat(s[..j], [s[j]], bound, orEqual);
    AboveConcat(s[..j] + [s[j]], s[j + 1..], bound, orEqual);
    AboveOne(s[j], bound, orEqual);
    assert s[j := y] == s[..j] + [y] + s[j + 1..];
    AboveConcat(s[..j], [y], bound, orEqual);
    AboveConcat(s[..j] + [y], s[j + 1..], bound, orEqual);
    AboveOne(y, bound, orEqual);
  }

  lemma ReplaceRank(s: seq<Item>, x: Item, n: nat, j: nat, y: Item)
    requires RankIs(s, x, n) && j < |s| && s[j].expiry < x.expiry < y.expiry
    ensures RankIs(s[j := y], x, n + 1)
  {
    hide Above;
    var i: nat :| i < |s| && s[i] == x && Rank(s, i) == n;
    var r := s[j := y];
    if j < i {
      AboveReplaced(s[..i], j, y, x.expiry, false);
      assert r[..i] == s[..i][j := y] && r[i + 1..] == s[i + 1..];
    } else {
      AboveReplaced(s[i + 1..], j - i - 1, y, x.expiry, true);
      assert r[..i] == s[..i] && r[i + 1..] == s[i + 1..][j - i - 1 := y];
    }
    assert r[i] == x && Rank(r, i) == n + 1;
  }

  // ----- the replay window -----

  /** When the last reading of the clock in this call happens. */
  function EndTime(op: Op): real {
    if op.Check? then op.clock.record else op.at
  }

  ghost predicate Ticking(op: Op, ttl: real) {
    op.Check? ==> op.ttl == ttl && op.clock.purge <= op.clock.check <= op.clock.record
  }

  /** One ttl, and a clock that never goes back, within a call or between calls. */
  ghost predicate Steady(ops: seq<Op>, ttl: real) {
    && (forall k :: 0 <= k < |ops| ==> Ticking(ops[k], ttl))
    && forall j, k :: 0 <= j < k < |ops| ==> EndTime(ops[j]) <= OpTime(ops[k])
  }

  ghost predicate NoLater(s: seq<Item>, latest: real) {
    forall i :: 0 <= i < |s| ==> s[i].expiry <= latest
  }

  lemma PurgeNoLater(s: seq<Item>, max: int, now: real, latest: real)
    requires max >= 1 && NoLater(s, latest)
    ensures NoLater(Purged(s, max, now), latest)
  {
    hide Purged;
    var p := Purged(s, max, now);
    forall i | 0 <= i < |p|
      ensures p[i].expiry <= latest
    {
      PurgedIsSub(s, max, now, p[i]);
    }
  }

  lemma StepNoLater(s: seq<Item>, max: int, op: Op, ttl: real, latest: real)
    requires max >= 1 && Ticking(op, ttl) && NoLater(s, latest) && latest <= EndTime(op) + ttl
    ensures NoLater(Step(s, max, op), EndTime(op) + ttl)
  {
    hide Purged, Find, Refuses;
    PurgeNoLater(s, max, OpTime(op), latest);
  }

  lemma {:induction false} RunNoLater(max: int, ops: seq<Op>, ttl: real, k: nat)
    requires max >= 1 && 1 <= k <= |ops| && Steady(ops, ttl)
    ensures NoLater(After([], max, ops, k), EndTime(ops[k - 1]) + ttl)
  {
    hide Step;
    if k == 1 {
      StepNoLater([], max, ops[0], ttl, EndTime(ops[0]) + ttl);
    } else {
      RunNoLater(max, ops, ttl, k - 1);
      assert EndTime(ops[k - 2]) <= OpTime(ops[k - 1]);
      StepNoLater(After([], max, ops, k - 1), max, ops[k - 1], ttl, EndTime(ops[k - 2]) + ttl);
    }
  }

  /** How many of the calls lo..hi of a run were accepted as new. */
  function Accepted(max: int, ops: seq<Op>, lo: nat, hi: nat): nat
    requires max >= 1 && lo <= hi <= |ops|
    decreases hi
  {
    if lo == hi then 0
    else
      Accepted(max, ops, lo, hi - 1) + (if Accepts(After([], max, ops, hi - 1), max, ops[hi - 1]) then 1 else 0)
  }

  /** `x` is outranked by exactly the n entries accepted since, or at least
      `max - 1` were and it is gone. */
  ghost predicate Followed(s: seq<Item>, max: int, x: Item, n: nat) {
    RankIs(s, x, n) || (n >= max - 1 && NoId(s, x.id))
  }

  lemma NoneStays(s: seq<Item>, max: int, now: real, id: string)
    requires max >= 1 && NoId(s, id)
    ensures NoId(Purged(s, max, now), id)
  {
    hide Purged;
    var p := Purged(s, max, now);
    forall i | 0 <= i < |p|
      ensures p[i].id != id
    {
      PurgedIsSub(s, max, now, p[i]);
    }
  }

  lemma FoundNone(s: seq<Item>, id: string)
    requires Find(s, id).None?
    ensures NoId(s, id)
  {
    hide Find;
    assert forall i :: 0 <= i < |s| ==> s[i] in s;
  }

  lemma RankedIsHeld(s: seq<Item>, x: Item, n: nat)
    requires RankIs(s, x, n)
    ensures x in s
  {
    hide Rank;
  }

  /** What a purge before the expiry of `x` does to it. */
  lemma PurgeFollowed(s: seq<Item>, max: int, x: Item, n: nat, now: real)
    requires max >= 1 && Unique(s) && now < x.expiry && Followed(s, max, x, n)
    ensures n < max - 1 ==> RankIs(Purged(s, max, now), x, n)
    ensures n >= max - 1 ==> NoId(Purged(s, max, now), x.id)
  {
    hide Live, Trimmed, Unique, RankIs, NoId, Find;
    if RankIs(s, x, n) {
      LiveRank(s, x, n, now);
      LiveKeepsUnique(s, now);
      if n < max - 1 {
        TrimRank(Live(s, now), max, x, n);
      } else {
        TrimEvicts(Live(s, now), max, x, n);
        RankedIsHeld(s, x, n);
        Gone(s, max, now, x);
        FoundNone(Purged(s, max, now), x.id);
      }
    } else {
      NoneStays(s, max, now, x.id);
    }
  }

  /** Recording another id after `x`, later than the purge that came before. */
  lemma RecordFollowed(p: seq<Item>, max: int, x: Item, n: nat, id: string, nonce: string, check: real, expiry: real)
    requires Followed(p, max, x, n) && id != x.id && !Refuses(p, id, nonce, check) && check < x.expiry <= expiry
    requires Find(p, id).Some? ==> x.expiry < expiry
    ensures Followed(Recorded(p, id, nonce, expiry), max, x, n + 1)
  {
    hide Find, Rank, RankIs;
    var at := Find(p, id);
    if RankIs(p, x, n) {
      if at.Some? {
        ReplaceRank(p, x, n, at.value, Item(id, expiry, {nonce} + p[at.value].nonces));
      } else {
        AppendRank(p, x, n, Item(id, expiry, {nonce}));
      }
    }
  }

  lemma PurgedFollowed(p: seq<Item>, max: int, x: Item, n: nat)
    requires n < max - 1 ==> RankIs(p, x, n)
    requires n >= max - 1 ==> NoId(p, x.id)
    ensures Followed(p, max, x, n)
  {
    hide RankIs, NoId;
  }

  /** A step between `x` and its duplicate: `since` is when `x` was recorded. */
  lemma StepFollowed(s: seq<Item>, max: int, x: Item, n: nat, op: Op, ttl: real, since: real)
    requires max >= 1 && Unique(s) && Followed(s, max, x, n) && x.expiry == since + ttl
    requires Ticking(op, ttl) && since <= OpTime(op) && EndTime(op) < x.expiry
    requires op.Check? && op.id == x.id ==> !Accepts(s, max, op)
    ensures Followed(Step(s, max, op), max, x, if Accepts(s, max, op) then n + 1 else n)
  {
    hide Purged, Unique, Followed, Find, RankIs, NoId;
    PurgeFollowed(s, max, x, n, OpTime(op));
    var p := Purged(s, max, OpTime(op));
    PurgedFollowed(p, max, x, n);
    if Accepts(s, max, op) {
      var at := Find(p, op.id);
      if at.Some? {
        PurgedIsSub(s, max, OpTime(op), p[at.value]);
      }
      RecordFollowed(p, max, x, n, op.id, op.nonce, op.clock.check, op.clock.record + op.ttl);
    }
  }

  /** The calls lo..hi may come between `x` and its duplicate: none of them
      accepts the id again. */
  ghost predicate Between(max: int, ops: seq<Op>, x: Item, since: real, lo: nat, hi: nat)
    requires max >= 1 && lo <= hi <= |ops|
  {
    forall k :: lo <= k < hi ==>
      && since <= OpTime(ops[k]) && EndTime(ops[k]) < x.expiry
      && (ops[k].Check? && ops[k].id == x.id ==> !Accepts(After([], max, ops, k), max, ops[k]))
  }

  lemma OneMoreStep(max: int, ops: seq<Op>, k: nat)
    requires max >= 1 && 1 <= k <= |ops|
    ensures After([], max, ops, k) == Step(After([], max, ops, k - 1), max, ops[k - 1])
  {
  }

  lemma {:induction false} RunFollowed(max: int, ops: seq<Op>, x: Item, ttl: real, since: real, lo: nat, hi: nat)
    requires max >= 1 && lo <= hi <= |ops| && Between(max, ops, x, since, lo, hi) && x.expiry == since + ttl
    requires Steady(ops, ttl) && Followed(After([], max, ops, lo), max, x, 0)
    ensures Followed(After([], max, ops, hi), max, x, Accepted(max, ops, lo, hi))
    decreases hi
  {
    hide Step, Accepts, Followed, Ticking, Unique, OpTime, EndTime, After;
    if lo < hi {
      RunFollowed(max, ops, x, ttl, since, lo, hi - 1);
      RunKeepsBound(max, ops, hi - 1);
      StepFollowed(After([], max, ops, hi - 1), max, x, Accepted(max, ops, lo, hi - 1), ops[hi - 1], ttl, since);
      OneMoreStep(max, ops, hi);
    }
  }

  lemma {:induction false} AboveNone(s: seq<Item>, bound: real)
    requires NoLater(s, bound)
    ensures Above(s, bound, false) == 0
    decreases |s|
  {
    if s != [] {
      AboveNone(s[..|s| - 1], bound);
    }
  }

  lemma {:induction false} AboveNoneAtAll(s: seq<Item>, latest: real, bound: real)
    requires NoLater(s, latest) && latest < bound
    ensures Above(s, bound, true) == 0
    decreases |s|
  {
    if s != [] {
      AboveNoneAtAll(s[..|s| - 1], latest, bound);
    }
  }

  lemma PartsNoLater(s: seq<Item>, i: nat, latest: real)
    requires i < |s| && NoLater(s, latest)
    ensures NoLater(s[..i], latest) && NoLater(s[i + 1..], latest)
  {
  }

  lemma LaterBound(s: seq<Item>, latest: real, later: real)
    requires NoLater(s, latest) && latest <= later
    ensures NoLater(s, later)
  {
  }

  lemma NothingAbove(bound: real)
    ensures Above([], bound, true) == 0
  {
  }

  /** What has just been recorded is outranked by nothing. */
  lemma RecordedIsFirst(p: seq<Item>, id: string, nonce: string, expiry: real, latest: real) returns (x: Item)
    requires NoLater(p, latest) && latest <= expiry && (Find(p, id).Some? ==> latest < expiry)
    ensures x.id == id && x.expiry == expiry && RankIs(Recorded(p, id, nonce, expiry), x, 0)
  {
    hide Find, Above, NoLater, Rank;
    var at := Find(p, id);
    if at.Some? {
      var i := at.value;
      x := Item(id, expiry, {nonce} + p[i].nonces);
      PartsNoLater(p, i, latest);
      LaterBound(p[..i], latest, expiry);
      AboveNone(p[..i], expiry);
      AboveNoneAtAll(p[i + 1..], latest, expiry);
      RankInMiddle(p[..i], x, p[i + 1..]);
      assert p[i := x] == p[..i] + [x] + p[i + 1..];
    } else {
      x := Item(id, expiry, {nonce});
      LaterBound(p, latest, expiry);
      AboveNone(p, expiry);
      RankInMiddle(p, x, []);
      NothingAbove(expiry);
      assert p + [x] == p + [x] + [];
    }
  }

  lemma FirstIsRecorded(s: seq<Item>, max: int, first: Op, ttl: real) returns (x: Item)
    requires max >= 1 && first.Check? && Ticking(first, ttl) && Accepts(s, max, first)
    requires NoLater(s, OpTime(first) + ttl)
    ensures x.id == first.id && x.expiry == EndTime(first) + ttl && RankIs(Step(s, max, first), x, 0)
  {
    hide Purged, Find, RankIs, NoLater;
    var p := Purged(s, max, OpTime(first));
    PurgeNoLater(s, max, OpTime(first), OpTime(first) + ttl);
    var at := Find(p, first.id);
    if at.Some? {
      PurgedIsSub(s, max, OpTime(first), p[at.value]);
    }
    x := RecordedIsFirst(p, first.id, first.nonce, first.clock.record + first.ttl, OpTime(first) + ttl);
  }

  lemma FindsNothing(s: seq<Item>, id: string)
    requires NoId(s, id)
    ensures Find(s, id).None?
  {
  }

  lemma LastCheck(s: seq<Item>, max: int, x: Item, n: nat, dup: Op)
    requires max >= 1 && Unique(s) && Followed(s, max, x, n)
    requires dup.Check? && dup.id == x.id && OpTime(dup) < x.expiry && dup.clock.check < x.expiry
    ensures Accepts(s, max, dup) <==> n >= max - 1
  {
    hide Purged, Unique, Find, RankIs;
    PurgeFollowed(s, max, x, n, OpTime(dup));
    PurgeKeepsUnique(s, max, OpTime(dup));
    var p := Purged(s, max, OpTime(dup));
    if n < max - 1 {
      RankedIsHeld(p, x, n);
      FindsIt(p, x);
    } else {
      FindsNothing(p, x.id);
    }
  }

  lemma NothingLaterBefore(max: int, ops: seq<Op>, ttl: real, k: nat)
    requires max >= 1 && k < |ops| && Steady(ops, ttl)
    ensures NoLater(After([], max, ops, k), OpTime(ops[k]) + ttl)
  {
    hide Step;
    if k > 0 {
      RunNoLater(max, ops, ttl, k);
      assert EndTime(ops[k - 1]) <= OpTime(ops[k]);
    }
  }

  /** In a run with one ttl and a clock that never goes back, every duplicate
      `ops[d]` of an accepted message `ops[f]` that is looked up before its expiry
      and before the id was accepted again passes as new exactly when at least
      `max - 1` messages were accepted in between. */
  lemma WindowIsExact(max: int, ops: seq<Op>, ttl: real, f: nat, d: nat)
    requires max >= 1 && f < d < |ops| && Steady(ops, ttl)
    requires ops[f].Check? && ops[d].Check? && ops[d].id == ops[f].id
    requires Accepts(After([], max, ops, f), max, ops[f])
    requires ops[d].clock.check < ops[f].clock.record + ttl
    requires forall k :: f < k < d && ops[k].Check? && ops[k].id == ops[f].id ==>
               !Accepts(After([], max, ops, k), max, ops[k])
    ensures Accepts(After([], max, ops, d), max, ops[d]) <==> Accepted(max, ops, f + 1, d) >= max - 1
  {
    hide Step, Accepts, Unique, NoLater, RankIs, After;
    assert Ticking(ops[f], ttl) && Ticking(ops[d], ttl);
    NothingLaterBefore(max, ops, ttl, f);
    var x := FirstIsRecorded(After([], max, ops, f), max, ops[f], ttl);
    OneMoreStep(max, ops, f + 1);
    RunFollowed(max, ops, x, ttl, EndTime(ops[f]), f + 1, d);
    RunKeepsBound(max, ops, d);
    LastCheck(After([], max, ops, d), max, x, Accepted(max, ops, f + 1, d), ops[d]);
  }

  /** A cache of one entry refuses nothing: each check evicts what it holds. */
  lemma SingleEntryRefusesNothing(s: seq<Item>, op: Op)
    requires op.Check?
    ensures Accepts(s, 1, op)
  {
    assert Purged(s, 1, OpTime(op)) == [];
  }

  // ----- the cache -----

  class DedupCache {
    const maxEntries: int
    const defaultTtl: real
    var items: seq<Item>
    var hits: nat
    var misses: nat
    var evictions: nat
    var replays: nat

    /** Every accepted message is still held, was evicted, or was recorded again. */
    ghost predicate Valid()
      reads this
    {
      && Unique(items)
      && (maxEntries >= 1 ==> |items| <= maxEntries)
      && hits == replays
      && |items| + evictions <= misses
    }

    constructor (maxEntries: int, defaultTtl: real)
      ensures Valid() && items == [] && this.maxEntries == maxEntries && this.defaultTtl == defaultTtl
    {
      this.maxEntries := maxEntries;
      this.defaultTtl := defaultTtl;
      items := [];
      hits, misses, evictions, replays := 0, 0, 0, 0;
    }

    /** Deletes the expired entries. */
    method DropExpired(now: real)
      modifies this`items, this`evictions
      ensures items == Live(old(items), now)
      ensures evictions + |items| == old(evictions) + |old(items)|
    {
      var kept: seq<Item> := [];
      ghost var before := items;
      var i := 0;
      while i < |items|
        invariant 0 <= i <= |items| && items == before
        invariant kept == Live(items[..i], now)
        invariant evictions + |kept| == old(evictions) + i
      {
        assert items[..i + 1][..i] == items[..i];
        if items[i].expiry > now {
          kept := kept + [items[i]];
        } else {
          evictions := evictions + 1;
        }
        i := i + 1;
      }
      assert items[..i] == items;
      items := kept;
    }

    /** `_purge`. With a bound below one the loop empties the cache and then
        asks for the minimum of nothing, which raises. */
    method Purge(now: real) returns (raised: bool)
      modifies this`items, this`evictions
      ensures raised <==> maxEntries < 1
      ensures raised ==> items == []
      ensures !raised ==> items == Purged(old(items), maxEntries, now)
      ensures evictions + |items| == old(evictions) + |old(items)|
    {
      hide Oldest, Live;
      DropExpired(now);
      ghost var live := items;
      while |items| >= maxEntries
        invariant maxEntries >= 1 ==> Trimmed(items, maxEntries) == Trimmed(live, maxEntries)
        invariant evictions + |items| == old(evictions) + |old(items)|
        decreases |items|
      {
        if items == [] {
          return true;
        }
        items := Without(items, Oldest(items));
        evictions := evictions + 1;
      }
      raised := false;
    }

    /** `check_and_record` */
    method CheckAndRecord(id: string, nonce: string, ttl: Option<real>, clock: Clock) returns (raised: bool, accepted: bool)
      requires Valid()
      modifies this`items, this`hits, this`misses, this`evictions, this`replays
      ensures Valid()
      ensures raised <==> maxEntries < 1
      ensures raised ==> items == [] && hits == old(hits) && misses == old(misses)
      ensures !raised ==>
                var op := Check(id, nonce, if ttl.Some? then ttl.value else defaultTtl, clock);
                && items == Step(old(items), maxEntries, op)
                && (accepted <==> Accepts(old(items), maxEntries, op))
                && misses == old(misses) + (if accepted then 1 else 0)
                && hits == old(hits) + (if accepted then 0 else 1)
    {
      hide Find, Purged, Unique;
      accepted := false;
      raised := Purge(clock.purge);
      if raised {
        EmptyUnique();
        return;
      }
      StepKeepsBound(old(items), maxEntries,
                     Check(id, nonce, if ttl.Some? then ttl.value else defaultTtl, clock));
      PurgeKeepsUnique(old(items), maxEntries, clock.purge);
      var at := Find(items, id);
      if at.Some? && (nonce in items[at.value].nonces || clock.check < items[at.value].expiry) {
        hits := hits + 1;
        replays := replays + 1;
        return;
      }
      var life := if ttl.Some? then ttl.value else defaultTtl;
      items := Recorded(items, id, nonce, clock.record + life);
      misses := misses + 1;
      accepted := true;
    }

    /** `seen` */
    method Seen(id: string, now: real) returns (raised: bool, held: bool)
      requires Valid()
      modifies this`items, this`evictions
      ensures Valid()
      ensures raised <==> maxEntries < 1
      ensures !raised ==> items == Step(old(items), maxEntries, Look(id, now))
      ensures !raised ==> (held <==> exists x :: x in items && x.id == id)
    {
      hide Find, Purged, Unique;
      held := false;
      raised := Purge(now);
      if raised {
        EmptyUnique();
        return;
      }
      PurgeKeepsUnique(old(items), maxEntries, now);
      held := Find(items, id).Some?;
    }
  }
}
