/** How the CPU hasher (`mods/mining_engine/stratum_cpu.py`) shares the nonces
    among its processes, and how it counts hashes.

    Worker `tid` of `T` starts at nonce `tid` and steps by `T` modulo 2^32. Under
    every interleaving in which each worker has had `k` turns, the nonces tried
    are exactly 0..k*T-1, each once, if `k*T <= 2^32` (`CoveredExactly`), and
    no longer distinct as soon as `k*T > 2^32` (`DistinctExactlyWhen`). The
    shared counter misses only what the workers still hold back
    (`CounterIsExact`). */
module Nonces {
  const WORD := 0x1_0000_0000
  const FLUSH := 4096

  /** `n & 0xFFFFFFFF` of a number that is not negative. */
  function Masked(n: nat): nat {
    n % WORD
  }

  /** The nonce a worker tries at its turn `j`. */
  function Nth(tid: nat, step: nat, j: nat): nat {
    (tid + j * step) % WORD
  }

  lemma MaskedStep(tid: nat, step: nat, j: nat)
    ensures Masked(Nth(tid, step, j) + step) == Nth(tid, step, j + 1)
  {
    var a := tid + j * step;
    assert tid + (j + 1) * step == a + step;
  }

  // ----- one process -----

  class Counter {
    var value: nat

    constructor ()
      ensures value == 0
    {
      value := 0;
    }
  }

  /** `_hash_process`, stopped after `turns` rounds of its loop. */
  method HashProcess(tid: nat, step: nat, turns: nat, counter: Counter) returns (tried: seq<nat>, local: nat)
    modifies counter
    ensures |tried| == turns && forall j: nat :: j < turns ==> tried[j] == Nth(tid, step, j)
    ensures local == turns % 4096 && counter.value + local == old(counter.value) + turns
  {
    var nonce := Masked(tid);
    tried, local := [], 0;
    while |tried| < turns
      invariant |tried| <= turns && nonce == Nth(tid, step, |tried|)
      invariant forall j: nat :: j < |tried| ==> tried[j] == Nth(tid, step, j)
      invariant local == |tried| % FLUSH && counter.value + local == old(counter.value) + |tried|
    {
      MaskedStep(tid, step, |tried|);
      tried := tried + [nonce];
      nonce := Masked(nonce + step);
      local := local + 1;
      if local >= FLUSH {
        counter.value := counter.value + local;
        local := 0;
      }
    }
  }

  // ----- all processes, interleaved -----

  datatype Worker = Worker(nonce: nat, local: nat, tried: seq<nat>)

  datatype Farm = Farm(workers: seq<Worker>, counter: nat)

  /** The workers as they start: worker `i` of `threads` gets tid `i`. */
  function Spawned(threads: nat): Farm {
    Farm(seq(threads, i requires 0 <= i => Worker(Masked(i), 0, [])), 0)
  }

  /** The loop of `_spawn_workers`. */
  method SpawnWorkers(threads: nat) returns (workers: seq<Worker>)
    ensures workers == Spawned(threads).workers
  {
    workers := [];
    for i := 0 to threads
      invariant workers == Spawned(i).workers
    {
      workers := workers + [Worker(Masked(i), 0, [])];
    }
  }

  /** One round of the loop of worker `i` of `threads`. */
  function Turn(f: Farm, threads: nat, i: nat): Farm
    requires i < |f.workers|
  {
    var w := f.workers[i];
    var nonce, tried, local := Masked(w.nonce + threads), w.tried + [w.nonce], w.local + 1;
    if local >= FLUSH then Farm(f.workers[i := Worker(nonce, 0, tried)], f.counter + local)
    else Farm(f.workers[i := Worker(nonce, local, tried)], f.counter)
  }

  /** Only existing workers take turns. */
  predicate Within(schedule: seq<nat>, threads: nat) {
    forall k :: 0 <= k < |schedule| ==> schedule[k] < threads
  }

  function RunFarm(threads: nat, schedule: seq<nat>): (f: Farm)
    requires Within(schedule, threads)
    ensures |f.workers| == threads
    decreases |schedule|
  {
    if schedule == [] then Spawned(threads)
    else
      Turn(RunFarm(threads, schedule[..|schedule| - 1]), threads, schedule[|schedule| - 1])
  }

  /** The state of worker `i` after `n` turns, however they were interleaved. */
  ghost predicate HasTried(w: Worker, i: nat, threads: nat, n: nat) {
    && w.nonce == Nth(i, threads, n)
    && |w.tried| == n
    && w.local == n % 4096
    && forall j: nat :: j < n ==> w.tried[j] == Nth(i, threads, j)
  }

  function Turns(schedule: seq<nat>, i: nat): nat {
    multiset(schedule)[i]
  }

  lemma TurnOfOne(w: Worker, w': Worker, i: nat, threads: nat, n: nat)
    requires HasTried(w, i, threads, n)
    requires w'.nonce == Masked(w.nonce + threads) && w'.tried == w.tried + [w.nonce]
    requires w'.local == if w.local + 1 >= 4096 then 0 else w.local + 1
    ensures HasTried(w', i, threads, n + 1)
  {
    hide Nth, Masked;
    MaskedStep(i, threads, n);
  }

  lemma FreshWorker(i: nat, threads: nat)
    ensures HasTried(Worker(Masked(i), 0, []), i, threads, 0)
  {
  }

  lemma LocalIsSmall(w: Worker, i: nat, threads: nat, n: nat)
    requires HasTried(w, i, threads, n)
    ensures w.local < FLUSH
  {
  }

  /** Whatever the schedule, each worker tries its own sequence of nonces. */
  lemma {:induction false} EveryScheduleTries(threads: nat, schedule: seq<nat>, i: nat)
    requires i < threads && Within(schedule, threads)
    ensures HasTried(RunFarm(threads, schedule).workers[i], i, threads, Turns(schedule, i))
    decreases |schedule|
  {
    hide HasTried;
    if schedule == [] {
      FreshWorker(i, threads);
    } else {
      var init, last := schedule[..|schedule| - 1], schedule[|schedule| - 1];
      assert schedule == init + [last];
      EveryScheduleTries(threads, init, i);
      var before := RunFarm(threads, init);
      if last == i {
        LocalIsSmall(before.workers[i], i, threads, Turns(init, i));
        TurnOfOne(before.workers[i], Turn(before, threads, i).workers[i], i, threads, Turns(init, i));
      }
    }
  }

  // ----- the partition -----

  lemma MulMonotone(a: nat, b: nat, t: nat)
    requires a <= b
    ensures a * t <= b * t
  {
    assert b * t == a * t + (b - a) * t;
  }

  /** Before the counter wraps, turn `j` of worker `i` tries `i + j*T`. */
  lemma NoWrap(i: nat, j: nat, threads: nat, k: nat)
    requires i < threads && j < k && k * threads <= WORD
    ensures Nth(i, threads, j) == i + j * threads < k * threads
  {
    MulMonotone(j + 1, k, threads);
    assert (j + 1) * threads == j * threads + threads;
  }

  /** Worker and turn at which nonce `n` is due. */
  lemma DueAt(n: nat, threads: nat, k: nat)
    requires threads >= 1 && n < k * threads
    ensures n % threads < threads && n / threads < k && n % threads + (n / threads) * threads == n
  {
    if n / threads >= k {
      MulMonotone(k, n / threads, threads);
    }
  }

  lemma EarlierIsBelow(i: nat, j: nat, i': nat, j': nat, threads: nat)
    requires i < threads && j < j'
    ensures i + j * threads < i' + j' * threads
  {
    MulMonotone(j + 1, j', threads);
    assert (j + 1) * threads == j * threads + threads;
  }

  lemma SplitIsUnique(i: nat, j: nat, i': nat, j': nat, threads: nat)
    requires i < threads && i' < threads && i + j * threads == i' + j' * threads
    ensures i == i' && j == j'
  {
    if j < j' {
      EarlierIsBelow(i, j, i', j', threads);
    } else if j' < j {
      EarlierIsBelow(i', j', i, j, threads);
    }
  }

  ghost predicate EachHadTurns(schedule: seq<nat>, threads: nat, k: nat) {
    && Within(schedule, threads)
    && forall i: nat :: i < threads ==> Turns(schedule, i) == k
  }

  ghost predicate TriedAt(f: Farm, i: nat, j: nat, n: nat) {
    i < |f.workers| && j < |f.workers[i].tried| && f.workers[i].tried[j] == n
  }

  /** What one worker has tried after its `k` turns. */
  lemma TriesOf(threads: nat, schedule: seq<nat>, k: nat, i: nat)
    requires EachHadTurns(schedule, threads, k) && i < threads && k * threads <= WORD
    ensures var tried := RunFarm(threads, schedule).workers[i].tried;
            |tried| == k && forall j: nat :: j < k ==> tried[j] == i + j * threads < k * threads
  {
    hide RunFarm, Nth;
    EveryScheduleTries(threads, schedule, i);
    forall j: nat | j < k
      ensures Nth(i, threads, j) == i + j * threads < k * threads
    {
      NoWrap(i, j, threads, k);
    }
  }

  lemma TriedOnlyThere(threads: nat, schedule: seq<nat>, k: nat, i: nat, j: nat, n: nat)
    requires threads >= 1 && EachHadTurns(schedule, threads, k) && k * threads <= WORD
    requires TriedAt(RunFarm(threads, schedule), i, j, n)
    ensures i < threads && j < k && n == i + j * threads < k * threads
  {
    hide RunFarm;
    TriesOf(threads, schedule, k, i);
  }

  lemma TriedWhenDue(threads: nat, schedule: seq<nat>, k: nat, n: nat)
    requires threads >= 1 && EachHadTurns(schedule, threads, k) && n < k * threads <= WORD
    ensures TriedAt(RunFarm(threads, schedule), n % threads, n / threads, n)
  {
    hide RunFarm;
    DueAt(n, threads, k);
    TriesOf(threads, schedule, k, n % threads);
  }

  /** When every worker has had `k` turns and `k*T <= 2^32`, the nonces tried
      are exactly 0..k*T-1, each by one worker at one turn. */
  lemma CoveredExactly(threads: nat, schedule: seq<nat>, k: nat, n: nat)
    requires threads >= 1 && EachHadTurns(schedule, threads, k) && k * threads <= WORD
    ensures var f := RunFarm(threads, schedule);
            && (n < k * threads <==> exists i: nat, j: nat :: TriedAt(f, i, j, n))
            && forall i: nat, j: nat, i': nat, j': nat ::
                 TriedAt(f, i, j, n) && TriedAt(f, i', j', n) ==> i == i' && j == j'
  {
    hide RunFarm, TriedAt;
    var f := RunFarm(threads, schedule);
    if n < k * threads {
      TriedWhenDue(threads, schedule, k, n);
      assert TriedAt(f, n % threads, n / threads, n);
    }
    forall i: nat, j: nat | TriedAt(f, i, j, n)
      ensures i < threads && n == i + j * threads < k * threads
    {
      TriedOnlyThere(threads, schedule, k, i, j, n);
    }
    forall i: nat, j: nat, i': nat, j': nat | TriedAt(f, i, j, n) && TriedAt(f, i', j', n)
      ensures i == i' && j == j'
    {
      SplitIsUnique(i, j, i', j', threads);
    }
  }

  ghost predicate AllDistinct(threads: nat, k: nat) {
    forall i: nat, j: nat, i': nat, j': nat ::
      i < threads && i' < threads && j < k && j' < k && Nth(i, threads, j) == Nth(i', threads, j')
      ==> i == i' && j == j'
  }

  lemma WrapsToZero(threads: nat, k: nat)
    requires threads >= 1 && k * threads > WORD
    ensures var i, j := WORD % threads, WORD / threads;
            i < threads && 0 < k && j < k && (i, j) != (0, 0) && Nth(i, threads, j) == Nth(0, threads, 0)
  {
    DueAt(WORD, threads, k);
  }

  /** `k` turns of each of `T` workers repeat no nonce exactly when `k*T` does not
      exceed the number of nonces. */
  lemma DistinctExactlyWhen(threads: nat, k: nat)
    requires threads >= 1
    ensures AllDistinct(threads, k) <==> k * threads <= WORD
  {
    hide Nth;
    if k * threads <= WORD {
      forall i: nat, j: nat, i': nat, j': nat |
        i < threads && i' < threads && j < k && j' < k && Nth(i, threads, j) == Nth(i', threads, j')
        ensures i == i' && j == j'
      {
        NoWrap(i, j, threads, k);
        NoWrap(i', j', threads, k);
        SplitIsUnique(i, j, i', j', threads);
      }
    } else {
      WrapsToZero(threads, k);
    }
  }

  // ----- the hash counter -----

  function Held(workers: seq<Worker>): nat
    decreases |workers|
  {
    if workers == [] then 0 else Held(workers[..|workers| - 1]) + workers[|workers| - 1].local
  }

  lemma {:induction false} HeldUpdated(workers: seq<Worker>, i: nat, w: Worker)
    requires i < |workers|
    ensures Held(workers[i := w]) == Held(workers) - workers[i].local + w.local
    decreases |workers|
  {
    var last := |workers| - 1;
    if i == last {
      assert workers[i := w][..last] == workers[..last];
    } else {
      HeldUpdated(workers[..last], i, w);
      assert workers[i := w][..last] == workers[..last][i := w];
    }
  }

  lemma {:induction false} NothingHeld(workers: seq<Worker>)
    requires forall i :: 0 <= i < |workers| ==> workers[i].local == 0
    ensures Held(workers) == 0
    decreases |workers|
  {
    if workers != [] {
      NothingHeld(workers[..|workers| - 1]);
    }
  }

  lemma {:induction false} HeldIsBounded(workers: seq<Worker>)
    requires forall i :: 0 <= i < |workers| ==> workers[i].local < FLUSH
    ensures Held(workers) <= |workers| * (FLUSH - 1)
    decreases |workers|
  {
    if workers != [] {
      HeldIsBounded(workers[..|workers| - 1]);
    }
  }

  /** Under every schedule the shared counter and what the workers hold back
      add up to the hashes made. */
  lemma {:induction false} NothingUncounted(threads: nat, schedule: seq<nat>)
    requires Within(schedule, threads)
    ensures var f := RunFarm(threads, schedule); f.counter + Held(f.workers) == |schedule|
    decreases |schedule|
  {
    if schedule == [] {
      NothingHeld(Spawned(threads).workers);
    } else {
      var init, last := schedule[..|schedule| - 1], schedule[|schedule| - 1];
      NothingUncounted(threads, init);
      var before := RunFarm(threads, init);
      HeldUpdated(before.workers, last, Turn(before, threads, last).workers[last]);
    }
  }

  /** The shared counter is behind by at most 4095 hashes per worker. */
  lemma CounterIsExact(threads: nat, schedule: seq<nat>)
    requires Within(schedule, threads)
    ensures var f := RunFarm(threads, schedule);
            |schedule| - threads * (FLUSH - 1) <= f.counter <= |schedule|
  {
    hide RunFarm;
    NothingUncounted(threads, schedule);
    var f := RunFarm(threads, schedule);
    forall i | 0 <= i < threads
      ensures f.workers[i].local < FLUSH
    {
      EveryScheduleTries(threads, schedule, i);
    }
    HeldIsBounded(f.workers);
  }
}
