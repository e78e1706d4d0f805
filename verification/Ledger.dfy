/** The value ledger (`mods/bvl/ledger_service.py`, `mods/bvl/ledger.py`) in
    exact arithmetic.

    Main results: every run keeps the supply equal to the sum of all balances
    and all balances non-negative exactly when the transfer fee is not negative
    (`RunKeepsInv`, `RunConservesExactlyWhen`); the entry list of a run then
    replays to its balances; and a reward is refused as already claimed exactly
    when one was paid under the same key (`RewardPaidExactlyWhen`), which two
    nodes share exactly when one id continues the other with a colon that no white
    space follows (`NodesClashExactlyWhen`). */
module Ledger {
  import opened Options
  import opened Strings

  const MAX_TRANSFER: real := 1000000.0
  const MAX_ITEMS := 2000

  datatype Reason = SeedHold | Attest | Uptime

  function ReasonText(r: Reason): string {
    match r
    case SeedHold => "seed_hold"
    case Attest => "attest"
    case Uptime => "uptime"
  }

  datatype Entry =
    | Mint(to: string, amount: real, reason: Reason, asset: string, balanceAfter: real, supplyAfter: real)
    | Burn(from: string, amount: real, balanceAfter: real, supplyAfter: real)
    | Transfer(from: string, to: string, amount: real, fee: real, supplyAfter: real)
    | Settle(node: string, amount: real)

  /** `entries` is the bounded list that is stored; `history`, which is not
      stored, is every entry ever appended. */
  datatype LedgerState = LedgerState(
    balances: map<string, real>, supply: real, entries: seq<Entry>, claims: set<string>, history: seq<Entry>)
  {
    function Balance(node: string): real {
      if node in balances then balances[node] else 0.0
    }
  }

  const EMPTY := LedgerState(map[], 0.0, [], {}, [])

  // ----- the operations -----

  function Last<T>(xs: seq<T>, n: nat): (r: seq<T>) {
    if |xs| <= n then xs else xs[|xs| - n..]
  }

  /** `BVLLedger.append` */
  function Appended(st: LedgerState, e: Entry): LedgerState {
    st.(entries := Last(st.entries + [e], MAX_ITEMS), history := st.history + [e])
  }

  function Max(a: real, b: real): real {
    if a >= b then a else b
  }

  /** `_credit` */
  function Credited(st: LedgerState, node: string, amount: real, reason: Reason, asset: string): LedgerState {
    if amount <= 0.0 then st
    else
      var bal := st.Balance(node) + amount;
      var supply := st.supply + amount;
      Appended(st.(balances := st.balances[node := bal], supply := supply),
               Mint(node, amount, reason, asset, bal, supply))
  }

  /** The parts with a colon between them. */
  function Joined(parts: seq<string>): string {
    if parts == [] then "" else if |parts| == 1 then parts[0] else parts[0] + ":" + Joined(parts[1..])
  }

  function ClaimKey(reason: Reason, node: string, asset: string): string {
    Joined(["bvl", "claim", ReasonText(reason), node, asset])
  }

  predicate Payable(st: LedgerState, reason: Reason, node: string, asset: string, amount: real) {
    asset != "" && ClaimKey(reason, node, asset) !in st.claims && amount > 0.0
  }

  /** What a reward is claimed for: the asset without white space around it.  An
      uptime reward that names nothing is claimed for the hour. */
  function Claimed(reason: Reason, asset: string, now: nat): string {
    var name := Strip(asset);
    if reason == Uptime && name == "" then "tick-" + Decimal(now / 3600) else name
  }

  /** `reward_seed`, `reward_attest`, `reward_uptime`, for the asset claimed. */
  function Rewarded(st: LedgerState, reason: Reason, node: string, asset: string, amount: real): LedgerState {
    if !Payable(st, reason, node, asset, amount) then st
    else
      var paid := Credited(st, node, amount, reason, asset);
      paid.(claims := paid.claims + {ClaimKey(reason, node, asset)})
  }

  predicate CanTransfer(st: LedgerState, from: string, to: string, amount: real, fee: real) {
    to != "" && to != from && 0.0 < amount <= MAX_TRANSFER && st.Balance(from) >= amount + fee
  }

  /** `transfer` */
  function Transferred(st: LedgerState, from: string, to: string, amount: real, fee: real): LedgerState {
    if !CanTransfer(st, from, to, amount, fee) then st
    else
      var debited := st.(balances := st.balances[from := st.Balance(from) - (amount + fee)]);
      var credited := debited.(balances := debited.balances[to := debited.Balance(to) + amount]);
      var supply := if fee > 0.0 then Max(0.0, st.supply - fee) else st.supply;
      Appended(credited.(supply := supply), Transfer(from, to, amount, fee, supply))
  }

  predicate CanBurn(st: LedgerState, node: string, amount: real) {
    amount > 0.0 && st.Balance(node) >= amount
  }

  /** `_debit` */
  function Burned(st: LedgerState, node: string, amount: real): LedgerState {
    if !CanBurn(st, node, amount) then st
    else
      var bal := st.Balance(node) - amount;
      var supply := Max(0.0, st.supply - amount);
      Appended(st.(balances := st.balances[node := bal], supply := supply), Burn(node, amount, bal, supply))
  }

  /** `settle_to_sats`, without the tip it requests. */
  function Settled(st: LedgerState, node: string, amount: real): LedgerState {
    if CanBurn(st, node, amount) then Appended(Burned(st, node, amount), Settle(node, amount)) else st
  }

  datatype Step =
    | RewardStep(reason: Reason, node: string, asset: string, now: nat, amount: real)
    | TransferStep(from: string, to: string, amount: real)
    | SettleStep(node: string, amount: real)

  function Next(st: LedgerState, fee: real, step: Step): LedgerState {
    match step
    case RewardStep(reason, node, asset, now, amount) => Rewarded(st, reason, node, Claimed(reason, asset, now), amount)
    case TransferStep(from, to, amount) => Transferred(st, from, Strip(to), amount, fee)
    case SettleStep(node, amount) => Settled(st, node, amount)
  }

  function Run(fee: real, steps: seq<Step>): LedgerState
    decreases |steps|
  {
    if steps == [] then EMPTY else Next(Run(fee, steps[..|steps| - 1]), fee, steps[|steps| - 1])
  }

  // ----- the sum of all balances -----

  ghost function Sum(m: map<string, real>): real {
    if m == map[] then 0.0
    else
      var k :| k in m;
      m[k] + Sum(m - {k})
  }

  lemma {:induction false} SumWithout(m: map<string, real>, k: string)
    requires k in m
    ensures Sum(m) == m[k] + Sum(m - {k})
    decreases |m|
  {
    var j :| j in m && Sum(m) == m[j] + Sum(m - {j});
    if j != k {
      SumWithout(m - {j}, k);
      SumWithout(m - {k}, j);
      assert m - {j} - {k} == m - {k} - {j};
    }
  }

  lemma SumUpdated(m: map<string, real>, k: string, v: real)
    ensures Sum(m[k := v]) == Sum(m) - (if k in m then m[k] else 0.0) + v
  {
    SumWithout(m[k := v], k);
    assert m[k := v] - {k} == m - {k};
    if k in m {
      SumWithout(m, k);
    } else {
      assert m - {k} == m;
    }
  }

  lemma {:induction false} SumNotNegative(m: map<string, real>)
    requires forall j :: j in m ==> m[j] >= 0.0
    ensures Sum(m) >= 0.0
    decreases |m|
  {
    if m != map[] {
      var k :| k in m && Sum(m) == m[k] + Sum(m - {k});
      SumNotNegative(m - {k});
    }
  }

  /** No balance exceeds the sum. */
  lemma {:induction false} BalanceWithinSum(m: map<string, real>, k: string)
    requires k in m && forall j :: j in m ==> m[j] >= 0.0
    ensures 0.0 <= m[k] <= Sum(m)
  {
    SumWithout(m, k);
    SumNotNegative(m - {k});
  }

  // ----- conservation -----

  ghost predicate MoneyInv(st: LedgerState) {
    && st.supply == Sum(st.balances)
    && forall n :: n in st.balances ==> st.balances[n] >= 0.0
  }

  lemma CreditKeepsMoney(st: LedgerState, node: string, amount: real, reason: Reason, asset: string)
    requires MoneyInv(st)
    ensures MoneyInv(Credited(st, node, amount, reason, asset))
  {
    hide Sum;
    SumUpdated(st.balances, node, st.Balance(node) + amount);
  }

  lemma BurnKeepsMoney(st: LedgerState, node: string, amount: real)
    requires MoneyInv(st)
    ensures MoneyInv(Burned(st, node, amount))
  {
    hide Sum;
    if CanBurn(st, node, amount) {
      SumUpdated(st.balances, node, st.Balance(node) - amount);
      BalanceWithinSum(st.balances, node);
    }
  }

  /** What a transfer does to the sum and to the supply. */
  lemma TransferAccounts(st: LedgerState, from: string, to: string, amount: real, fee: real)
    requires MoneyInv(st) && CanTransfer(st, from, to, amount, fee)
    ensures var r := Transferred(st, from, to, amount, fee);
            && Sum(r.balances) == Sum(st.balances) - fee
            && (forall n :: n in r.balances ==> r.balances[n] >= 0.0)
            && r.supply == (if fee > 0.0 then st.supply - fee else st.supply)
  {
    hide Sum;
    var mid := st.balances[from := st.Balance(from) - (amount + fee)];
    SumUpdated(st.balances, from, st.Balance(from) - (amount + fee));
    SumUpdated(mid, to, (if to in mid then mid[to] else 0.0) + amount);
    if from in st.balances {
      BalanceWithinSum(st.balances, from);
    }
    SumNotNegative(st.balances);
  }

  /** A transfer keeps supply and balances together exactly when it is refused
      or the fee is not negative. */
  lemma ConservedExactlyWhen(st: LedgerState, from: string, to: string, amount: real, fee: real)
    requires MoneyInv(st)
    ensures MoneyInv(Transferred(st, from, to, amount, fee)) <==> !CanTransfer(st, from, to, amount, fee) || fee >= 0.0
  {
    hide Sum;
    if CanTransfer(st, from, to, amount, fee) {
      TransferAccounts(st, from, to, amount, fee);
    }
  }

  // ----- the entry list -----

  function Of(m: map<string, real>, node: string): real {
    if node in m then m[node] else 0.0
  }

  /** Balances and supply rebuilt from entries alone. */
  function Replay(entries: seq<Entry>): (r: (map<string, real>, real))
    decreases |entries|
  {
    if entries == [] then (map[], 0.0)
    else
      var (m, s) := Replay(entries[..|entries| - 1]);
      match entries[|entries| - 1]
      case Mint(to, amount, _, _, _, _) => (m[to := Of(m, to) + amount], s + amount)
      case Burn(from, amount, _, _) => (m[from := Of(m, from) - amount], s - amount)
      case Transfer(from, to, amount, fee, _) =>
        var mid := m[from := Of(m, from) - amount - fee];
        (mid[to := Of(mid, to) + amount], s - fee)
      case Settle(_, _) => (m, s)
  }

  /** The stored list is the end of the history, and the history replays to the
      balances and the supply. */
  ghost predicate EntriesInv(st: LedgerState) {
    && st.entries == Last(st.history, MAX_ITEMS)
    && Replay(st.history) == (st.balances, st.supply)
  }

  lemma AppendedEntries(st: LedgerState, e: Entry)
    requires st.entries == Last(st.history, MAX_ITEMS)
    ensures Appended(st, e).entries == Last(Appended(st, e).history, MAX_ITEMS)
    ensures Appended(st, e).history[..|st.history|] == st.history
  {
  }

  lemma CreditKeepsEntries(st: LedgerState, node: string, amount: real, reason: Reason, asset: string)
    requires EntriesInv(st)
    ensures EntriesInv(Credited(st, node, amount, reason, asset))
  {
    if amount > 0.0 {
      var r := Credited(st, node, amount, reason, asset);
      AppendedEntries(st, r.history[|st.history|]);
    }
  }

  lemma BurnKeepsEntries(st: LedgerState, node: string, amount: real)
    requires EntriesInv(st) && MoneyInv(st)
    ensures EntriesInv(Burned(st, node, amount))
  {
    hide Sum;
    if CanBurn(st, node, amount) {
      BalanceWithinSum(st.balances, node);
      var r := Burned(st, node, amount);
      AppendedEntries(st, r.history[|st.history|]);
    }
  }

  lemma TransferKeepsEntries(st: LedgerState, from: string, to: string, amount: real, fee: real)
    requires EntriesInv(st) && MoneyInv(st) && fee >= 0.0
    ensures EntriesInv(Transferred(st, from, to, amount, fee))
  {
    hide Sum;
    if CanTransfer(st, from, to, amount, fee) {
      TransferAccounts(st, from, to, amount, fee);
      var r := Transferred(st, from, to, amount, fee);
      AppendedEntries(st, r.history[|st.history|]);
    }
  }

  // ----- claims -----

  function PaidKey(e: Entry): string
    requires e.Mint?
  {
    ClaimKey(e.reason, e.to, e.asset)
  }

  /** The claims are the keys of the payments made, each made once. */
  ghost predicate ClaimsInv(st: LedgerState) {
    && (forall i :: 0 <= i < |st.history| && st.history[i].Mint? ==> PaidKey(st.history[i]) in st.claims)
    && (forall key :: key in st.claims ==>
         exists i :: 0 <= i < |st.history| && st.history[i].Mint? && PaidKey(st.history[i]) == key)
    && (forall i, j :: 0 <= i < j < |st.history| && st.history[i].Mint? && st.history[j].Mint? ==>
         PaidKey(st.history[i]) != PaidKey(st.history[j]))
  }

  lemma AppendKeepsClaims(st: LedgerState, r: LedgerState, e: Entry)
    requires ClaimsInv(st) && r.history == st.history + [e]
    requires if e.Mint? then PaidKey(e) !in st.claims && r.claims == st.claims + {PaidKey(e)} else r.claims == st.claims
    ensures ClaimsInv(r)
  {
    hide PaidKey;
    assert forall i :: 0 <= i < |st.history| ==> r.history[i] == st.history[i];
    assert r.history[|st.history|] == e;
    forall key | key in r.claims
      ensures exists i :: 0 <= i < |r.history| && r.history[i].Mint? && PaidKey(r.history[i]) == key
    {
      if key in st.claims {
        var i :| 0 <= i < |st.history| && st.history[i].Mint? && PaidKey(st.history[i]) == key;
        assert r.history[i].Mint? && PaidKey(r.history[i]) == key;
      }
    }
  }

  // ----- the accounts, while the fee is not negative -----

  /** Supply, balances and entries agree. */
  ghost predicate AccountsInv(st: LedgerState) {
    MoneyInv(st) && EntriesInv(st)
  }

  lemma CreditKeepsAccounts(st: LedgerState, node: string, amount: real, reason: Reason, asset: string, claims: set<string>)
    requires AccountsInv(st)
    ensures AccountsInv(Credited(st, node, amount, reason, asset).(claims := claims))
  {
    hide Sum, Replay, Credited;
    CreditKeepsMoney(st, node, amount, reason, asset);
    CreditKeepsEntries(st, node, amount, reason, asset);
  }

  lemma TransferKeepsAccounts(st: LedgerState, from: string, to: string, amount: real, fee: real)
    requires AccountsInv(st) && fee >= 0.0
    ensures AccountsInv(Transferred(st, from, to, amount, fee))
  {
    hide MoneyInv, EntriesInv, Transferred;
    ConservedExactlyWhen(st, from, to, amount, fee);
    TransferKeepsEntries(st, from, to, amount, fee);
  }

  lemma BurnKeepsAccounts(st: LedgerState, node: string, amount: real)
    requires AccountsInv(st)
    ensures AccountsInv(Burned(st, node, amount))
  {
    hide MoneyInv, EntriesInv, Burned;
    BurnKeepsMoney(st, node, amount);
    BurnKeepsEntries(st, node, amount);
  }

  /** The settlement entry moves no money. */
  lemma NoteKeepsAccounts(st: LedgerState, node: string, amount: real)
    requires AccountsInv(st)
    ensures AccountsInv(Appended(st, Settle(node, amount)))
  {
    hide Sum;
    AppendedEntries(st, Settle(node, amount));
  }

  // ----- the books, under any fee -----

  /** What holds whatever the fee is, and what holds besides when it is not
      negative. */
  ghost predicate BooksInv(fee: real, st: LedgerState) {
    && ClaimsInv(st)
    && st.entries == Last(st.history, MAX_ITEMS)
    && (fee >= 0.0 ==> AccountsInv(st))
  }

  lemma EmptyBooks(fee: real)
    ensures BooksInv(fee, EMPTY)
  {
  }

  lemma OneEntry(st: LedgerState, r: LedgerState, e: Entry)
    requires ClaimsInv(st) && st.entries == Last(st.history, MAX_ITEMS)
    requires r.history == st.history + [e] && r.entries == Last(st.entries + [e], MAX_ITEMS)
    requires if e.Mint? then PaidKey(e) !in st.claims && r.claims == st.claims + {PaidKey(e)} else r.claims == st.claims
    ensures ClaimsInv(r) && r.entries == Last(r.history, MAX_ITEMS)
  {
    hide ClaimsInv, PaidKey;
    AppendKeepsClaims(st, r, e);
  }

  lemma RewardKeepsBooks(fee: real, st: LedgerState, reason: Reason, node: string, asset: string, amount: real)
    requires BooksInv(fee, st)
    ensures BooksInv(fee, Rewarded(st, reason, node, asset, amount))
  {
    hide AccountsInv, ClaimsInv, ClaimKey, Last;
    if Payable(st, reason, node, asset, amount) {
      var r := Rewarded(st, reason, node, asset, amount);
      if fee >= 0.0 {
        CreditKeepsAccounts(st, node, amount, reason, asset, r.claims);
      }
      OneEntry(st, r, Mint(node, amount, reason, asset, st.Balance(node) + amount, st.supply + amount));
    }
  }

  lemma TransferKeepsBooks(fee: real, st: LedgerState, from: string, to: string, amount: real)
    requires BooksInv(fee, st)
    ensures BooksInv(fee, Transferred(st, from, to, amount, fee))
  {
    hide AccountsInv, ClaimsInv, Last, Max;
    if fee >= 0.0 {
      TransferKeepsAccounts(st, from, to, amount, fee);
    }
    if CanTransfer(st, from, to, amount, fee) {
      var r := Transferred(st, from, to, amount, fee);
      OneEntry(st, r, Transfer(from, to, amount, fee, r.supply));
    }
  }

  lemma BurnKeepsBooks(fee: real, st: LedgerState, node: string, amount: real)
    requires BooksInv(fee, st)
    ensures BooksInv(fee, Burned(st, node, amount))
  {
    hide AccountsInv, ClaimsInv, Last, Max;
    if fee >= 0.0 {
      BurnKeepsAccounts(st, node, amount);
    }
    if CanBurn(st, node, amount) {
      var r := Burned(st, node, amount);
      OneEntry(st, r, Burn(node, amount, st.Balance(node) - amount, r.supply));
    }
  }

  lemma NoteKeepsBooks(fee: real, st: LedgerState, node: string, amount: real)
    requires BooksInv(fee, st)
    ensures BooksInv(fee, Appended(st, Settle(node, amount)))
  {
    hide AccountsInv, ClaimsInv, Last;
    if fee >= 0.0 {
      NoteKeepsAccounts(st, node, amount);
    }
    OneEntry(st, Appended(st, Settle(node, amount)), Settle(node, amount));
  }

  /** Under any fee the claims of a run are the keys of its payments, each made
      once, and the stored list is the end of the history. */
  lemma {:induction false} RunKeepsBooks(fee: real, steps: seq<Step>)
    ensures BooksInv(fee, Run(fee, steps))
    decreases |steps|
  {
    hide BooksInv, Rewarded, Transferred, Burned, Appended;
    if steps == [] {
      EmptyBooks(fee);
    } else {
      RunKeepsBooks(fee, steps[..|steps| - 1]);
      var before := Run(fee, steps[..|steps| - 1]);
      match steps[|steps| - 1]
      case RewardStep(reason, node, asset, now, amount) =>
        RewardKeepsBooks(fee, before, reason, node, Claimed(reason, asset, now), amount);
      case TransferStep(from, to, amount) => TransferKeepsBooks(fee, before, from, Strip(to), amount);
      case SettleStep(node, amount) =>
        BurnKeepsBooks(fee, before, node, amount);
        NoteKeepsBooks(fee, Burned(before, node, amount), node, amount);
    }
  }

  /** With a fee that is not negative, every run keeps supply equal to the sum of
      the balances, no balance negative, the entries replaying to both, and one
      payment per claim. */
  lemma RunKeepsInv(fee: real, steps: seq<Step>)
    requires fee >= 0.0
    ensures AccountsInv(Run(fee, steps)) && ClaimsInv(Run(fee, steps))
  {
    hide Run, AccountsInv, ClaimsInv;
    RunKeepsBooks(fee, steps);
  }

  /** One transfer out of nothing is enough. */
  lemma NegativeFeeBreaks(fee: real)
    requires fee < 0.0
    ensures var amount := if -fee <= MAX_TRANSFER then -fee else MAX_TRANSFER;
            !MoneyInv(Run(fee, [TransferStep("a", "b", amount)]))
  {
    hide Sum;
    var amount := if -fee <= MAX_TRANSFER then -fee else MAX_TRANSFER;
    var steps := [TransferStep("a", "b", amount)];
    assert steps[..0] == [];
    EmptyBooks(0.0);
    ConservedExactlyWhen(EMPTY, "a", "b", amount, fee);
  }

  /** Supply and balances stay together in every run exactly when the fee is not
      negative. */
  lemma RunConservesExactlyWhen(fee: real)
    ensures (forall steps :: MoneyInv(Run(fee, steps))) <==> fee >= 0.0
  {
    hide MoneyInv, Run;
    if fee >= 0.0 {
      forall steps
        ensures MoneyInv(Run(fee, steps))
      {
        RunKeepsInv(fee, steps);
      }
    } else {
      NegativeFeeBreaks(fee);
    }
  }

  // ----- claim keys -----

  lemma {:induction false} SplitUnique(a: string, b: string, c: string, d: string)
    requires ':' !in a && ':' !in c && a + ":" + b == c + ":" + d
    ensures a == c && b == d
    decreases |a|
  {
    var s, t := a + ":" + b, c + ":" + d;
    if a == [] || c == [] {
      assert s[0] == t[0];
      assert a == [] && c == [];
      assert s[1..] == b && t[1..] == d;
    } else {
      assert s[0] == a[0] && t[0] == c[0];
      assert s[1..] == a[1..] + ":" + b && t[1..] == c[1..] + ":" + d;
      SplitUnique(a[1..], b, c[1..], d);
    }
  }

  lemma JoinMore(part: string, rest: seq<string>)
    requires rest != []
    ensures Joined([part] + rest) == part + ":" + Joined(rest)
  {
    assert ([part] + rest)[1..] == rest;
  }

  lemma JoinOne(part: string)
    ensures Joined([part]) == part
  {
  }

  lemma ClaimKeyTail(reason: Reason, node: string, asset: string)
    ensures ClaimKey(reason, node, asset) == "bvl:claim:" + (ReasonText(reason) + ":" + (node + ":" + asset))
  {
    hide ReasonText, Joined;
    var text := ReasonText(reason);
    var tail := text + ":" + (node + ":" + asset);
    JoinOne(asset);
    JoinMore(node, [asset]);
    JoinMore(text, [node, asset]);
    JoinMore("claim", [text, node, asset]);
    JoinMore("bvl", ["claim", text, node, asset]);
    assert [node] + [asset] == [node, asset];
    assert [text] + [node, asset] == [text, node, asset];
    assert ["claim"] + [text, node, asset] == ["claim", text, node, asset];
    assert ["bvl"] + ["claim", text, node, asset] == ["bvl", "claim", text, node, asset];
    assert "bvl" + ":" + ("claim" + ":" + tail) == "bvl:claim:" + tail;
  }

  lemma SamePrefix(prefix: string, a: string, b: string)
    requires prefix + a == prefix + b
    ensures a == b
  {
    assert (prefix + a)[|prefix|..] == a && (prefix + b)[|prefix|..] == b;
  }

  lemma ReasonIsPlain(reason: Reason)
    ensures ':' !in ReasonText(reason)
  {
  }

  lemma ReasonUnique(reason: Reason, reason': Reason)
    requires ReasonText(reason) == ReasonText(reason')
    ensures reason == reason'
  {
    assert |ReasonText(SeedHold)| == 9;
    assert ReasonText(Attest)[0] != ReasonText(Uptime)[0];
  }

  /** Two payments share a key exactly when their reasons agree and node and
      asset read the same once a colon joins them. */
  lemma KeysAgreeExactlyWhen(reason: Reason, node: string, asset: string, reason': Reason, node': string, asset': string)
    ensures ClaimKey(reason, node, asset) == ClaimKey(reason', node', asset')
       <==> reason == reason' && node + ":" + asset == node' + ":" + asset'
  {
    hide ClaimKey, ReasonText;
    ClaimKeyTail(reason, node, asset);
    ClaimKeyTail(reason', node', asset');
    ReasonIsPlain(reason);
    ReasonIsPlain(reason');
    if ClaimKey(reason, node, asset) == ClaimKey(reason', node', asset') {
      SamePrefix("bvl:claim:", ReasonText(reason) + ":" + (node + ":" + asset),
                 ReasonText(reason') + ":" + (node' + ":" + asset'));
      SplitUnique(ReasonText(reason), node + ":" + asset, ReasonText(reason'), node' + ":" + asset');
      ReasonUnique(reason, reason');
    }
  }

  /** An asset as a payment names it. */
  predicate Named(asset: string) {
    asset != "" && Trimmed(asset)
  }

  /** The longer id goes on with a colon, and not with white space after it. */
  predicate Continues(node: string, node': string) {
    node + ":" <= node' && (|node'| == |node| + 1 || !IsBlank(node'[|node| + 1]))
  }

  predicate Clashing(node: string, node': string) {
    Continues(node, node') || Continues(node', node)
  }

  lemma ShorterContinues(node: string, asset: string, node': string, asset': string)
    requires |node| < |node'| && Named(asset) && node + ":" + asset == node' + ":" + asset'
    ensures Continues(node, node')
  {
    var s, t := node + ":" + asset, node' + ":" + asset';
    assert t[..|node'|] == node' && s[..|node| + 1] == node + ":";
    if |node'| > |node| + 1 {
      assert s[|node| + 1] == asset[0] && t[|node| + 1] == node'[|node| + 1];
    }
  }

  lemma ContinuedShares(node: string, node': string) returns (asset: string, asset': string)
    requires Continues(node, node')
    ensures Named(asset) && Named(asset') && node + ":" + asset == node' + ":" + asset'
  {
    var rest := node'[|node| + 1..];
    assert node' == node + ":" + rest;
    asset, asset' := rest + ":" + "x", "x";
    assert node + ":" + asset == node' + ":" + asset';
    assert asset[|asset| - 1] == 'x' && asset[0] == if rest == "" then ':' else node'[|node| + 1];
  }

  lemma SharedKeyClashes(reason: Reason, node: string, asset: string, node': string, asset': string)
    requires Named(asset) && Named(asset') && ClaimKey(reason, node, asset) == ClaimKey(reason, node', asset')
    ensures node == node' || Clashing(node, node')
  {
    hide ClaimKey, Named, Continues;
    KeysAgreeExactlyWhen(reason, node, asset, reason, node', asset');
    if |node| < |node'| {
      ShorterContinues(node, asset, node', asset');
    } else if |node'| < |node| {
      ShorterContinues(node', asset', node, asset);
    } else {
      assert (node + ":" + asset)[..|node|] == node && (node' + ":" + asset')[..|node|] == node';
    }
  }

  /** Two different nodes have payments that share a key exactly when one id
      continues the other with a colon that no white space follows. */
  lemma NodesClashExactlyWhen(reason: Reason, node: string, node': string)
    requires node != node'
    ensures (exists asset, asset' ::
               Named(asset) && Named(asset') && ClaimKey(reason, node, asset) == ClaimKey(reason, node', asset'))
       <==> Clashing(node, node')
  {
    hide ClaimKey, Named, Continues;
    forall asset, asset' | Named(asset) && Named(asset') && ClaimKey(reason, node, asset) == ClaimKey(reason, node', asset')
      ensures Clashing(node, node')
    {
      SharedKeyClashes(reason, node, asset, node', asset');
    }
    if Continues(node, node') {
      var asset, asset' := ContinuedShares(node, node');
      KeysAgreeExactlyWhen(reason, node, asset, reason, node', asset');
    } else if Continues(node', node) {
      var asset', asset := ContinuedShares(node', node);
      KeysAgreeExactlyWhen(reason, node, asset, reason, node', asset');
    }
  }

  /** Keys of different payments differ unless the ids of their nodes clash. */
  lemma ClaimKeyUnique(reason: Reason, node: string, asset: string, reason': Reason, node': string, asset': string)
    requires Named(asset) && Named(asset') && !Clashing(node, node')
    requires ClaimKey(reason, node, asset) == ClaimKey(reason', node', asset')
    ensures reason == reason' && node == node' && asset == asset'
  {
    hide ClaimKey, Named, Clashing;
    KeysAgreeExactlyWhen(reason, node, asset, reason', node', asset');
    SharedKeyClashes(reason, node, asset, node', asset');
    assert (node + ":" + asset)[|node| + 1..] == asset && (node' + ":" + asset')[|node'| + 1..] == asset';
  }

  /** A reward was paid before under the very key that this one would use. */
  ghost predicate KeyPaidBefore(st: LedgerState, reason: Reason, node: string, asset: string) {
    exists i :: 0 <= i < |st.history| && st.history[i].Mint?
      && st.history[i].reason == reason && st.history[i].to + ":" + st.history[i].asset == node + ":" + asset
  }

  ghost predicate PaidBefore(st: LedgerState, reason: Reason, node: string, asset: string) {
    exists i :: 0 <= i < |st.history| && st.history[i].Mint?
      && st.history[i].reason == reason && st.history[i].to == node && st.history[i].asset == asset
  }

  lemma ClaimedExactlyWhen(st: LedgerState, reason: Reason, node: string, asset: string)
    requires ClaimsInv(st)
    ensures ClaimKey(reason, node, asset) in st.claims <==> KeyPaidBefore(st, reason, node, asset)
  {
    hide ClaimKey;
    forall i | 0 <= i < |st.history| && st.history[i].Mint?
      ensures PaidKey(st.history[i]) == ClaimKey(reason, node, asset)
         <==> st.history[i].reason == reason && st.history[i].to + ":" + st.history[i].asset == node + ":" + asset
    {
      var e := st.history[i];
      KeysAgreeExactlyWhen(e.reason, e.to, e.asset, reason, node, asset);
    }
  }

  /** In every run a reward is paid exactly when it is due and none was paid
      before for the same reason to an id and asset that read the same with a
      colon in between. */
  lemma RewardPaidExactlyWhen(fee: real, steps: seq<Step>, reason: Reason, node: string, asset: string, amount: real)
    ensures var st := Run(fee, steps);
            Payable(st, reason, node, asset, amount)
            <==> asset != "" && amount > 0.0 && !KeyPaidBefore(st, reason, node, asset)
  {
    hide Run, ClaimKey, KeyPaidBefore;
    RunKeepsBooks(fee, steps);
    ClaimedExactlyWhen(Run(fee, steps), reason, node, asset);
  }

  lemma ClaimedIsNamed(reason: Reason, asset: string, now: nat)
    ensures Claimed(reason, asset, now) == "" || Named(Claimed(reason, asset, now))
    ensures Claimed(reason, asset, now) == "" <==> reason != Uptime && Strip(asset) == ""
    ensures Strip(asset) != "" ==> Claimed(reason, asset, now) == Strip(asset)
  {
    hide Strip, Decimal;
    var hour := Decimal(now / 3600);
    assert ("tick-" + hour)[|"tick-" + hour| - 1] == hour[|hour| - 1];
  }

  /** Uptime rewards that name nothing share a claim exactly within one hour of
      the clock. */
  lemma UptimeOncePerHour(asset: string, now: nat, asset': string, now': nat)
    requires Strip(asset) == "" && Strip(asset') == ""
    ensures Claimed(Uptime, asset, now) == Claimed(Uptime, asset', now') <==> now / 3600 == now' / 3600
  {
    hide Strip, Decimal;
    DecimalIsNumber(now / 3600);
    DecimalIsNumber(now' / 3600);
    if Claimed(Uptime, asset, now) == Claimed(Uptime, asset', now') {
      SamePrefix("tick-", Decimal(now / 3600), Decimal(now' / 3600));
    }
  }

  /** Every asset paid for is named, and no node that was paid clashes with this one. */
  ghost predicate Apart(st: LedgerState, node: string) {
    forall i :: 0 <= i < |st.history| && st.history[i].Mint? ==>
      Named(st.history[i].asset) && !Clashing(st.history[i].to, node)
  }

  lemma {:induction false} ApartRun(fee: real, steps: seq<Step>, node: string)
    requires forall i :: 0 <= i < |steps| && steps[i].RewardStep? ==> !Clashing(steps[i].node, node)
    ensures Apart(Run(fee, steps), node)
    decreases |steps|
  {
    hide ClaimKey, Claimed, Strip, Clashing, Named;
    if steps != [] {
      ApartRun(fee, steps[..|steps| - 1], node);
      var last := steps[|steps| - 1];
      if last.RewardStep? {
        ClaimedIsNamed(last.reason, last.asset, last.now);
      }
    }
  }

  /** So a reward is paid once and only once in every run whose rewards go to no
      node with an id that clashes with this one. */
  lemma RewardPaidOnce(fee: real, steps: seq<Step>, reason: Reason, node: string, asset: string, now: nat, amount: real)
    requires forall i :: 0 <= i < |steps| && steps[i].RewardStep? ==> !Clashing(steps[i].node, node)
    ensures var st, name := Run(fee, steps), Claimed(reason, asset, now);
            Payable(st, reason, node, name, amount)
            <==> name != "" && amount > 0.0 && !PaidBefore(st, reason, node, name)
  {
    hide Run, ClaimKey, Clashing, Payable, Claimed, Named;
    var st, name := Run(fee, steps), Claimed(reason, asset, now);
    ClaimedIsNamed(reason, asset, now);
    RewardPaidExactlyWhen(fee, steps, reason, node, name, amount);
    ApartRun(fee, steps, node);
    if name != "" && KeyPaidBefore(st, reason, node, name) {
      var i :| 0 <= i < |st.history| && st.history[i].Mint?
        && st.history[i].reason == reason && st.history[i].to + ":" + st.history[i].asset == node + ":" + name;
      KeysAgreeExactlyWhen(reason, st.history[i].to, st.history[i].asset, reason, node, name);
      ClaimKeyUnique(reason, st.history[i].to, st.history[i].asset, reason, node, name);
    }
  }

  lemma NotCredited(st: LedgerState, node: string, amount: real, reason: Reason, asset: string)
    requires amount <= 0.0
    ensures Credited(st, node, amount, reason, asset) == st
  {
  }

  lemma CreditedIs(st: LedgerState, node: string, amount: real, reason: Reason, asset: string)
    requires amount > 0.0
    ensures var r := Credited(st, node, amount, reason, asset);
            && r.balances == st.balances[node := st.Balance(node) + amount] && r.supply == st.supply + amount
            && r.history == st.history + [Mint(node, amount, reason, asset, r.Balance(node), r.supply)]
  {
  }

  lemma BurnedIs(st: LedgerState, node: string, amount: real)
    requires CanBurn(st, node, amount)
    ensures var r := Burned(st, node, amount);
            && r.balances == st.balances[node := st.Balance(node) - amount]
            && r.supply == (if amount <= st.supply then st.supply - amount else 0.0)
            && r.history == st.history + [Burn(node, amount, r.Balance(node), r.supply)]
  {
  }

  lemma TransferredIs(st: LedgerState, from: string, to: string, amount: real, fee: real)
    requires CanTransfer(st, from, to, amount, fee)
    ensures var r := Transferred(st, from, to, amount, fee);
            && r.balances == st.balances[from := st.Balance(from) - amount - fee][to := st.Balance(to) + amount]
            && r.supply == (if fee <= 0.0 then st.supply else if fee <= st.supply then st.supply - fee else 0.0)
            && r.history == st.history + [Transfer(from, to, amount, fee, r.supply)]
  {
  }

  lemma NotTransferred(st: LedgerState, from: string, to: string, amount: real, fee: real)
    requires !CanTransfer(st, from, to, amount, fee)
    ensures Transferred(st, from, to, amount, fee) == st
  {
  }

  lemma NotBurned(st: LedgerState, node: string, amount: real)
    requires !CanBurn(st, node, amount)
    ensures Burned(st, node, amount) == st
  {
  }

  /** The list after an append: the entry at its end, and the newest before it, up
      to 2000 in all. */
  ghost predicate KeepsNewest(before: seq<Entry>, e: Entry, after: seq<Entry>) {
    && |after| == (if |before| < 2000 then |before| + 1 else 2000)
    && after == (before + [e])[|before| + 1 - |after|..]
  }

  // ----- the service -----

  /** `BVLPolicy` */
  datatype Policy = Policy(seedHold: real, attest: real, uptimeTick: real, transferFee: real)
  {
    /** What a reward pays; only a seed reward may be given another amount. */
    function Amount(reason: Reason, given: Option<real>): real {
      match reason
      case SeedHold => if given.Some? then given.value else seedHold
      case Attest => attest
      case Uptime => uptimeTick
    }
  }

  class BabelLedger {
    const nodeId: string
    const policy: Policy
    var balances: map<string, real>
    var supply: real
    var entries: seq<Entry>
    var claims: set<string>
    ghost var history: seq<Entry>

    ghost function View(): LedgerState
      reads this
    {
      LedgerState(balances, supply, entries, claims, history)
    }

    ghost predicate Valid()
      reads this
    {
      BooksInv(policy.transferFee, View())
    }

    constructor (nodeId: string, policy: Policy)
      ensures Valid() && View() == EMPTY && this.nodeId == nodeId && this.policy == policy
    {
      this.nodeId := nodeId;
      this.policy := policy;
      balances := map[];
      supply := 0.0;
      entries := [];
      claims := {};
      history := [];
      new;
      EmptyBooks(policy.transferFee);
    }

    /** `node_id or self.node_id` */
    function Or(node: string): string {
      if node == "" then nodeId else node
    }

    function BalanceOf(node: string): real
      reads this
    {
      if node in balances then balances[node] else 0.0
    }

    method Append(e: Entry)
      modifies this`entries, this`history
      ensures View() == Appended(old(View()), e)
      ensures history == old(history) + [e]
      ensures KeepsNewest(old(entries), e, entries)
    {
      entries := Last(entries + [e], MAX_ITEMS);
      history := history + [e];
    }

    /** `_credit` */
    method Credit(node: string, amount: real, reason: Reason, asset: string) returns (ok: bool)
      modifies this`balances, this`supply, this`entries, this`history
      ensures View() == Credited(old(View()), node, amount, reason, asset)
      ensures ok <==> amount > 0.0
    {
      hide KeepsNewest, Last;
      if amount <= 0.0 {
        return false;
      }
      var bal := BalanceOf(node) + amount;
      balances := balances[node := bal];
      supply := supply + amount;
      Append(Mint(node, amount, reason, asset, bal, supply));
      ok := true;
    }

    /** `_debit` */
    method Debit(node: string, amount: real) returns (ok: bool)
      modifies this`balances, this`supply, this`entries, this`history
      ensures View() == Burned(old(View()), node, amount)
      ensures ok <==> CanBurn(old(View()), node, amount)
    {
      hide KeepsNewest, Last;
      if amount <= 0.0 {
        return false;
      }
      var bal := BalanceOf(node);
      if bal < amount {
        return false;
      }
      bal := bal - amount;
      balances := balances[node := bal];
      supply := Max(0.0, supply - amount);
      Append(Burn(node, amount, bal, supply));
      ok := true;
    }

    /** `reward_seed`, `reward_attest`, `reward_uptime` */
    method Reward(reason: Reason, node: string, asset: string, now: nat, given: Option<real>) returns (ok: bool)
      requires Valid()
      modifies this
      ensures Valid()
      ensures View() == Next(old(View()), policy.transferFee,
                             RewardStep(reason, Or(node), asset, now, policy.Amount(reason, given)))
      ensures ok <==> Payable(old(View()), reason, Or(node), Claimed(reason, asset, now), policy.Amount(reason, given))
      ensures !ok ==> View() == old(View())
      ensures ok ==>
                var nid := if node == "" then nodeId else node;
                var amount :=
                  match reason
                  case SeedHold => (if given.Some? then given.value else policy.seedHold)
                  case Attest => policy.attest
                  case Uptime => policy.uptimeTick;
                && balances == old(balances)[nid := old(BalanceOf(nid)) + amount]
                && supply == old(supply) + amount
                && history == old(history)
                              + [Mint(nid, amount, reason, Claimed(reason, asset, now), BalanceOf(nid), supply)]
    {
      hide BooksInv, ClaimKey, Credited, Strip, Decimal, KeepsNewest;
      var nid := Or(node);
      var name := Strip(asset);
      if reason == Uptime && name == "" {
        name := "tick-" + Decimal(now / 3600);
      }
      var amount := policy.Amount(reason, given);
      RewardKeepsBooks(policy.transferFee, View(), reason, nid, name, amount);
      if name == "" {
        return false;
      }
      if ClaimKey(reason, nid, name) in claims {
        return false;
      }
      ok := Credit(nid, amount, reason, name);
      if ok {
        CreditedIs(old(View()), nid, amount, reason, name);
        claims := claims + {ClaimKey(reason, nid, name)};
      } else {
        NotCredited(old(View()), nid, amount, reason, name);
      }
    }

    /** The updates of `transfer`, once it is allowed. */
    method MoveTo(name: string, amount: real)
      requires CanTransfer(View(), nodeId, name, amount, policy.transferFee)
      modifies this
      ensures View() == Transferred(old(View()), nodeId, name, amount, policy.transferFee)
    {
      hide Appended, Max, KeepsNewest;
      var fee := policy.transferFee;
      balances := balances[nodeId := BalanceOf(nodeId) - (amount + fee)];
      var toBal := BalanceOf(name) + amount;
      balances := balances[name := toBal];
      if fee > 0.0 {
        supply := Max(0.0, supply - fee);
      }
      Append(Transfer(nodeId, name, amount, fee, supply));
    }

    /** `transfer` from this node. */
    method TransferTo(to: string, amount: real) returns (ok: bool)
      requires Valid()
      modifies this
      ensures Valid() && View() == Next(old(View()), policy.transferFee, TransferStep(nodeId, to, amount))
      ensures ok <==>
                && Strip(to) !in {"", nodeId} && 0.0 < amount <= 1000000.0
                && old(BalanceOf(nodeId)) >= amount + policy.transferFee
      ensures !ok ==> View() == old(View())
      ensures ok ==>
                var name, fee := Strip(to), policy.transferFee;
                && balances == old(balances)[nodeId := old(BalanceOf(nodeId)) - amount - fee]
                                            [name := old(BalanceOf(name)) + amount]
                && supply == (if fee <= 0.0 then old(supply) else if fee <= old(supply) then old(supply) - fee else 0.0)
                && history == old(history) + [Transfer(nodeId, name, amount, fee, supply)]
    {
      hide BooksInv, Transferred, Strip;
      var name := Strip(to);
      TransferKeepsBooks(policy.transferFee, View(), nodeId, name, amount);
      if name == "" || name == nodeId || amount <= 0.0 || amount > MAX_TRANSFER {
        NotTransferred(View(), nodeId, name, amount, policy.transferFee);
        return false;
      }
      var total := amount + policy.transferFee;
      var bal := BalanceOf(nodeId);
      if bal < total {
        NotTransferred(View(), nodeId, name, amount, policy.transferFee);
        return false;
      }
      TransferredIs(View(), nodeId, name, amount, policy.transferFee);
      MoveTo(name, amount);
      ok := true;
    }

    /** `settle_to_sats`: `_debit`, then the settlement entry. */
    method SettleToSats(tipNode: string, amount: real) returns (ok: bool)
      requires Valid()
      modifies this
      ensures Valid() && View() == Next(old(View()), policy.transferFee, SettleStep(Or(tipNode), amount))
      ensures ok <==> 0.0 < amount <= old(BalanceOf(if tipNode == "" then nodeId else tipNode))
      ensures !ok ==> View() == old(View())
      ensures ok ==>
                var node := if tipNode == "" then nodeId else tipNode;
                && balances == old(balances)[node := old(BalanceOf(node)) - amount]
                && supply == (if amount <= old(supply) then old(supply) - amount else 0.0)
                && history == old(history) + [Burn(node, amount, BalanceOf(node), supply), Settle(node, amount)]
    {
      hide BooksInv, Burned, KeepsNewest;
      var node := Or(tipNode);
      BurnKeepsBooks(policy.transferFee, View(), node, amount);
      NoteKeepsBooks(policy.transferFee, Burned(View(), node, amount), node, amount);
      ok := Debit(node, amount);
      if ok {
        BurnedIs(old(View()), node, amount);
        Append(Settle(node, amount));
      } else {
        NotBurned(old(View()), node, amount);
      }
    }
  }
}
