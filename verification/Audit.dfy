/** The hash-chained audit log (`mods/aegis_42/audit.py`).

    Main results: a log that verifies is determined by its last hash
    (`HeadDeterminesLog`), so a list that verifies is the log exactly when it ends
    in the head, which the check does not compare (`CompleteExactlyWhen`); and a
    log verifies after k appends exactly when nothing has been trimmed from it
    (`VerifiesWhileUntrimmed`). */
module Audit {
  import opened Hashing

  /** A SHA-256 digest in hexadecimal. */
  type HexDigest = s: string | |s| == 64 witness seq(64, _ => '0')

  const GENESIS := "genesis"

  /** Everything in a record but its place in the chain. */
  datatype Content = Content(
    recordId: string, ts: real, kind: string, eventId: string, decisionId: string, actorId: string,
    summary: string, payload: string)

  /** The canonical JSON object that is hashed. */
  datatype Body = Body(content: Content, prevHash: string)

  type BodyHash = Body -> HexDigest

  datatype AuditRecord = AuditRecord(content: Content, prevHash: string, recordHash: string) {
    function Hashed(): Body {
      Body(content, prevHash)
    }
  }

  // ----- the chain -----

  function Chained(hash: BodyHash, content: Content, head: string): AuditRecord {
    AuditRecord(content, head, hash(Body(content, head)))
  }

  /** Python's `records[-max:]` when there are more than max records; zero keeps
      everything and a negative maximum drops from the front. */
  function Trimmed(records: seq<AuditRecord>, max: int): (t: seq<AuditRecord>)
    ensures |t| == if 0 < max < |records| then max
                   else if max >= 0 then |records|
                   else if -max <= |records| then |records| + max else 0
    ensures |t| <= |records| && t == records[|records| - |t|..]
  {
    if |records| <= max then records
    else if max > 0 then records[|records| - max..]
    else if max == 0 then records
    else if -max <= |records| then records[-max..]
    else []
  }

  predicate LinkHolds(hash: BodyHash, records: seq<AuditRecord>, i: nat)
    requires i < |records|
  {
    && records[i].prevHash == (if i == 0 then GENESIS else records[i - 1].recordHash)
    && records[i].recordHash == hash(records[i].Hashed())
  }

  /** The first record stands on the genesis mark, every other on the record
      before it, and every stored hash is the hash of the record. */
  ghost predicate Verifies(hash: BodyHash, records: seq<AuditRecord>) {
    forall i :: 0 <= i < |records| ==> LinkHolds(hash, records, i)
  }

  datatype Report = Intact(records: nat, head: string) | WrongPrev(brokenAt: nat) | WrongHash(brokenAt: nat)

  class AuditLog {
    const hash: BodyHash
    const max: int
    var records: seq<AuditRecord>
    var head: string

    constructor (hash: BodyHash, max: int)
      ensures this.hash == hash && this.max == max && records == [] && head == GENESIS
    {
      this.hash := hash;
      this.max := max;
      records := [];
      head := GENESIS;
    }

    /** `append` */
    method Append(content: Content) returns (rec: AuditRecord)
      modifies this
      ensures rec == Chained(hash, content, old(head))
      ensures records == Trimmed(old(records) + [rec], max)
      ensures head == rec.recordHash
    {
      rec := AuditRecord(content, head, hash(Body(content, head)));
      records := records + [rec];
      head := rec.recordHash;
      if |records| > max {
        records := Trimmed(records, max);
      }
    }

    /** `verify_integrity`: the first break, if there is one. */
    method VerifyIntegrity() returns (r: Report)
      ensures r.Intact? <==> Verifies(hash, records)
      ensures r.Intact? ==> r == Intact(|records|, head)
      ensures !r.Intact? ==>
                && r.brokenAt < |records| && !LinkHolds(hash, records, r.brokenAt)
                && forall i :: 0 <= i < r.brokenAt ==> LinkHolds(hash, records, i)
      ensures r.WrongHash? ==> records[r.brokenAt].recordHash != hash(records[r.brokenAt].Hashed())
    {
      if records == [] {
        return Intact(0, head);
      }
      var expectedPrev := GENESIS;
      for i := 0 to |records|
        invariant expectedPrev == if i == 0 then GENESIS else records[i - 1].recordHash
        invariant forall j :: 0 <= j < i ==> LinkHolds(hash, records, j)
      {
        var rec := records[i];
        if rec.prevHash != expectedPrev {
          assert !LinkHolds(hash, records, i);
          return WrongPrev(i);
        }
        if hash(rec.Hashed()) != rec.recordHash {
          assert !LinkHolds(hash, records, i);
          return WrongHash(i);
        }
        expectedPrev := rec.recordHash;
      }
      r := Intact(|records|, head);
    }
  }

  // ----- the head determines the log -----

  ghost function Bodies(records: seq<AuditRecord>): set<Body> {
    set i | 0 <= i < |records| :: records[i].Hashed()
  }

  /** A digest is never the genesis mark. */
  lemma OnlyFirstOnGenesis(hash: BodyHash, records: seq<AuditRecord>, i: nat)
    requires Verifies(hash, records) && i < |records|
    ensures records[i].prevHash == GENESIS <==> i == 0
  {
    assert LinkHolds(hash, records, i);
    if i > 0 {
      assert LinkHolds(hash, records, i - 1);
      assert |records[i - 1].recordHash| == 64 && |GENESIS| == 7;
    }
  }

  lemma VerifiesPrefix(hash: BodyHash, records: seq<AuditRecord>, n: nat)
    requires Verifies(hash, records) && n <= |records|
    ensures Verifies(hash, records[..n])
  {
    forall i | 0 <= i < n
      ensures LinkHolds(hash, records[..n], i)
    {
      assert LinkHolds(hash, records, i);
    }
  }

  lemma BodiesPrefix(records: seq<AuditRecord>, n: nat)
    requires n <= |records|
    ensures Bodies(records[..n]) <= Bodies(records)
  {
    forall x | x in Bodies(records[..n])
      ensures x in Bodies(records)
    {
      var i :| 0 <= i < n && records[..n][i].Hashed() == x;
      assert records[i].Hashed() == x;
    }
  }

  /** Two verifying logs that end in the same hash are the same log, unless two
      of their records collide. */
  lemma {:induction false} HeadDeterminesLog(hash: BodyHash, a: seq<AuditRecord>, b: seq<AuditRecord>)
    requires Verifies(hash, a) && Verifies(hash, b)
    requires CollisionFree(hash, Bodies(a) + Bodies(b))
    requires a != [] && b != []
    requires a[|a| - 1].recordHash == b[|b| - 1].recordHash
    ensures a == b
    decreases |a|
  {
    var m, n := |a| - 1, |b| - 1;
    assert LinkHolds(hash, a, m) && LinkHolds(hash, b, n);
    assert a[m].Hashed() in Bodies(a) && b[n].Hashed() in Bodies(b);
    assert a[m] == b[n];
    OnlyFirstOnGenesis(hash, a, m);
    OnlyFirstOnGenesis(hash, b, n);
    if m > 0 {
      VerifiesPrefix(hash, a, m);
      VerifiesPrefix(hash, b, n);
      assert Bodies(a[..m]) + Bodies(b[..n]) <= Bodies(a) + Bodies(b) by {
        BodiesPrefix(a, m);
        BodiesPrefix(b, n);
      }
      HeadDeterminesLog(hash, a[..m], b[..n]);
      assert a == a[..m] + [a[m]] && b == b[..n] + [b[n]];
    }
  }

  // ----- appending -----

  datatype Log = Log(records: seq<AuditRecord>, head: string)

  /** The log after appending the contents in order. */
  function Appended(hash: BodyHash, max: int, contents: seq<Content>): Log
    decreases |contents|
  {
    if contents == [] then Log([], GENESIS)
    else
      var before := Appended(hash, max, contents[..|contents| - 1]);
      var rec := Chained(hash, contents[|contents| - 1], before.head);
      Log(Trimmed(before.records + [rec], max), rec.recordHash)
  }

  function HeadOf(records: seq<AuditRecord>): string {
    if records == [] then GENESIS else records[|records| - 1].recordHash
  }

  /** The untrimmed chain of the contents. */
  function FullChain(hash: BodyHash, contents: seq<Content>): (c: seq<AuditRecord>)
    ensures |c| == |contents|
    decreases |contents|
  {
    if contents == [] then []
    else
      var before := FullChain(hash, contents[..|contents| - 1]);
      before + [Chained(hash, contents[|contents| - 1], HeadOf(before))]
  }

  lemma {:induction false} FullChainVerifies(hash: BodyHash, contents: seq<Content>)
    ensures Verifies(hash, FullChain(hash, contents))
    decreases |contents|
  {
    if contents != [] {
      var before := FullChain(hash, contents[..|contents| - 1]);
      FullChainVerifies(hash, contents[..|contents| - 1]);
      forall i | 0 <= i < |contents|
        ensures LinkHolds(hash, FullChain(hash, contents), i)
      {
        if i < |before| {
          assert LinkHolds(hash, before, i);
        }
      }
    }
  }

  lemma HeadOfSome(hash: BodyHash, records: seq<AuditRecord>)
    requires Verifies(hash, records) && records != []
    ensures HeadOf(records) != GENESIS
  {
    assert LinkHolds(hash, records, |records| - 1);
    assert |HeadOf(records)| == 64 && |GENESIS| == 7;
  }

  /** A list that verifies is the log of the contents exactly when it ends in the
      head of that log, unless two records collide. */
  lemma CompleteExactlyWhen(hash: BodyHash, contents: seq<Content>, records: seq<AuditRecord>)
    requires Verifies(hash, records)
    requires CollisionFree(hash, Bodies(records) + Bodies(FullChain(hash, contents)))
    ensures records == FullChain(hash, contents) <==> HeadOf(records) == HeadOf(FullChain(hash, contents))
  {
    hide FullChain, Verifies;
    var full := FullChain(hash, contents);
    FullChainVerifies(hash, contents);
    if HeadOf(records) == HeadOf(full) {
      if records != [] {
        HeadOfSome(hash, records);
      }
      if full != [] {
        HeadOfSome(hash, full);
      }
      if records != [] {
        HeadDeterminesLog(hash, records, full);
      }
    }
  }

  /** The check alone does not see that: a log cut short anywhere verifies. */
  lemma CutVerifies(hash: BodyHash, contents: seq<Content>, n: nat)
    requires n <= |contents|
    ensures Verifies(hash, FullChain(hash, contents)[..n])
  {
    hide Verifies;
    FullChainVerifies(hash, contents);
    VerifiesPrefix(hash, FullChain(hash, contents), n);
  }

  function Held(full: seq<AuditRecord>, max: int): seq<AuditRecord> {
    if max < 0 then []
    else if max == 0 || |full| <= max then full
    else full[|full| - max..]
  }

  lemma TrimAfterAppend(full: seq<AuditRecord>, rec: AuditRecord, max: int)
    ensures Trimmed(Held(full, max) + [rec], max) == Held(full + [rec], max)
  {
  }

  /** What the log holds: the whole chain, its last `max` records, or, for a
      negative maximum, nothing at all. */
  lemma {:induction false} AppendedIs(hash: BodyHash, max: int, contents: seq<Content>)
    ensures var log := Appended(hash, max, contents);
            var full := FullChain(hash, contents);
            && log.head == HeadOf(full)
            && log.records == Held(full, max)
    decreases |contents|
  {
    if contents != [] {
      AppendedIs(hash, max, contents[..|contents| - 1]);
      var before := FullChain(hash, contents[..|contents| - 1]);
      TrimAfterAppend(before, Chained(hash, contents[|contents| - 1], HeadOf(before)), max);
    }
  }

  /** After k appends the log verifies exactly when k is at most the maximum:
      trimming drops the record that stands on the genesis mark.  A maximum of
      zero or less never trims to a proper suffix. */
  lemma VerifiesWhileUntrimmed(hash: BodyHash, max: int, contents: seq<Content>)
    ensures Verifies(hash, Appended(hash, max, contents).records) <==> max <= 0 || |contents| <= max
  {
    AppendedIs(hash, max, contents);
    FullChainVerifies(hash, contents);
    var full := FullChain(hash, contents);
    if 0 < max < |contents| {
      var k := |full| - max;
      assert LinkHolds(hash, full, k) && LinkHolds(hash, full, k - 1);
      assert full[k..][0] == full[k];
      assert |full[k].prevHash| == 64 && |GENESIS| == 7;
      assert !LinkHolds(hash, full[k..], 0);
    }
  }
}
