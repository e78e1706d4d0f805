/** `reconstruct_important` (`mods/asset_fabric/reconstruct.py`, lines 33-68):
    decoding followed by a comparison with the recorded content hash. */
module Reconstruct {
  import opened ByteStrings
  import opened GFTables
  import opened Options
  import opened Erasure

  datatype Report =
    | Ok(data: Bytes, size: nat, presentShards: nat)
    | TooFew(present: nat)
    | DecodeFailed(present: nat)
    | HashMismatch
    | Raised(error: DecodeResult)

  function Counted(shards: seq<Option<Bytes>>, n: nat): (c: nat)
    requires n <= |shards|
    ensures c == |PresentUpTo(shards, n)|
  {
    if n == 0 then 0 else Counted(shards, n - 1) + (if shards[n - 1].Some? then 1 else 0)
  }

  /** The shards that are there, wherever they stand in the list. */
  function CountPresent(shards: seq<Option<Bytes>>): (n: nat)
    ensures n == |AllPresent(shards)|
  {
    Counted(shards, |shards|)
  }

  /** `content_hash` is compared only when it is given and not empty.  Whatever
      subset of `nData` or more shards of an encoding is left, the report is Ok
      with the original bytes, unless another content hash was given. */
  method ReconstructImportant(
    gf: Tables, sha256: Bytes -> string,
    shards: seq<Option<Bytes>>, nData: int, nParity: int, shardSize: int, originalSize: int,
    contentHash: Option<string>)
    returns (r: Report)
    requires gf.Valid()
    ensures r.TooFew? <==> CountPresent(shards) < nData
    ensures forall data, e ::
              && IsEncoding(data, nData, nParity, e)
              && e.shardSize == shardSize && e.originalSize == originalSize
              && Survives(shards, e)
              && CountPresent(shards) >= nData
              ==> r == if contentHash.None? || contentHash.value in {"", sha256(data)}
                       then Ok(data, |data|, CountPresent(shards)) else HashMismatch
    ensures r.Ok? && contentHash.Some? && contentHash.value != "" ==> sha256(r.data) == contentHash.value
  {
    var present := CountPresent(shards);
    if present < nData {
      return TooFew(present);
    }
    var out := Decode(gf, shards, nData, nParity, shardSize, originalSize);
    forall data, e |
      && IsEncoding(data, nData, nParity, e)
      && e.shardSize == shardSize && e.originalSize == originalSize
      && Survives(shards, e)
      ensures out == Decoded(data)
    {
      RoundTrip(data, nData, nParity, e, shards, out);
    }
    match out
    case Nothing => r := DecodeFailed(present);
    case ValueError => r := Raised(out);
    case IndexError => r := Raised(out);
    case Decoded(bytes) =>
      if contentHash.Some? && contentHash.value != "" && sha256(bytes) != contentHash.value {
        return HashMismatch;
      }
      r := Ok(bytes, |bytes|, present);
  }

  lemma {:induction false} DropOne(shards: seq<Option<Bytes>>, i: nat, n: nat)
    requires i < |shards| && n <= |shards|
    ensures Counted(shards[i := None], n) >= Counted(shards, n) - 1
    ensures n <= i ==> Counted(shards[i := None], n) == Counted(shards, n)
  {
    if n > 0 {
      DropOne(shards, i, n - 1);
    }
  }

  lemma {:induction false} NothingLost(shards: seq<Option<Bytes>>, n: nat)
    requires n <= |shards| && forall i :: 0 <= i < n ==> shards[i].Some?
    ensures Counted(shards, n) == n
  {
    if n > 0 {
      NothingLost(shards, n - 1);
    }
  }

  /** Dropping two of six intact shards leaves at least four. */
  lemma TwoLost(e: Encoding, all: seq<Option<Bytes>>, i: nat, j: nat)
    requires |e.shards| == |all| == 6 && i < 6 && j < 6
    requires forall k :: 0 <= k < 6 ==> all[k] == Some(e.shards[k])
    ensures Survives(all[i := None][j := None], e)
    ensures |AllPresent(all[i := None][j := None])| >= 4
  {
    NothingLost(all, 6);
    DropOne(all, i, 6);
    DropOne(all[i := None], j, 6);
    assert CountPresent(all[i := None][j := None]) >= 4;
  }

  lemma EncodingShape(data: Bytes, nData: int, nParity: int, e: Encoding)
    requires IsEncoding(data, nData, nParity, e)
    ensures |e.shards| == nData + nParity && e.nData == nData && e.nParity == nParity
  {
  }

  /** `selftest` (`mods/asset_fabric/erasure.py`, lines 230-258), for any
      payload: two shards are dropped twice over, and both times the payload
      comes back. */
  method SelfTest(gf: Tables, sha256: Bytes -> string, payload: Bytes) returns (ok: bool)
    requires gf.Valid()
    ensures ok
  {
    hide IsEncoding, Survives, AllPresent, DecodeSpec;
    var encoded := Encode(gf, sha256, payload, 4, 2);
    var e := encoded.encoding;
    EncodingShape(payload, 4, 2, e);
    var all: seq<Option<Bytes>> := seq(6, i requires 0 <= i < 6 => Some(e.shards[i]));
    var shards := all[1 := None][4 := None];
    var out := Decode(gf, shards, e.nData, e.nParity, e.shardSize, e.originalSize);
    TwoLost(e, all, 1, 4);
    RoundTrip(payload, 4, 2, e, shards, out);
    if out != Decoded(payload) {
      return false;
    }
    if sha256(out.data) != e.contentHash {
      return false;
    }
    shards := all[0 := None][1 := None];
    var out2 := Decode(gf, shards, e.nData, e.nParity, e.shardSize, e.originalSize);
    TwoLost(e, all, 0, 1);
    RoundTrip(payload, 4, 2, e, shards, out2);
    ok := out2 == Decoded(payload);
  }
}
