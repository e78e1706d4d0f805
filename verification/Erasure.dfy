/** The systematic erasure code of `mods/asset_fabric/erasure.py`: `encode`
    and `decode` (lines 118-223), and the theorem they are written for: any
    `nData` of the shards give the original bytes back. */
module Erasure {
  import opened ByteStrings
  import opened GF256
  import opened GFTables
  import opened Options
  import opened LinearAlgebra
  import opened Polynomials
  import opened Cauchy

  /** The dictionary that `encode` returns. */
  datatype Encoding = Encoding(
    shards: seq<Bytes>, nData: int, nParity: int, shardSize: nat, originalSize: nat,
    contentHash: string, code: string)

  datatype EncodeResult = Encoded(encoding: Encoding) | EncodeError

  /** `decode` returns bytes or None; two misuses raise instead. */
  datatype DecodeResult = Decoded(data: Bytes) | Nothing | ValueError | IndexError

  // ----- shards as generator rows -----

  ghost predicate Sized(words: seq<Bytes>, size: int) {
    forall d :: 0 <= d < |words| ==> |words[d]| == size
  }

  /** The bytes of all words at one offset. */
  function Column(words: seq<Bytes>, off: nat): (v: Vec)
    requires forall d :: 0 <= d < |words| ==> off < |words[d]|
    ensures |v| == |words|
  {
    seq(|words|, d requires 0 <= d < |words| => words[d][off])
  }

  ghost function CodeRow(nData: nat, nParity: nat, i: nat): (row: Vec)
    requires nData + nParity <= 255 && i < nData + nParity
    ensures |row| == nData
  {
    GeneratorRow(CauchyMatrix(nData, nParity), nData, i)
  }

  /** `shard` is what generator row i makes of the data words. */
  ghost predicate ShardOf(shard: Bytes, i: nat, words: seq<Bytes>, nParity: nat, size: int)
    requires |words| + nParity <= 255 && i < |words| + nParity && Sized(words, size)
  {
    && |shard| == size
    && forall off :: 0 <= off < size ==>
         shard[off] == Dot(CodeRow(|words|, nParity, i), Column(words, off), |words|)
  }

  function ShardSize(size: nat, nData: int): nat
    requires nData >= 1
  {
    if size == 0 then 1 else (size + nData - 1) / nData
  }

  /** The least positive size of which nData shards hold the data. */
  ghost predicate LeastSize(size: nat, nData: int, shardSize: nat) {
    && shardSize >= 1 && nData * shardSize >= size
    && (shardSize == 1 || nData * (shardSize - 1) < size)
  }

  lemma ShardsCover(size: nat, nData: int)
    requires nData >= 1
    ensures LeastSize(size, nData, ShardSize(size, nData))
  {
    if size > 0 {
      var m := size + nData - 1;
      var s := m / nData;
      assert m == nData * s + m % nData;
      assert nData * (s - 1) == nData * s - nData;
    }
  }

  /** The data, followed by the zero bytes that fill the last data shard. */
  function Padded(data: Bytes, need: nat): (p: Bytes)
    requires |data| <= need
    ensures |p| == need && data <= p
    ensures forall k :: |data| <= k < need ==> p[k] == 0
  {
    data + seq(need - |data|, _ => 0)
  }

  /** What `encode` promises about its shards: the data shards are the padded
      data, cut into equal pieces, and every shard is its generator row. */
  ghost predicate IsEncoding(data: Bytes, nData: int, nParity: int, e: Encoding) {
    && nData >= 1 && nParity >= 0 && nData + nParity <= 255
    && e.nData == nData && e.nParity == nParity
    && e.originalSize == |data| && LeastSize(|data|, nData, e.shardSize)
    && |e.shards| == nData + nParity
    && Sized(e.shards, e.shardSize)
    && nData * e.shardSize >= |data|
    && Join(e.shards[..nData]) == Padded(data, nData * e.shardSize)
    && forall i :: 0 <= i < nData + nParity ==>
         ShardOf(e.shards[i], i, e.shards[..nData], nParity, e.shardSize)
  }

  // ----- the bytes of an encoding -----

  /** Where the bytes of the words stand in their concatenation. */
  lemma {:induction false} JoinAt(words: seq<Bytes>, size: nat, d: nat, off: nat)
    requires Sized(words, size) && d < |words| && off < size
    ensures d * size + off < |Join(words)| && Join(words)[d * size + off] == words[d][off]
    decreases |words|
  {
    if d > 0 {
      JoinAt(words[1..], size, d - 1, off);
      assert (d - 1) * size + off == d * size + off - size;
    }
  }

  /** The data bytes in order, filled up with zero bytes. */
  function DataByte(data: Bytes, k: nat): byte {
    if k < |data| then data[k] else 0
  }

  /** The data shards hold the data in order and then zero bytes. */
  ghost predicate HoldsData(shards: seq<Bytes>, nData: nat, size: nat, data: Bytes) {
    nData <= |shards| && forall d, off :: 0 <= d < nData && 0 <= off < size ==>
      |shards[d]| == size && shards[d][off] == DataByte(data, d * size + off)
  }

  /** The parity shards hold the products of the data bytes with the inverses of
      x_p + y_d. */
  ghost predicate HoldsParity(shards: seq<Bytes>, nData: nat, nParity: nat, size: nat)
    requires nData + nParity <= 255
  {
    && |shards| == nData + nParity && Sized(shards, size)
    && exists P :: IsCauchy(P, nData, nParity)
         && forall p, off :: 0 <= p < nParity && 0 <= off < size ==>
              shards[nData + p][off] == Dot(P[p], Column(shards[..nData], off), nData)
  }

  /** Every byte of an encoding, without the functions that make it. */
  lemma EncodingBytes(data: Bytes, nData: int, nParity: int, e: Encoding)
    requires IsEncoding(data, nData, nParity, e)
    ensures HoldsData(e.shards, nData, e.shardSize, data)
    ensures HoldsParity(e.shards, nData, nParity, e.shardSize)
  {
    hide Dot, Join, LeastSize;
    var words := e.shards[..nData];
    forall d, off | 0 <= d < nData && 0 <= off < e.shardSize
      ensures e.shards[d][off] == DataByte(data, d * e.shardSize + off)
    {
      JoinAt(words, e.shardSize, d, off);
    }
    var P := CauchyMatrix(nData, nParity);
    forall p, off | 0 <= p < nParity && 0 <= off < e.shardSize
      ensures e.shards[nData + p][off] == Dot(P[p], Column(words, off), nData)
    {
      assert ShardOf(e.shards[nData + p], nData + p, words, nParity, e.shardSize);
    }
  }

  // ----- encode -----

  /** A data shard is its own generator row. */
  lemma DataShard(words: seq<Bytes>, nParity: nat, size: nat, i: nat)
    requires |words| + nParity <= 255 && i < |words| && Sized(words, size)
    ensures ShardOf(words[i], i, words, nParity, size)
  {
    hide Dot;
    forall off | 0 <= off < size
      ensures words[i][off] == Dot(CodeRow(|words|, nParity, i), Column(words, off), |words|)
    {
      DotUnit(UnitRow(i, |words|), i, Column(words, off), |words|);
    }
  }

  /** Data of exactly n * size bytes is cut into n pieces of that size. */
  lemma FullPieces(data: Bytes, size: nat, n: nat)
    requires |data| == n * size
    ensures Sized(Pieces(data, size, n), size)
    ensures Join(Pieces(data, size, n)) == data
  {
    JoinPieces(data, size, n);
    forall i | 0 <= i < n
      ensures |Piece(data, size, i)| == size
    {
      ScaleMonotone(i + 1, n, size);
      PieceSize(data, size, i);
    }
  }

  /** The loop of `encode` that fills the parity shards offset by offset. */
  method ParityShards(gf: Tables, P: Matrix, words: seq<Bytes>, size: nat) returns (parity: seq<Bytes>)
    requires gf.Valid() && Dim(P, |P|, |words|) && Sized(words, size)
    ensures |parity| == |P| && Sized(parity, size)
    ensures forall p, off :: 0 <= p < |P| && 0 <= off < size ==>
              parity[p][off] == Dot(P[p], Column(words, off), |words|)
  {
    hide Dot;
    parity := seq(|P|, _ => Zeros(size));
    for off := 0 to size
      invariant |parity| == |P| && Sized(parity, size)
      invariant forall p, o :: 0 <= p < |P| && 0 <= o < off ==>
                  parity[p][o] == Dot(P[p], Column(words, o), |words|)
    {
      var par := MatMulVec(gf, P, Column(words, off));
      for p := 0 to |P|
        invariant |parity| == |P| && Sized(parity, size)
        invariant forall q, o :: 0 <= q < |P| && 0 <= o < off ==>
                    parity[q][o] == Dot(P[q], Column(words, o), |words|)
        invariant forall q :: 0 <= q < p ==> parity[q][off] == par[q]
      {
        parity := parity[p := parity[p][off := par[p]]];
      }
    }
  }

  /** `encode`, for any hash function. */
  method Encode(gf: Tables, sha256: Bytes -> string, data: Bytes, nData: int, nParity: int)
    returns (r: EncodeResult)
    requires gf.Valid()
    ensures r.EncodeError? <==> nData < 1 || nParity < 0 || nData + nParity > 255
    ensures r.Encoded? ==>
              && IsEncoding(data, nData, nParity, r.encoding)
              && r.encoding.contentHash == sha256(data)
              && r.encoding.code == "reed_solomon_v1"
    ensures r.Encoded? ==>
              var size := r.encoding.shardSize;
              && size >= 1 && nData * size >= |data| && (size == 1 || nData * (size - 1) < |data|)
              && HoldsData(r.encoding.shards, nData, size, data)
              && HoldsParity(r.encoding.shards, nData, nParity, size)
  {
    hide Dot, HoldsData, HoldsParity;
    if nData < 1 || nParity < 0 {
      return EncodeError;
    }
    if nData + nParity > 255 {
      return EncodeError;
    }
    var shardSize := ShardSize(|data|, nData);
    var need := nData * shardSize;
    ShardsCover(|data|, nData);
    FullPieces(Padded(data, need), shardSize, nData);
    var words := Pieces(Padded(data, need), shardSize, nData);
    forall i | 0 <= i < nData
      ensures ShardOf(words[i], i, words, nParity, shardSize)
    {
      DataShard(words, nParity, shardSize, i);
    }
    if nParity == 0 {
      assert words[..nData] == words;
      r := Encoded(Encoding(words, nData, 0, shardSize, |data|, sha256(data), "reed_solomon_v1"));
      EncodingBytes(data, nData, 0, r.encoding);
      return;
    }
    var P := ParityMatrix(gf, nData, nParity);
    var parity := ParityShards(gf, P.matrix, words, shardSize);
    var shards := words + parity;
    assert shards[..nData] == words;
    forall i | nData <= i < nData + nParity
      ensures ShardOf(shards[i], i, words, nParity, shardSize)
    {
      assert shards[i] == parity[i - nData];
    }
    r := Encoded(Encoding(shards, nData, nParity, shardSize, |data|, sha256(data), "reed_solomon_v1"));
    EncodingBytes(data, nData, nParity, r.encoding);
  }

  // ----- the shards that are there -----

  datatype Present = Present(index: nat, shard: Bytes)

  /** The present shards among the first n, in order. */
  function PresentUpTo(shards: seq<Option<Bytes>>, n: nat): seq<Present>
    requires n <= |shards|
  {
    if n == 0 then []
    else if shards[n - 1].Some? then PresentUpTo(shards, n - 1) + [Present(n - 1, shards[n - 1].value)]
    else PresentUpTo(shards, n - 1)
  }

  function AllPresent(shards: seq<Option<Bytes>>): seq<Present> {
    PresentUpTo(shards, |shards|)
  }

  ghost predicate AllData(shards: seq<Option<Bytes>>, nData: nat) {
    nData <= |shards| && forall i :: 0 <= i < nData ==> shards[i].Some?
  }

  function Values(shards: seq<Option<Bytes>>, n: nat): (words: seq<Bytes>)
    requires n <= |shards| && forall i :: 0 <= i < n ==> shards[i].Some?
    ensures |words| == n
  {
    seq(n, i requires 0 <= i < n => shards[i].value)
  }

  ghost predicate SizesMatch(shards: seq<Option<Bytes>>, size: int) {
    forall i :: 0 <= i < |shards| && shards[i].Some? ==> |shards[i].value| == size
  }

  lemma {:induction false} PresentFacts(shards: seq<Option<Bytes>>, n: nat)
    requires n <= |shards|
    ensures var ps := PresentUpTo(shards, n);
            && |ps| <= n
            && (forall k :: 0 <= k < |ps| ==>
                 ps[k].index < n && shards[ps[k].index] == Some(ps[k].shard))
            && (forall j, k :: 0 <= j < k < |ps| ==> ps[j].index < ps[k].index)
  {
    if n > 0 {
      PresentFacts(shards, n - 1);
    }
  }

  lemma {:induction false} PresentPrefix(shards: seq<Option<Bytes>>, m: nat, n: nat)
    requires m <= n <= |shards|
    ensures PresentUpTo(shards, m) <= PresentUpTo(shards, n)
    ensures forall k :: |PresentUpTo(shards, m)| <= k < |PresentUpTo(shards, n)| ==>
              PresentUpTo(shards, n)[k].index >= m
    decreases n
  {
    if m < n {
      PresentPrefix(shards, m, n - 1);
    }
  }

  /** Nothing is missing among the first m exactly when m shards are there. */
  lemma {:induction false} PresentComplete(shards: seq<Option<Bytes>>, m: nat)
    requires m <= |shards|
    ensures |PresentUpTo(shards, m)| == m <==> AllData(shards, m)
    ensures AllData(shards, m) ==>
              forall i :: 0 <= i < m ==> PresentUpTo(shards, m)[i] == Present(i, shards[i].value)
  {
    if m > 0 {
      PresentComplete(shards, m - 1);
      PresentFacts(shards, m - 1);
    }
  }

  // ----- what decode computes -----

  /** The chosen shards are generator rows of the data words. */
  ghost predicate Solves(words: seq<Bytes>, nData: int, nParity: int, size: int, chosen: seq<Present>) {
    && nParity >= 0 && nData + nParity <= 255
    && |words| == nData && Sized(words, size)
    && forall k :: 0 <= k < |chosen| ==>
         && chosen[k].index < nData + nParity
         && ShardOf(chosen[k].shard, chosen[k].index, words, nParity, size)
  }

  /** The whole contract of `decode`: when it gives up, when it raises, and what
      it returns otherwise, namely data words of which the first `nData` present
      shards are the generator rows. */
  ghost predicate DecodeSpec(shards: seq<Option<Bytes>>, nData: int, nParity: int, shardSize: int,
                             originalSize: int, r: DecodeResult) {
    var kept := Prefix(shards, nData + nParity);
    var present := AllPresent(kept);
    && (r.Nothing? <==> nData < 1 || !SizesMatch(kept, shardSize) || |present| < nData)
    && (r.ValueError? <==> !r.Nothing? && !AllData(kept, nData) && nParity > 0 && nData + nParity > 255)
    && (r.IndexError? <==> !r.Nothing? && !AllData(kept, nData) && nParity < 0)
    && (r.Decoded? && AllData(kept, nData) ==>
          r.data == Prefix(Join(Values(kept, nData)), originalSize))
    && (r.Decoded? && nParity >= 0 && nData + nParity <= 255 ==>
          exists words ::
            && Solves(words, nData, nParity, shardSize, present[..nData])
            && r.data == Prefix(Join(words), originalSize))
  }

  // ----- decode -----

  /** The first loop of `decode`: collect, or give up on a wrong size. */
  method CollectPresent(shards: seq<Option<Bytes>>, shardSize: int) returns (r: Option<seq<Present>>)
    ensures r.Some? <==> SizesMatch(shards, shardSize)
    ensures r.Some? ==> r.value == AllPresent(shards)
  {
    var present: seq<Present> := [];
    for i := 0 to |shards|
      invariant present == PresentUpTo(shards, i)
      invariant forall j :: 0 <= j < i && shards[j].Some? ==> |shards[j].value| == shardSize
    {
      if shards[i].Some? {
        if |shards[i].value| != shardSize {
          return None;
        }
        present := present + [Present(i, shards[i].value)];
      }
    }
    r := Some(present);
  }

  function Below(present: seq<Present>, n: nat): seq<Present> {
    if present == [] then []
    else
      var front, last := present[..|present| - 1], present[|present| - 1];
      if last.index < n then Below(front, n) + [last] else Below(front, n)
  }

  lemma {:induction false} BelowIsPrefix(shards: seq<Option<Bytes>>, m: nat, n: nat)
    requires n <= |shards|
    ensures Below(PresentUpTo(shards, n), m) == PresentUpTo(shards, Min(m, n))
  {
    if n > 0 {
      BelowIsPrefix(shards, m, n - 1);
      if shards[n - 1].Some? {
        var ps := PresentUpTo(shards, n);
        assert ps[..|ps| - 1] == PresentUpTo(shards, n - 1);
      }
    }
  }

  /** The short cut of `decode` when no data shard is missing. */
  method DataWords(shards: seq<Option<Bytes>>, present: seq<Present>, nData: nat) returns (r: Option<seq<Bytes>>)
    requires nData >= 1 && present == AllPresent(shards) && |present| >= nData
    ensures r.Some? <==> AllData(shards, nData)
    ensures r.Some? ==> r.value == Values(shards, nData)
  {
    PresentFacts(shards, |shards|);
    BelowIsPrefix(shards, nData, |shards|);
    var dataPresent := Below(present, nData);
    PresentComplete(shards, nData);
    if |dataPresent| >= nData {
      PresentFacts(shards, nData);
      var ordered: seq<Option<Bytes>> := seq(nData, _ => None);
      for k := 0 to |dataPresent|
        invariant |ordered| == nData
        invariant forall i :: 0 <= i < k ==> ordered[i] == shards[i]
      {
        ordered := ordered[dataPresent[k].index := Some(dataPresent[k].shard)];
      }
      if forall i :: 0 <= i < |ordered| ==> ordered[i].Some? {
        return Some(Values(ordered, nData));
      }
    }
    r := None;
  }

  /** The generator rows of the chosen shards, or an index past the parity
      matrix. */
  method GeneratorRows(P: Matrix, nData: nat, chosen: seq<Present>) returns (r: Option<Matrix>)
    requires Dim(P, |P|, nData)
    ensures r.Some? <==> forall k :: 0 <= k < |chosen| ==> chosen[k].index < nData + |P|
    ensures r.Some? ==> Dim(r.value, |chosen|, nData)
    ensures r.Some? ==> forall k :: 0 <= k < |chosen| ==>
              r.value[k] == GeneratorRow(P, nData, chosen[k].index)
  {
    var G: Matrix := [];
    for k := 0 to |chosen|
      invariant Dim(G, k, nData)
      invariant forall j :: 0 <= j < k ==> chosen[j].index < nData + |P|
      invariant forall j :: 0 <= j < k ==> G[j] == GeneratorRow(P, nData, chosen[j].index)
    {
      var i := chosen[k].index;
      var row: Vec := Zeros(nData);
      if i < nData {
        row := row[i := 1];
        assert row == UnitRow(i, nData);
      } else if i - nData < |P| {
        row := P[i - nData];
      } else {
        return None;
      }
      G := G + [row];
    }
    r := Some(G);
  }

  /** The chosen symbols at one offset. */
  function Symbols(chosen: seq<Present>, off: nat): (v: Vec)
    requires forall k :: 0 <= k < |chosen| ==> off < |chosen[k].shard|
    ensures |v| == |chosen|
  {
    seq(|chosen|, k requires 0 <= k < |chosen| => chosen[k].shard[off])
  }

  ghost predicate ShardsSized(chosen: seq<Present>, size: int) {
    forall k :: 0 <= k < |chosen| ==> |chosen[k].shard| == size
  }

  /** The last loop of `decode`: multiply by the inverse, offset by offset. */
  method Recover(gf: Tables, inv: Matrix, chosen: seq<Present>, size: nat) returns (words: seq<Bytes>)
    requires gf.Valid() && Dim(inv, |chosen|, |chosen|) && ShardsSized(chosen, size)
    ensures |words| == |chosen| && Sized(words, size)
    ensures forall off :: 0 <= off < size ==> Column(words, off) == MatVec(inv, Symbols(chosen, off))
  {
    hide Dot, MatVec;
    var n := |chosen|;
    words := seq(n, _ => Zeros(size));
    for off := 0 to size
      invariant |words| == n && Sized(words, size)
      invariant forall o :: 0 <= o < off ==> Column(words, o) == MatVec(inv, Symbols(chosen, o))
    {
      var syms := MatMulVec(gf, inv, Symbols(chosen, off));
      ghost var before := words;
      for d := 0 to n
        invariant |words| == n && Sized(words, size)
        invariant forall e, o :: 0 <= e < n && 0 <= o < off ==> words[e][o] == before[e][o]
        invariant forall e :: 0 <= e < d ==> words[e][off] == syms[e]
      {
        words := words[d := words[d][off := syms[d]]];
      }
      assert forall o :: 0 <= o < off ==> Column(words, o) == Column(before, o);
      assert Column(words, off) == syms;
    }
  }

  lemma InverseRow(G: Matrix, inv: Matrix, y: Vec, k: nat)
    requires Inverses(inv, G) && |y| == |G| && k < |y|
    ensures Dim(G, |G|, |G|) && Dim(inv, |G|, |G|)
    ensures Dot(G[k], MatVec(inv, y), |G|) == y[k]
  {
    hide Dot;
    assert MatVec(G, MatVec(inv, y))[k] == y[k];
  }

  /** Multiplying by the inverse solves the code equations. */
  lemma RecoveredSolves(G: Matrix, inv: Matrix, words: seq<Bytes>, nParity: nat, chosen: seq<Present>, size: nat)
    requires |words| == |chosen| && |chosen| + nParity <= 255
    requires ShardsSized(chosen, size) && Sized(words, size)
    requires forall k :: 0 <= k < |chosen| ==> chosen[k].index < |chosen| + nParity
    requires Dim(G, |chosen|, |chosen|) && Inverses(inv, G)
    requires forall k :: 0 <= k < |chosen| ==> G[k] == CodeRow(|chosen|, nParity, chosen[k].index)
    requires forall off :: 0 <= off < size ==> Column(words, off) == MatVec(inv, Symbols(chosen, off))
    ensures Solves(words, |chosen|, nParity, size, chosen)
  {
    hide Dot, CodeRow, Column, Inverses, MatVec;
    var n := |chosen|;
    forall k, off | 0 <= k < n && 0 <= off < size
      ensures chosen[k].shard[off] == Dot(CodeRow(n, nParity, chosen[k].index), Column(words, off), n)
    {
      InverseRow(G, inv, Symbols(chosen, off), k);
    }
  }

  lemma InverseDim(inv: Matrix, G: Matrix)
    requires Inverses(inv, G)
    ensures Dim(inv, |G|, |G|)
  {
  }

  /** The rows of different shards have no common kernel. */
  lemma RowsHaveNoKernel(G: Matrix, nParity: nat, chosen: seq<Present>, v: Vec)
    requires |chosen| + nParity <= 255 && Dim(G, |chosen|, |chosen|)
    requires forall k :: 0 <= k < |chosen| ==> chosen[k].index < |chosen| + nParity
    requires forall j, k :: 0 <= j < k < |chosen| ==> chosen[j].index < chosen[k].index
    requires forall k :: 0 <= k < |chosen| ==> G[k] == CodeRow(|chosen|, nParity, chosen[k].index)
    ensures !InKernel(G, v)
  {
    hide Dot;
    if InKernel(G, v) {
      var n := |chosen|;
      var rows := seq(n, k requires 0 <= k < n => chosen[k].index);
      forall k | 0 <= k < n
        ensures Dot(GeneratorRow(CauchyMatrix(n, nParity), n, rows[k]), v, n) == 0
      {
        assert MatVec(G, v)[k] == 0;
      }
      AnyRowsDetermine(CauchyMatrix(n, nParity), n, nParity, rows, v);
    }
  }

  /** The data shards themselves solve their own equations. */
  lemma DataSolves(shards: seq<Option<Bytes>>, nData: nat, nParity: nat, size: nat)
    requires nData + nParity <= 255 && AllData(shards, nData) && SizesMatch(shards, size)
    ensures nData <= |AllPresent(shards)|
    ensures Solves(Values(shards, nData), nData, nParity, size,
                   AllPresent(shards)[..nData])
  {
    hide Dot, ShardOf, PresentUpTo;
    var words := Values(shards, nData);
    PresentComplete(shards, nData);
    PresentPrefix(shards, nData, |shards|);
    var chosen := AllPresent(shards)[..nData];
    assert chosen == PresentUpTo(shards, nData);
    forall k | 0 <= k < nData
      ensures chosen[k].index == k && ShardOf(chosen[k].shard, k, words, nParity, size)
    {
      assert chosen[k] == Present(k, words[k]);
      DataShard(words, nParity, size, k);
    }
  }

  /** The second half of `decode`, for `nData` chosen shards of which some are
      parity shards; it is not reached without parity. */
  method DecodeMissing(gf: Tables, chosen: seq<Present>, nParity: int, size: nat, originalSize: int)
    returns (r: DecodeResult)
    requires gf.Valid() && |chosen| >= 1 && ShardsSized(chosen, size) && nParity != 0
    requires forall j, k :: 0 <= j < k < |chosen| ==> chosen[j].index < chosen[k].index
    requires nParity > 0 ==> forall k :: 0 <= k < |chosen| ==> chosen[k].index < |chosen| + nParity
    requires nParity < 0 ==> |chosen| + nParity < 0 && exists k :: 0 <= k < |chosen| && chosen[k].index >= |chosen|
    ensures r.ValueError? <==> nParity > 0 && |chosen| + nParity > 255
    ensures r.IndexError? <==> nParity < 0
    ensures !r.Nothing?
    ensures r.Decoded? && |chosen| + nParity <= 255 ==>
              exists words ::
                && Solves(words, |chosen|, nParity, size, chosen)
                && r.data == Prefix(Join(words), originalSize)
  {
    hide Dot, ShardOf, InKernel, Inverses, GeneratorRow, MatVec;
    var nData := |chosen|;
    var parity := ParityMatrix(gf, nData, nParity);
    if parity.ParityError? {
      return ValueError;
    }
    var P := parity.matrix;
    var rows := GeneratorRows(P, nData, chosen);
    if rows.None? {
      return IndexError;
    }
    var G := rows.value;
    var inversion := MatInvert(gf, G);
    if nData + nParity <= 255 {
      forall v
        ensures !InKernel(G, v)
      {
        RowsHaveNoKernel(G, nParity, chosen, v);
      }
    }
    if inversion.Singular? {
      return Nothing;
    }
    assert Dim(inversion.matrix, nData, nData) by { InverseDim(inversion.matrix, G); }
    var words := Recover(gf, inversion.matrix, chosen, size);
    if nData + nParity <= 255 {
      RecoveredSolves(G, inversion.matrix, words, nParity, chosen, size);
    }
    r := Decoded(Prefix(Join(words), originalSize));
  }

  /** `decode` */
  method Decode(gf: Tables, shards: seq<Option<Bytes>>, nData: int, nParity: int, shardSize: int, originalSize: int)
    returns (r: DecodeResult)
    requires gf.Valid()
    ensures DecodeSpec(shards, nData, nParity, shardSize, originalSize, r)
  {
    hide Dot, ShardOf, CauchyMatrix, Inverses, InKernel;
    if nData < 1 {
      return Nothing;
    }
    var total := nData + nParity;
    var kept := Prefix(shards, total);
    var collected := CollectPresent(kept, shardSize);
    if collected.None? {
      return Nothing;
    }
    var present := collected.value;
    if |present| < nData {
      return Nothing;
    }
    PresentFacts(kept, |kept|);
    assert shardSize == |present[0].shard|;
    var ordered := DataWords(kept, present, nData);
    if ordered.Some? {
      if nParity >= 0 && nData + nParity <= 255 {
        DataSolves(kept, nData, nParity, shardSize);
      }
      return Decoded(Prefix(Join(ordered.value), originalSize));
    }
    PresentPrefix(kept, Min(nData, |kept|), |kept|);
    PresentComplete(kept, Min(nData, |kept|));
    assert |kept| > nData;
    PresentFacts(kept, nData);
    assert present[nData - 1].index >= nData;
    r := DecodeMissing(gf, present[..nData], nParity, shardSize, originalSize);
  }

  // ----- the round trip -----

  lemma {:induction false} DotSum(u: Vec, v: Vec, w: Vec, n: nat)
    requires n <= |u| && n <= |v| == |w|
    ensures Dot(u, Sum(v, w), n) == Add(Dot(u, v, n), Dot(u, w, n))
  {
    hide Add, Mul;
    if n == 0 {
      AddSelf(0);
    } else {
      DotSum(u, v, w, n - 1);
      MulDistrib(u[n - 1], v[n - 1], w[n - 1]);
      AddSwap(Dot(u, v, n - 1), Dot(u, w, n - 1), Mul(u[n - 1], v[n - 1]), Mul(u[n - 1], w[n - 1]));
    }
  }

  lemma SumZero(v: Vec, w: Vec)
    requires |v| == |w| && Sum(v, w) == Zeros(|v|)
    ensures v == w
  {
    hide Add;
    forall i | 0 <= i < |v|
      ensures v[i] == w[i]
    {
      assert Sum(v, w)[i] == Zeros(|v|)[i];
      AddZero(v[i], w[i]);
    }
  }

  /** Two solutions agree at every offset. */
  lemma SameColumn(a: seq<Bytes>, b: seq<Bytes>, nData: nat, nParity: nat, size: int, chosen: seq<Present>, off: nat)
    requires |chosen| == nData && off < size
    requires forall j, k :: 0 <= j < k < nData ==> chosen[j].index < chosen[k].index
    requires Solves(a, nData, nParity, size, chosen) && Solves(b, nData, nParity, size, chosen)
    ensures Column(a, off) == Column(b, off)
  {
    hide Dot, GeneratorRow, Sum, Column;
    var v, w := Column(a, off), Column(b, off);
    var rows := seq(nData, k requires 0 <= k < nData => chosen[k].index);
    forall k | 0 <= k < nData
      ensures Dot(GeneratorRow(CauchyMatrix(nData, nParity), nData, rows[k]), Sum(v, w), nData) == 0
    {
      var row := CodeRow(nData, nParity, rows[k]);
      assert chosen[k].shard[off] == Dot(row, v, nData) == Dot(row, w, nData);
      DotSum(row, v, w, nData);
      AddSelf(Dot(row, v, nData));
    }
    AnyRowsDetermine(CauchyMatrix(nData, nParity), nData, nParity, rows, Sum(v, w));
    SumZero(v, w);
  }

  /** The code equations of `nData` shards have one solution. */
  lemma SolutionUnique(a: seq<Bytes>, b: seq<Bytes>, nData: nat, nParity: nat, size: int, chosen: seq<Present>)
    requires |chosen| == nData
    requires forall j, k :: 0 <= j < k < nData ==> chosen[j].index < chosen[k].index
    requires Solves(a, nData, nParity, size, chosen) && Solves(b, nData, nParity, size, chosen)
    ensures a == b
  {
    hide ShardOf;
    forall d | 0 <= d < nData
      ensures a[d] == b[d]
    {
      forall off | 0 <= off < size
        ensures a[d][off] == b[d][off]
      {
        SameColumn(a, b, nData, nParity, size, chosen, off);
        assert Column(a, off)[d] == Column(b, off)[d];
      }
    }
  }

  /** Shards that arrive, unaltered but possibly not all. */
  ghost predicate Survives(shards: seq<Option<Bytes>>, e: Encoding) {
    && |shards| == |e.shards|
    && forall i :: 0 <= i < |shards| && shards[i].Some? ==> shards[i].value == e.shards[i]
  }

  lemma AllPresentFacts(shards: seq<Option<Bytes>>)
    ensures var ps := AllPresent(shards);
            && (forall k :: 0 <= k < |ps| ==>
                 ps[k].index < |shards| && shards[ps[k].index] == Some(ps[k].shard))
            && (forall j, k :: 0 <= j < k < |ps| ==> ps[j].index < ps[k].index)
  {
    PresentFacts(shards, |shards|);
  }

  /** The law of the code: whichever `nData` or more shards survive, decoding
      returns the original bytes. */
  lemma RoundTrip(data: Bytes, nData: int, nParity: int, e: Encoding, shards: seq<Option<Bytes>>, r: DecodeResult)
    requires IsEncoding(data, nData, nParity, e)
    requires Survives(shards, e) && |AllPresent(shards)| >= nData
    requires DecodeSpec(shards, nData, nParity, e.shardSize, e.originalSize, r)
    ensures r == Decoded(data)
  {
    hide Dot, ShardOf, AllPresent;
    assert Prefix(shards, nData + nParity) == shards;
    assert SizesMatch(shards, e.shardSize);
    AllPresentFacts(shards);
    var chosen := AllPresent(shards)[..nData];
    var words :| Solves(words, nData, nParity, e.shardSize, chosen)
              && r.data == Prefix(Join(words), e.originalSize);
    assert Solves(e.shards[..nData], nData, nParity, e.shardSize, chosen);
    SolutionUnique(words, e.shards[..nData], nData, nParity, e.shardSize, chosen);
  }
}
