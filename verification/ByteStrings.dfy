/** Byte strings and the Python operations on them that the other modules use:
    slicing with clamped bounds, `b"".join`, and cutting into pieces. */
module ByteStrings {
  import opened GF256

  type Bytes = seq<byte>

  /** `b"".join(parts)` */
  function Join(parts: seq<Bytes>): Bytes {
    if parts == [] then [] else parts[0] + Join(parts[1..])
  }

  function Min(a: int, b: int): int {
    if a <= b then a else b
  }

  /** `xs[lo:hi]` for bounds that are not negative. */
  function Slice<T>(xs: seq<T>, lo: nat, hi: nat): (s: seq<T>)
    requires lo <= hi
  {
    xs[Min(lo, |xs|)..Min(hi, |xs|)]
  }

  /** `xs[:n]`, for negative n too. */
  function Prefix<T>(xs: seq<T>, n: int): (p: seq<T>)
    ensures p <= xs
    ensures 0 <= n ==> |p| == Min(n, |xs|)
  {
    if n >= |xs| then xs
    else if n >= 0 then xs[..n]
    else if |xs| + n >= 0 then xs[..|xs| + n]
    else []
  }

  /** `data[i * size : (i + 1) * size]` */
  function Piece(data: Bytes, size: nat, i: nat): (p: Bytes) {
    Slice(data, i * size, i * size + size)
  }

  lemma PieceSize(data: Bytes, size: nat, i: nat)
    ensures |Piece(data, size, i)| <= size
    ensures (i + 1) * size <= |data| ==> |Piece(data, size, i)| == size
  {
    assert (i + 1) * size == i * size + size;
  }

  function Pieces(data: Bytes, size: nat, n: nat): (ps: seq<Bytes>)
    ensures |ps| == n
  {
    seq(n, i requires 0 <= i => Piece(data, size, i))
  }

  lemma {:induction false} JoinSnoc(parts: seq<Bytes>, part: Bytes)
    ensures Join(parts + [part]) == Join(parts) + part
  {
    if parts == [] {
      assert parts + [part] == [part] && [part][1..] == [];
    } else {
      JoinSnoc(parts[1..], part);
      assert (parts + [part])[1..] == parts[1..] + [part];
    }
  }

  lemma PrefixGrows(data: Bytes, lo: nat, size: nat)
    ensures Prefix(data, lo) + Slice(data, lo, lo + size) == Prefix(data, lo + size)
  {
  }

  lemma PiecesSnoc(data: Bytes, size: nat, n: nat)
    ensures Pieces(data, size, n + 1) == Pieces(data, size, n) + [Piece(data, size, n)]
  {
    hide Piece;
  }

  /** The first n pieces joined are the first n * size bytes. */
  lemma {:induction false} JoinPieces(data: Bytes, size: nat, n: nat)
    ensures Join(Pieces(data, size, n)) == Prefix(data, n * size)
  {
    if n > 0 {
      hide Join, Pieces, Prefix, Slice;
      JoinPieces(data, size, n - 1);
      PiecesSnoc(data, size, n - 1);
      JoinSnoc(Pieces(data, size, n - 1), Piece(data, size, n - 1));
      var lo := (n - 1) * size;
      assert n * size == lo + size;
      PrefixGrows(data, lo, size);
    }
  }

  lemma ScaleMonotone(a: nat, b: nat, size: nat)
    requires a <= b
    ensures a * size <= b * size
  {
    assert b * size == a * size + (b - a) * size;
  }
}
