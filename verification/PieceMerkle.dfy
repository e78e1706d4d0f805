/** Merkle verification of pieces (`mods/asset_fabric/merkle_pieces.py`). */
module PieceMerkle {
  import opened ByteStrings
  import opened Options
  import opened Hashing
  import opened MerkleTree

  function PieceInput(hashHex: Text): Bytes {
    Ascii("AURORA_PIECE|") + Ascii(Lower(hashHex))
  }

  function PieceInputs(hashes: seq<Text>): (leaves: seq<Bytes>)
    ensures |leaves| == |hashes|
  {
    seq(|hashes|, i requires 0 <= i < |hashes| => PieceInput(hashes[i]))
  }

  function PieceLeaves(h: Hash, hashes: seq<Text>): (level: Level)
    ensures |level| == |hashes|
  {
    LeafLevel(h, PieceInputs(hashes))
  }

  function PieceRootHex(h: Hash, hashes: seq<Text>): Text {
    if hashes == [] then Hex(h(Ascii("AURORA_EMPTY_PIECES"))) else Hex(Root(h, PieceLeaves(h, hashes)))
  }

  /** `merkle_root_from_piece_hashes` */
  method PieceRoot(h: Hash, hashes: seq<Text>) returns (root: Text)
    ensures root == PieceRootHex(h, hashes)
  {
    if hashes == [] {
      return Hex(h(Ascii("AURORA_EMPTY_PIECES")));
    }
    var digest := MerkleRoot(h, PieceLeaves(h, hashes));
    root := Hex(digest);
  }

  /** What `verify_proof_only` answers; None when it raises. */
  function PieceVerdict(h: Hash, hashHex: Text, proof: seq<TextStep>, rootHex: Text): Option<bool> {
    match FoldText(h, h(PieceInput(hashHex)), proof)
    case None => None
    case Some(node) => Some(Hex(node) == Lower(rootHex))
  }

  /** `verify_proof_only` */
  method VerifyProofOnly(h: Hash, hashHex: Text, proof: seq<TextStep>, rootHex: Text) returns (r: Option<bool>)
    ensures r == PieceVerdict(h, hashHex, proof, rootHex)
  {
    var node := CheckText(h, h(PieceInput(hashHex)), proof);
    if node.None? {
      return None;
    }
    r := Some(Hex(node.value) == Lower(rootHex));
  }

  ghost predicate MatchesSlot(h: Hash, piece: Bytes, index: int, hashes: seq<Text>) {
    0 <= index < |hashes| && Hex(h(piece)) == Lower(hashes[index])
  }

  /** `verify_piece`.  Without a proof the receiver derives one from the
      manifest; then the answer is yes exactly when the piece matches its slot
      and the root is the manifest's root. */
  method VerifyPiece(h: Hash, piece: Bytes, index: int, hashes: seq<Text>, rootHex: Text, proof: Option<seq<TextStep>>)
    returns (r: Option<bool>)
    ensures !MatchesSlot(h, piece, index, hashes) ==> r == Some(false)
    ensures MatchesSlot(h, piece, index, hashes) && proof.Some? ==>
              r == PieceVerdict(h, Hex(h(piece)), proof.value, rootHex)
    ensures MatchesSlot(h, piece, index, hashes) && proof.None? ==>
              r == Some(PieceRootHex(h, hashes) == Lower(rootHex))
  {
    hide Hex, Lower, FoldText;
    if index < 0 || index >= |hashes| {
      return Some(false);
    }
    var digest := Hex(h(piece));
    if digest != Lower(hashes[index]) {
      return Some(false);
    }
    var steps: seq<TextStep>;
    if proof.Some? {
      steps := proof.value;
    } else {
      var derived := MerkleProof(h, PieceLeaves(h, hashes), index);
      steps := ToText(derived);
      TextProofFolds(h, PieceLeaves(h, hashes), index);
    }
    HexIsLower(h(piece));
    assert PieceInput(digest) == PieceInput(hashes[index]);
    r := VerifyProofOnly(h, digest, steps, rootHex);
  }

  /** Every string hashed by building the tree and by checking the proof. */
  ghost function HashedInputs(h: Hash, hashes: seq<Text>, hashHex: Text, proof: seq<TextStep>): set<Bytes>
    requires hashes != [] && DigestSiblings(proof)
  {
    TreeInputs(h, PieceInputs(hashes)) + {PieceInput(hashHex)}
    + FoldInputs(h, h(PieceInput(hashHex)), Parsed(proof))
  }

  /** A receiver that holds only the root accepts no hash that is not in the
      manifest, unless two of the strings hashed on the way collide. */
  lemma VerifiedPieceIsListed(h: Hash, hashes: seq<Text>, hashHex: Text, proof: seq<TextStep>)
    requires hashes != [] && DigestSiblings(proof)
    requires CollisionFree(h, HashedInputs(h, hashes, hashHex, proof))
    requires |hashHex| != 51 && forall i :: 0 <= i < |hashes| ==> |hashes[i]| != 51
    requires PieceVerdict(h, hashHex, proof, PieceRootHex(h, hashes)) == Some(true)
    ensures exists i :: 0 <= i < |hashes| && Lower(hashes[i]) == Lower(hashHex)
  {
    hide Root, FoldText, Lower;
    var leaves := PieceInputs(hashes);
    var x := PieceInput(hashHex);
    assert forall i :: 0 <= i < |leaves| ==> |leaves[i]| == 13 + |hashes[i]|;
    FoldTextIsFold(h, h(x), proof);
    HexIsLower(Root(h, PieceLeaves(h, hashes)));
    HexInjective(Fold(h, h(x), Parsed(proof)), Root(h, PieceLeaves(h, hashes)));
    FoldIsSound(h, leaves, x, Parsed(proof));
    var i :| 0 <= i < |leaves| && leaves[i] == x;
    assert x[13..] == Ascii(Lower(hashHex)) && leaves[i][13..] == Ascii(Lower(hashes[i]));
    AsciiInjective(Lower(hashes[i]), Lower(hashHex));
  }

  /** The roots of up to two piece hashes, written out; case does not matter. */
  lemma SmallPieceRoots(h: Hash, a: Text, b: Text)
    requires forall i :: 0 <= i < |a| ==> !('A' <= a[i] <= 'Z')
    requires forall i :: 0 <= i < |b| ==> !('A' <= b[i] <= 'Z')
    ensures PieceRootHex(h, []) == Hex(h(Ascii("AURORA_EMPTY_PIECES")))
    ensures var x: Bytes, y: Bytes := h(Ascii("AURORA_PIECE|" + a)), h(Ascii("AURORA_PIECE|" + b));
            PieceRootHex(h, [a]) == Hex(x) && PieceRootHex(h, [a, b]) == Hex(h(x + y))
  {
    hide Hex;
    LowerOfLower(a);
    LowerOfLower(b);
    assert PieceInput(a) == Ascii("AURORA_PIECE|" + a) && PieceInput(b) == Ascii("AURORA_PIECE|" + b);
    var two := PieceLeaves(h, [a, b]);
    assert Root(h, two) == NextLevel(h, two)[0];
  }
}
