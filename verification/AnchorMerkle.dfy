/** Merkle batching of asset commitments (`mods/btc_anchor/merkle.py`). */
module AnchorMerkle {
  import opened ByteStrings
  import opened Options
  import opened Hashing
  import opened MerkleTree

  // ----- leaves -----

  /** `s.replace("0x", "")` */
  function Strip0x(s: Text): Text {
    if |s| < 2 then s
    else if s[0] == '0' && s[1] == 'x' then Strip0x(s[2..])
    else [s[0]] + Strip0x(s[1..])
  }

  /** The commitment as it enters the leaf. */
  function Normal(commitment: Text): Text {
    Strip0x(Lower(commitment))
  }

  function LeafInput(commitment: Text): Bytes {
    Ascii("AURORA_LEAF|") + Ascii(Normal(commitment))
  }

  function LeafInputs(commitments: seq<Text>): (leaves: seq<Bytes>)
    ensures |leaves| == |commitments|
  {
    seq(|commitments|, i requires 0 <= i < |commitments| => LeafInput(commitments[i]))
  }

  function LeafHashes(h: Hash, commitments: seq<Text>): (level: Level)
    ensures |level| == |commitments|
  {
    LeafLevel(h, LeafInputs(commitments))
  }

  // ----- root, proof and check -----

  function RootHex(h: Hash, commitments: seq<Text>): Text {
    if commitments == [] then Hex(h(Ascii("AURORA_EMPTY"))) else Hex(Root(h, LeafHashes(h, commitments)))
  }

  /** `merkle_root` */
  method CommitmentRoot(h: Hash, commitments: seq<Text>) returns (root: Text)
    ensures root == RootHex(h, commitments)
  {
    if commitments == [] {
      return Hex(h(Ascii("AURORA_EMPTY")));
    }
    var digest := MerkleRoot(h, LeafHashes(h, commitments));
    root := Hex(digest);
  }

  function ProofText(h: Hash, commitments: seq<Text>, index: nat): seq<TextStep>
    requires index < |commitments|
  {
    ToText(Proof(h, LeafHashes(h, commitments), index))
  }

  /** `merkle_proof`; an index outside the list raises IndexError. */
  method CommitmentProof(h: Hash, commitments: seq<Text>, index: int) returns (r: Option<seq<TextStep>>)
    ensures r.None? <==> index < 0 || index >= |commitments|
    ensures r.Some? ==> r.value == ProofText(h, commitments, index)
  {
    if index < 0 || index >= |commitments| {
      return None;
    }
    var steps := MerkleProof(h, LeafHashes(h, commitments), index);
    r := Some(ToText(steps));
  }

  /** What `verify_proof` answers; None when it raises. */
  function Verdict(h: Hash, commitment: Text, proof: seq<TextStep>, rootHex: Text): Option<bool> {
    match FoldText(h, h(LeafInput(commitment)), proof)
    case None => None
    case Some(node) => Some(Hex(node) == Lower(rootHex))
  }

  /** `verify_proof` */
  method VerifyProof(h: Hash, commitment: Text, proof: seq<TextStep>, rootHex: Text) returns (r: Option<bool>)
    ensures r == Verdict(h, commitment, proof, rootHex)
  {
    var node := CheckText(h, h(LeafInput(commitment)), proof);
    if node.None? {
      return None;
    }
    r := Some(Hex(node.value) == Lower(rootHex));
  }

  // ----- completeness and soundness -----

  /** Every commitment of a batch passes the check with its own proof. */
  lemma ProofVerifies(h: Hash, commitments: seq<Text>, index: nat)
    requires index < |commitments|
    ensures Verdict(h, commitments[index], ProofText(h, commitments, index), RootHex(h, commitments)) == Some(true)
  {
    var level := LeafHashes(h, commitments);
    TextProofFolds(h, level, index);
    HexIsLower(Root(h, level));
  }

  /** Every string hashed by building the tree and by checking the proof. */
  ghost function HashedInputs(h: Hash, commitments: seq<Text>, commitment: Text, proof: seq<TextStep>): set<Bytes>
    requires commitments != [] && DigestSiblings(proof)
  {
    TreeInputs(h, LeafInputs(commitments)) + {LeafInput(commitment)}
    + FoldInputs(h, h(LeafInput(commitment)), Parsed(proof))
  }

  /** A commitment that passes the check against the root of a batch is in the
      batch, up to case and "0x", unless two of the strings hashed on the way
      collide.  A leaf of 52 characters could be mistaken for an inner node;
      commitments have 64. */
  lemma VerifiedIsMember(h: Hash, commitments: seq<Text>, commitment: Text, proof: seq<TextStep>)
    requires commitments != [] && DigestSiblings(proof)
    requires CollisionFree(h, HashedInputs(h, commitments, commitment, proof))
    requires |Normal(commitment)| != 52 && forall i :: 0 <= i < |commitments| ==> |Normal(commitments[i])| != 52
    requires Verdict(h, commitment, proof, RootHex(h, commitments)) == Some(true)
    ensures exists i :: 0 <= i < |commitments| && Normal(commitments[i]) == Normal(commitment)
  {
    hide Normal, Root, FoldText;
    var leaves := LeafInputs(commitments);
    var x := LeafInput(commitment);
    assert forall i :: 0 <= i < |leaves| ==> |leaves[i]| == 12 + |Normal(commitments[i])|;
    FoldTextIsFold(h, h(x), proof);
    HexIsLower(Root(h, LeafHashes(h, commitments)));
    HexInjective(Fold(h, h(x), Parsed(proof)), Root(h, LeafHashes(h, commitments)));
    FoldIsSound(h, leaves, x, Parsed(proof));
    var i :| 0 <= i < |leaves| && leaves[i] == x;
    assert x[12..] == Ascii(Normal(commitment)) && leaves[i][12..] == Ascii(Normal(commitments[i]));
    AsciiInjective(Normal(commitments[i]), Normal(commitment));
  }

  lemma {:induction false} NothingToStrip(s: Text)
    requires 'x' !in s
    ensures Strip0x(s) == s
  {
    if |s| >= 2 {
      NothingToStrip(s[1..]);
    }
  }

  /** Hexadecimal digits, 64 of them in a commitment, all enter the leaf. */
  lemma HexIsKept(commitment: Text)
    requires forall i :: 0 <= i < |commitment| ==> DigitValue(commitment[i]).Some?
    ensures Normal(commitment) == Lower(commitment)
  {
    assert forall i :: 0 <= i < |commitment| ==> Lower(commitment)[i] != 'x';
    NothingToStrip(Lower(commitment));
  }

  lemma PlainChars()
    ensures LowerChar('0') == '0' && LowerChar('x') == 'x'
  {
  }

  lemma LeadingIsDropped(a: Text)
    ensures Normal("0x" + a) == Normal(a)
  {
    hide LowerChar;
    var s := Lower("0x" + a);
    assert LowerChar('0') == '0' && LowerChar('x') == 'x' by { PlainChars(); }
    assert s[2..] == Lower(a);
  }

  /** Two hexadecimal commitments share a leaf exactly when they differ in nothing
      but the case of letters; a leading "0x" makes no difference. */
  lemma SameLeafExactlyWhen(a: Text, b: Text)
    requires forall i :: 0 <= i < |a| ==> DigitValue(a[i]).Some?
    requires forall i :: 0 <= i < |b| ==> DigitValue(b[i]).Some?
    ensures LeafInput(a) == LeafInput(b) <==> SameLetters(a, b)
    ensures LeafInput("0x" + a) == LeafInput(a)
  {
    hide Normal, SameLetters, Lower, DigitValue;
    HexIsKept(a);
    HexIsKept(b);
    LowerExactlyWhen(a, b);
    LeadingIsDropped(a);
    assert LeafInput(a)[12..] == Ascii(Normal(a)) && LeafInput(b)[12..] == Ascii(Normal(b));
    if LeafInput(a) == LeafInput(b) {
      AsciiInjective(Normal(a), Normal(b));
    }
  }

  lemma NodeIsJoined(h: Hash, level: Level, k: nat)
    requires 2 * k < |level|
    ensures var left: Bytes := level[2 * k];
            var right: Bytes := level[if 2 * k + 1 < |level| then 2 * k + 1 else 2 * k];
            NextLevel(h, level)[k] == h(left + right)
  {
  }

  /** The roots of up to three commitments, written out. */
  lemma SmallRoots(h: Hash, a: Text, b: Text, c: Text)
    ensures RootHex(h, []) == Hex(h(Ascii("AURORA_EMPTY")))
    ensures var x: Bytes := h(Ascii("AURORA_LEAF|") + Ascii(Normal(a)));
            var y: Bytes := h(Ascii("AURORA_LEAF|") + Ascii(Normal(b)));
            var z: Bytes := h(Ascii("AURORA_LEAF|") + Ascii(Normal(c)));
            var xy: Bytes, zz: Bytes := h(x + y), h(z + z);
            && RootHex(h, [a]) == Hex(x)
            && RootHex(h, [a, b]) == Hex(xy)
            && RootHex(h, [a, b, c]) == Hex(h(xy + zz))
  {
    hide Normal, Hex;
    var one, two, three := LeafHashes(h, [a]), LeafHashes(h, [a, b]), LeafHashes(h, [a, b, c]);
    NodeIsJoined(h, two, 0);
    NodeIsJoined(h, three, 0);
    NodeIsJoined(h, three, 1);
    var up := NextLevel(h, three);
    NodeIsJoined(h, up, 0);
    assert Root(h, two) == NextLevel(h, two)[0];
    assert Root(h, three) == Root(h, up) == NextLevel(h, up)[0];
  }
}
