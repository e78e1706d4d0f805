/** The odd-duplicating Merkle tree that `mods/btc_anchor/merkle.py` and
    `mods/asset_fabric/merkle_pieces.py` build with the same loops: root,
    inclusion proof and the fold that checks a proof.

    Main results: a proof made for a leaf folds to the root (`ProofFolds`), and
    nothing else folds to it unless two of the strings that were hashed collide
    (`FoldIsSound`). */
module MerkleTree {
  import opened ByteStrings
  import opened Options
  import opened Hashing

  type Level = seq<Digest>

  /** A parsed proof step: the sibling and whether it stands on the right. */
  datatype Step = Step(sibling: Bytes, right: bool)

  // ----- the tree -----

  function Concat(a: Bytes, b: Bytes): Bytes {
    a + b
  }

  /** The hashed string of node k of the next level. */
  function PairInput(level: Level, k: nat): (x: Bytes)
    requires 2 * k < |level|
    ensures |x| == 64
  {
    Concat(level[2 * k], level[if 2 * k + 1 < |level| then 2 * k + 1 else 2 * k])
  }

  function PairHash(h: Hash, level: Level, k: nat): Digest
    requires 2 * k < |level|
  {
    h(PairInput(level, k))
  }

  function NextLevel(h: Hash, level: Level): (next: Level)
    ensures |next| == (|level| + 1) / 2
  {
    seq((|level| + 1) / 2, k requires 0 <= k < (|level| + 1) / 2 => PairHash(h, level, k))
  }

  function Root(h: Hash, level: Level): Digest
    requires level != []
    decreases |level|
  {
    if |level| == 1 then level[0] else Root(h, NextLevel(h, level))
  }

  /** The sibling of node idx. */
  function Sibling(level: Level, idx: nat): Step
    requires idx < |level|
  {
    if idx % 2 == 1 then Step(level[idx - 1], false)
    else Step(level[if idx + 1 < |level| then idx + 1 else idx], true)
  }

  function Proof(h: Hash, level: Level, idx: nat): seq<Step>
    requires idx < |level|
    decreases |level|
  {
    if |level| == 1 then [] else [Sibling(level, idx)] + Proof(h, NextLevel(h, level), idx / 2)
  }

  /** The string hashed at one step of the check. */
  function StepInput(node: Digest, step: Step): Bytes {
    if step.right then Concat(node, step.sibling) else Concat(step.sibling, node)
  }

  function Fold(h: Hash, node: Digest, steps: seq<Step>): Digest
    decreases |steps|
  {
    if steps == [] then node else Fold(h, h(StepInput(node, steps[0])), steps[1..])
  }

  // ----- the loops -----

  /** One pass of the inner loop over a level. */
  method BuildLevel(h: Hash, level: Level) returns (nxt: Level)
    ensures nxt == NextLevel(h, level)
  {
    nxt := [];
    var i := 0;
    while i < |level|
      invariant i == 2 * |nxt| && i <= |level| + 1
      invariant forall k :: 0 <= k < |nxt| ==> nxt[k] == h(PairInput(level, k))
    {
      var left := level[i];
      var right := if i + 1 < |level| then level[i + 1] else left;
      nxt := nxt + [h(Concat(left, right))];
      i := i + 2;
    }
  }

  /** `merkle_root` above the leaves. */
  method MerkleRoot(h: Hash, leaves: Level) returns (root: Digest)
    requires leaves != []
    ensures root == Root(h, leaves)
  {
    var level := leaves;
    while |level| > 1
      invariant level != [] && Root(h, level) == Root(h, leaves)
      decreases |level|
    {
      level := BuildLevel(h, level);
    }
    root := level[0];
  }

  /** The inner loop of `merkle_proof`: it builds the next level, records the
      sibling when it passes the tracked node, and moves the index up at that
      moment. */
  method BuildLevelTracking(h: Hash, level: Level, index: nat) returns (nxt: Level, idx: nat, step: Step)
    requires index < |level|
    ensures nxt == NextLevel(h, level)
    ensures idx == index / 2
    ensures step == Sibling(level, index)
  {
    nxt := [];
    idx := index;
    step := Step([], true);
    var found := false;
    var i := 0;
    while i < |level|
      invariant i == 2 * |nxt| && i <= |level| + 1
      invariant forall k :: 0 <= k < |nxt| ==> nxt[k] == h(PairInput(level, k))
      invariant found <==> index < i
      invariant idx == if found then index / 2 else index
      invariant found ==> step == Sibling(level, index)
    {
      var left := level[i];
      var right := if i + 1 < |level| then level[i + 1] else left;
      if i == idx || i + 1 == idx {
        if idx == i {
          step := Step(right, true);
        } else {
          step := Step(left, false);
        }
        idx := |nxt|;
        found := true;
      }
      nxt := nxt + [h(Concat(left, right))];
      i := i + 2;
    }
  }

  /** `merkle_proof` above the leaves. */
  method MerkleProof(h: Hash, leaves: Level, index: nat) returns (proof: seq<Step>)
    requires index < |leaves|
    ensures proof == Proof(h, leaves, index)
  {
    var level: Level, idx: nat := leaves, index;
    proof := [];
    while |level| > 1
      invariant idx < |level|
      invariant proof + Proof(h, level, idx) == Proof(h, leaves, index)
      decreases |level|
    {
      var nxt, up, step := BuildLevelTracking(h, level, idx);
      assert Proof(h, level, idx) == [step] + Proof(h, nxt, up);
      proof := proof + [step];
      level, idx := nxt, up;
    }
  }

  // ----- completeness -----

  lemma SiblingFolds(h: Hash, level: Level, idx: nat)
    requires idx < |level|
    ensures StepInput(level[idx], Sibling(level, idx)) == PairInput(level, idx / 2)
  {
  }

  /** The proof made for a node folds to the root. */
  lemma {:induction false} ProofFolds(h: Hash, level: Level, idx: nat)
    requires idx < |level|
    ensures Fold(h, level[idx], Proof(h, level, idx)) == Root(h, level)
    decreases |level|
  {
    if |level| > 1 {
      SiblingFolds(h, level, idx);
      ProofFolds(h, NextLevel(h, level), idx / 2);
      assert Proof(h, level, idx)[1..] == Proof(h, NextLevel(h, level), idx / 2);
    }
  }

  // ----- soundness -----

  /** All levels from the leaves to the root. */
  ghost function Tower(h: Hash, level: Level): (t: seq<Level>)
    requires level != []
    ensures |t| > 0 && t[0] == level && t[|t| - 1] == [Root(h, level)]
    ensures forall j :: 0 <= j < |t| - 1 ==> t[j + 1] == NextLevel(h, t[j])
    decreases |level|
  {
    if |level| == 1 then [level] else [level] + Tower(h, NextLevel(h, level))
  }

  function LeafLevel(h: Hash, leaves: seq<Bytes>): (level: Level)
    ensures |level| == |leaves|
  {
    seq(|leaves|, i requires 0 <= i < |leaves| => h(leaves[i]))
  }

  ghost function PairInputs(level: Level): set<Bytes> {
    set k | 0 <= k < (|level| + 1) / 2 :: PairInput(level, k)
  }

  /** The strings hashed above a level. */
  ghost function NodeInputs(h: Hash, level: Level): set<Bytes>
    decreases |level|
  {
    if |level| <= 1 then {} else PairInputs(level) + NodeInputs(h, NextLevel(h, level))
  }

  /** Every string hashed while building the tree over the leaf inputs. */
  ghost function TreeInputs(h: Hash, leaves: seq<Bytes>): set<Bytes> {
    (set i | 0 <= i < |leaves| :: leaves[i]) + NodeInputs(h, LeafLevel(h, leaves))
  }

  /** Every string hashed while checking a proof. */
  ghost function FoldInputs(h: Hash, node: Digest, steps: seq<Step>): set<Bytes>
    decreases |steps|
  {
    if steps == [] then {}
    else
      var x := StepInput(node, steps[0]);
      {x} + FoldInputs(h, h(x), steps[1..])
  }

  lemma {:induction false} FoldSnoc(h: Hash, node: Digest, steps: seq<Step>)
    requires steps != []
    ensures var front, last := steps[..|steps| - 1], steps[|steps| - 1];
            var x := StepInput(Fold(h, node, front), last);
            && Fold(h, node, steps) == h(x)
            && FoldInputs(h, node, steps) == FoldInputs(h, node, front) + {x}
    decreases |steps|
  {
    var front := steps[..|steps| - 1];
    if |steps| == 1 {
      assert steps[1..] == [];
    } else {
      FoldSnoc(h, h(StepInput(node, steps[0])), steps[1..]);
      assert steps[1..][..|steps| - 2] == front[1..];
    }
  }

  lemma SameInput(h: Hash, all: set<Bytes>, a: Bytes, b: Bytes)
    requires CollisionFree(h, all) && a in all && b in all && h(a) == h(b)
    ensures a == b
  {
  }

  lemma FewerInputs(h: Hash, some: set<Bytes>, all: set<Bytes>)
    requires CollisionFree(h, all) && some <= all
    ensures CollisionFree(h, some)
  {
  }

  lemma LeafHashed(h: Hash, leaves: seq<Bytes>, k: nat)
    requires k < |leaves|
    ensures leaves[k] in TreeInputs(h, leaves) && LeafLevel(h, leaves)[k] == h(leaves[k])
  {
    hide NodeInputs, PairInput;
  }

  lemma NodesAmongInputs(h: Hash, leaves: seq<Bytes>)
    ensures NodeInputs(h, LeafLevel(h, leaves)) <= TreeInputs(h, leaves)
  {
    hide NodeInputs;
  }

  lemma TowerFacts(h: Hash, level: Level)
    requires level != []
    ensures var t := Tower(h, level);
            && |t| > 0 && t[0] == level && t[|t| - 1] == [Root(h, level)]
            && forall j :: 0 <= j < |t| - 1 ==> t[j + 1] == NextLevel(h, t[j])
  {
  }

  lemma FoldNothing(h: Hash, node: Digest)
    ensures Fold(h, node, []) == node
  {
  }

  /** The last string hashed by a check. */
  ghost function LastInput(h: Hash, node: Digest, steps: seq<Step>): (y: Bytes)
    requires steps != []
    requires forall s :: 0 <= s < |steps| ==> |steps[s].sibling| == 32
    ensures |y| == 64
    ensures y == StepInput(Fold(h, node, steps[..|steps| - 1]), steps[|steps| - 1])
    ensures h(y) == Fold(h, node, steps)
    ensures y in FoldInputs(h, node, steps)
    ensures FoldInputs(h, node, steps[..|steps| - 1]) <= FoldInputs(h, node, steps)
  {
    FoldSnoc(h, node, steps);
    StepInput(Fold(h, node, steps[..|steps| - 1]), steps[|steps| - 1])
  }

  lemma {:induction false} PairInputHashed(h: Hash, level: Level, j: nat, k: nat)
    requires level != [] && j + 1 < |Tower(h, level)| && k < |Tower(h, level)[j + 1]|
    ensures var t := Tower(h, level);
            && |t[j + 1]| == (|t[j]| + 1) / 2
            && t[j + 1][k] == h(PairInput(t[j], k))
            && PairInput(t[j], k) in NodeInputs(h, level)
    decreases j
  {
    hide PairInput;
    if j > 0 {
      PairInputHashed(h, NextLevel(h, level), j - 1, k);
    }
  }

  /** Equal strings of two digests have equal halves. */
  lemma Halves(level: Level, k: nat, node: Digest, step: Step)
    requires 2 * k < |level| && |step.sibling| == 32
    requires PairInput(level, k) == StepInput(node, step)
    ensures node in level
  {
    var x := PairInput(level, k);
    assert x[..32] == level[2 * k];
    assert x[32..] == level[if 2 * k + 1 < |level| then 2 * k + 1 else 2 * k];
    if step.right {
      assert x[..32] == node;
    } else {
      assert x[32..] == node;
    }
  }

  /** Whatever folds to some node of level j started from a leaf input. */
  lemma {:induction false} FoldIntoLevel(h: Hash, leaves: seq<Bytes>, x: Bytes, steps: seq<Step>, j: nat)
    requires leaves != []
    requires CollisionFree(h, TreeInputs(h, leaves) + {x} + FoldInputs(h, h(x), steps))
    requires |x| != 64 && forall i :: 0 <= i < |leaves| ==> |leaves[i]| != 64
    requires forall s :: 0 <= s < |steps| ==> |steps[s].sibling| == 32
    requires j < |Tower(h, LeafLevel(h, leaves))|
    requires Fold(h, h(x), steps) in Tower(h, LeafLevel(h, leaves))[j]
    ensures x in leaves
    decreases |steps|
  {
    hide Tower, Root, PairInput, TreeInputs, NodeInputs, CollisionFree, Fold, FoldInputs;
    var t := Tower(h, LeafLevel(h, leaves));
    TowerFacts(h, LeafLevel(h, leaves));
    var all := TreeInputs(h, leaves) + {x} + FoldInputs(h, h(x), steps);
    var node := Fold(h, h(x), steps);
    FoldNothing(h, h(x));
    var y := if steps == [] then x else LastInput(h, h(x), steps);
    var k :| 0 <= k < |t[j]| && t[j][k] == node;
    if j == 0 {
      LeafHashed(h, leaves, k);
      SameInput(h, all, leaves[k], y);
    } else {
      PairInputHashed(h, LeafLevel(h, leaves), j - 1, k);
      NodesAmongInputs(h, leaves);
      SameInput(h, all, PairInput(t[j - 1], k), y);
      var front, last := steps[..|steps| - 1], steps[|steps| - 1];
      Halves(t[j - 1], k, Fold(h, h(x), front), last);
      FewerInputs(h, TreeInputs(h, leaves) + {x} + FoldInputs(h, h(x), front), all);
      FoldIntoLevel(h, leaves, x, front, j - 1);
    }
  }

  /** Soundness: a check of any length that ends at the root of a tree started
      from one of its leaf inputs, unless two of the strings hashed collide. */
  lemma FoldIsSound(h: Hash, leaves: seq<Bytes>, x: Bytes, steps: seq<Step>)
    requires leaves != []
    requires CollisionFree(h, TreeInputs(h, leaves) + {x} + FoldInputs(h, h(x), steps))
    requires |x| != 64 && forall i :: 0 <= i < |leaves| ==> |leaves[i]| != 64
    requires forall s :: 0 <= s < |steps| ==> |steps[s].sibling| == 32
    requires Fold(h, h(x), steps) == Root(h, LeafLevel(h, leaves))
    ensures x in leaves
  {
    var t := Tower(h, LeafLevel(h, leaves));
    FoldIntoLevel(h, leaves, x, steps, |t| - 1);
  }

  // ----- proofs as text -----

  /** A step as it is stored and sent: sibling in hexadecimal, side 'L' or 'R'. */
  type TextStep = (Text, Text)

  function StepText(step: Step): TextStep {
    (Hex(step.sibling), if step.right then "R" else "L")
  }

  function ToText(steps: seq<Step>): (proof: seq<TextStep>)
    ensures |proof| == |steps|
  {
    seq(|steps|, i requires 0 <= i < |steps| => StepText(steps[i]))
  }

  /** Any side but "R" counts as left; a malformed sibling raises. */
  function FoldText(h: Hash, node: Digest, proof: seq<TextStep>): Option<Digest>
    decreases |proof|
  {
    if proof == [] then Some(node)
    else
      match FromHex(proof[0].0)
      case None => None
      case Some(sib) => FoldText(h, h(StepInput(node, Step(sib, proof[0].1 == "R"))), proof[1..])
  }

  /** The loop shared by `verify_proof`, `verify_piece` and `verify_proof_only`. */
  method CheckText(h: Hash, start: Digest, proof: seq<TextStep>) returns (r: Option<Digest>)
    ensures r == FoldText(h, start, proof)
  {
    var node: Digest := start;
    for i := 0 to |proof|
      invariant FoldText(h, node, proof[i..]) == FoldText(h, start, proof)
    {
      var sib := FromHex(proof[i].0);
      assert proof[i..][1..] == proof[i + 1..];
      if sib.None? {
        return None;
      }
      node := if proof[i].1 == "R" then h(Concat(node, sib.value)) else h(Concat(sib.value, node));
    }
    r := Some(node);
  }

  ghost predicate DigestSiblings(proof: seq<TextStep>) {
    forall i :: 0 <= i < |proof| ==> FromHex(proof[i].0).Some? && |FromHex(proof[i].0).value| == 32
  }

  ghost function Parsed(proof: seq<TextStep>): (steps: seq<Step>)
    requires DigestSiblings(proof)
    ensures |steps| == |proof|
    ensures forall i :: 0 <= i < |steps| ==> |steps[i].sibling| == 32
  {
    seq(|proof|, i requires 0 <= i < |proof| => Step(FromHex(proof[i].0).value, proof[i].1 == "R"))
  }

  lemma {:induction false} FoldTextIsFold(h: Hash, node: Digest, proof: seq<TextStep>)
    requires DigestSiblings(proof)
    ensures FoldText(h, node, proof) == Some(Fold(h, node, Parsed(proof)))
    decreases |proof|
  {
    if proof != [] {
      assert Parsed(proof)[1..] == Parsed(proof[1..]);
      FoldTextIsFold(h, h(StepInput(node, Parsed(proof)[0])), proof[1..]);
    }
  }

  lemma ToTextParses(steps: seq<Step>)
    requires forall i :: 0 <= i < |steps| ==> |steps[i].sibling| == 32
    ensures DigestSiblings(ToText(steps)) && Parsed(ToText(steps)) == steps
  {
    hide Hex, FromHex;
    forall i | 0 <= i < |steps|
      ensures FromHex(ToText(steps)[i].0) == Some(steps[i].sibling)
      ensures (ToText(steps)[i].1 == "R") == steps[i].right
    {
      HexRoundTrip(steps[i].sibling);
      assert "L"[0] != "R"[0];
    }
  }

  lemma {:induction false} ProofSiblings(h: Hash, level: Level, idx: nat)
    requires idx < |level|
    ensures forall i :: 0 <= i < |Proof(h, level, idx)| ==> |Proof(h, level, idx)[i].sibling| == 32
    decreases |level|
  {
    if |level| > 1 {
      ProofSiblings(h, NextLevel(h, level), idx / 2);
    }
  }

  /** Completeness, on text. */
  lemma TextProofFolds(h: Hash, level: Level, idx: nat)
    requires idx < |level|
    ensures FoldText(h, level[idx], ToText(Proof(h, level, idx))) == Some(Root(h, level))
  {
    var steps := Proof(h, level, idx);
    ProofSiblings(h, level, idx);
    ToTextParses(steps);
    FoldTextIsFold(h, level[idx], ToText(steps));
    ProofFolds(h, level, idx);
  }
}
