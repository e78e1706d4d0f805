/** What a Merkle root says about the whole list (`mods/btc_anchor/merkle.py`,
    lines 18-34; `mods/asset_fabric/merkle_pieces.py`, lines 23-34).

    Doubling the odd nodes fills every tree up to a full one.  Main result: two
    lists have one root exactly when their full trees are equally high and have
    the same leaves, unless two of the strings hashed collide (`SameRootExactlyWhen`,
    on text `SameBatchExactlyWhen`).  So root and length together determine the
    list (`RootBindsBatch`), and the root alone does not: an odd list and the
    same list with its last entry repeated share it (`RepeatedLastSameRoot`). */
module MerkleBinding {
  import opened ByteStrings
  import opened Hashing
  import opened MerkleTree
  import opened AnchorMerkle

  // ----- the full tree -----

  /** How many levels there are above n leaves. */
  ghost function Height(n: nat): nat
    requires n > 0
    decreases n
  {
    if n == 1 then 0 else 1 + Height((n + 1) / 2)
  }

  /** Which of n leaves stands at place i of the full tree. */
  ghost function Slot(n: nat, i: nat): (k: nat)
    requires n > 0
    ensures k < n
    decreases n
  {
    if n == 1 then 0
    else
      var j := Slot((n + 1) / 2, i / 2);
      if 2 * j + i % 2 < n then 2 * j + i % 2 else 2 * j
  }

  /** The full trees over two lists have the same leaves. */
  ghost predicate SameLeaves<T>(a: seq<T>, b: seq<T>)
    requires a != [] && b != []
  {
    forall i: nat :: a[Slot(|a|, i)] == b[Slot(|b|, i)]
  }

  /** The full trees over two lists are the same. */
  ghost predicate SameTree<T>(a: seq<T>, b: seq<T>) {
    || a == b == []
    || (a != [] && b != [] && Height(|a|) == Height(|b|) && SameLeaves(a, b))
  }

  lemma {:induction false} EveryLeafHasASlot(n: nat, k: nat)
    requires k < n
    ensures Slot(n, k) == k
    decreases n
  {
    if n > 1 {
      EveryLeafHasASlot((n + 1) / 2, k / 2);
    }
  }

  /** Among lists of one length the full tree determines the list. */
  lemma SameLengthSameTree<T>(a: seq<T>, b: seq<T>)
    requires |a| == |b| && SameTree(a, b)
    ensures a == b
  {
    forall k: nat | k < |a|
      ensures a[k] == b[k]
    {
      EveryLeafHasASlot(|a|, k);
      assert a[Slot(|a|, k)] == b[Slot(|b|, k)];
    }
  }

  lemma SlotStep(n: nat, i: nat)
    requires n > 1
    ensures var j := Slot((n + 1) / 2, i / 2);
            j < (n + 1) / 2 && Slot(n, i) == if 2 * j + i % 2 < n then 2 * j + i % 2 else 2 * j
  {
  }

  lemma HeightStep(n: nat)
    requires n > 1
    ensures Height(n) == 1 + Height((n + 1) / 2)
  {
  }

  lemma OneMoreLeaf(n: nat, i: nat)
    requires n % 2 == 1 && n > 1
    ensures Height(n + 1) == Height(n)
    ensures Slot(n, i) == if Slot(n + 1, i) < n then Slot(n + 1, i) else n - 1
  {
    assert (n + 1 + 1) / 2 == (n + 1) / 2;
    hide Slot, Height;
    SlotStep(n, i);
    SlotStep(n + 1, i);
    HeightStep(n);
    HeightStep(n + 1);
  }

  lemma RepeatedLastSameTree<T>(a: seq<T>)
    requires |a| % 2 == 1 && |a| > 1
    ensures SameTree(a, a + [a[|a| - 1]])
  {
    hide Slot, Height;
    var b := a + [a[|a| - 1]];
    OneMoreLeaf(|a|, 0);
    forall i: nat
      ensures a[Slot(|a|, i)] == b[Slot(|b|, i)]
    {
      OneMoreLeaf(|a|, i);
    }
  }

  // ----- equal heights -----

  /** The two nodes below node k of the next level. */
  lemma Children(n: nat, j: nat)
    requires n > 1
    ensures var k := Slot((n + 1) / 2, j);
            && Slot(n, 2 * j) == 2 * k
            && Slot(n, 2 * j + 1) == if 2 * k + 1 < n then 2 * k + 1 else 2 * k
  {
    assert 2 * j / 2 == j && (2 * j + 1) / 2 == j;
  }

  lemma PairAt(level: Level, j: nat)
    requires |level| > 1
    ensures PairInput(level, Slot((|level| + 1) / 2, j))
            == Concat(level[Slot(|level|, 2 * j)], level[Slot(|level|, 2 * j + 1)])
  {
    Children(|level|, j);
  }

  lemma ConcatInjective(a: Digest, b: Digest, c: Digest, d: Digest)
    requires Concat(a, b) == Concat(c, d)
    ensures a == c && b == d
  {
    assert Concat(a, b)[..32] == a && Concat(c, d)[..32] == c;
    assert Concat(a, b)[32..] == b && Concat(c, d)[32..] == d;
  }

  lemma PairInputUsed(h: Hash, level: Level, k: nat)
    requires |level| > 1 && k < (|level| + 1) / 2
    ensures NextLevel(h, level)[k] == h(PairInput(level, k)) && PairInput(level, k) in NodeInputs(h, level)
  {
    hide PairInput;
    assert PairInput(level, k) in PairInputs(level);
  }

  /** The full tree over the next level lacks the lowest row. */
  lemma LeavesGoUp(h: Hash, a: Level, b: Level)
    requires |a| > 1 && |b| > 1 && SameLeaves(a, b)
    ensures SameLeaves(NextLevel(h, a), NextLevel(h, b))
  {
    hide PairInput, Concat, Slot;
    var up, vp := NextLevel(h, a), NextLevel(h, b);
    forall j: nat
      ensures up[Slot(|up|, j)] == vp[Slot(|vp|, j)]
    {
      PairAt(a, j);
      PairAt(b, j);
      assert a[Slot(|a|, 2 * j)] == b[Slot(|b|, 2 * j)] && a[Slot(|a|, 2 * j + 1)] == b[Slot(|b|, 2 * j + 1)];
    }
  }

  /** Equal nodes have equal children. */
  lemma SameChildren(h: Hash, a: Level, b: Level, j: nat)
    requires |a| > 1 && |b| > 1 && CollisionFree(h, NodeInputs(h, a) + NodeInputs(h, b))
    requires NextLevel(h, a)[Slot((|a| + 1) / 2, j)] == NextLevel(h, b)[Slot((|b| + 1) / 2, j)]
    ensures a[Slot(|a|, 2 * j)] == b[Slot(|b|, 2 * j)]
    ensures a[Slot(|a|, 2 * j + 1)] == b[Slot(|b|, 2 * j + 1)]
  {
    hide PairInput, Concat, Slot, NodeInputs, NextLevel, CollisionFree;
    var k, l := Slot((|a| + 1) / 2, j), Slot((|b| + 1) / 2, j);
    PairInputUsed(h, a, k);
    PairInputUsed(h, b, l);
    SameInput(h, NodeInputs(h, a) + NodeInputs(h, b), PairInput(a, k), PairInput(b, l));
    PairAt(a, j);
    PairAt(b, j);
    ConcatInjective(a[Slot(|a|, 2 * j)], a[Slot(|a|, 2 * j + 1)], b[Slot(|b|, 2 * j)], b[Slot(|b|, 2 * j + 1)]);
  }

  lemma LeavesGoDown(h: Hash, a: Level, b: Level)
    requires |a| > 1 && |b| > 1 && CollisionFree(h, NodeInputs(h, a) + NodeInputs(h, b))
    requires SameLeaves(NextLevel(h, a), NextLevel(h, b))
    ensures SameLeaves(a, b)
  {
    hide Slot, NodeInputs, CollisionFree;
    var up, vp := NextLevel(h, a), NextLevel(h, b);
    forall i: nat
      ensures a[Slot(|a|, i)] == b[Slot(|b|, i)]
    {
      assert up[Slot(|up|, i / 2)] == vp[Slot(|vp|, i / 2)];
      hide NextLevel, SameLeaves;
      SameChildren(h, a, b, i / 2);
      assert i == 2 * (i / 2) || i == 2 * (i / 2) + 1;
    }
  }

  lemma OneLeaf(a: Level, b: Level)
    requires |a| == 1 && SameTree(a, b)
    ensures |b| == 1 && a[0] == b[0]
  {
    assert a[Slot(1, 0)] == b[Slot(|b|, 0)];
  }

  lemma {:induction false} SameTreeSameRoot(h: Hash, a: Level, b: Level)
    requires a != [] && SameTree(a, b)
    ensures Root(h, a) == Root(h, b)
    decreases |a|
  {
    hide SameLeaves, NextLevel, Slot;
    if |a| == 1 {
      assert |b| == 1 && a[0] == b[0] by { OneLeaf(a, b); }
    } else {
      LeavesGoUp(h, a, b);
      SameTreeSameRoot(h, NextLevel(h, a), NextLevel(h, b));
    }
  }

  lemma {:induction false} SameRootSameLeaves(h: Hash, a: Level, b: Level)
    requires a != [] && b != [] && Height(|a|) == Height(|b|) && Root(h, a) == Root(h, b)
    requires CollisionFree(h, NodeInputs(h, a) + NodeInputs(h, b))
    ensures SameLeaves(a, b)
    decreases |a|
  {
    hide PairInputs, NextLevel;
    if |a| > 1 {
      SameRootSameLeaves(h, NextLevel(h, a), NextLevel(h, b));
      LeavesGoDown(h, a, b);
    }
  }

  // ----- different heights -----

  /** The first node d levels up. */
  ghost function First(h: Hash, level: Level, d: nat): Digest
    requires level != []
    decreases d
  {
    if d == 0 then level[0] else First(h, NextLevel(h, level), d - 1)
  }

  lemma {:induction false} RootIsFirst(h: Hash, level: Level)
    requires level != []
    ensures Root(h, level) == First(h, level, Height(|level|))
    decreases |level|
  {
    if |level| > 1 {
      RootIsFirst(h, NextLevel(h, level));
    }
  }

  /** Above the leaves a first node is the digest of 64 bytes that start with the
      first node below it. */
  lemma {:induction false} FirstIsPair(h: Hash, level: Level, d: nat) returns (x: Bytes)
    requires level != [] && d < Height(|level|)
    ensures x in NodeInputs(h, level) && |x| == 64
    ensures h(x) == First(h, level, d + 1) && x[..32] == First(h, level, d)
    decreases d
  {
    hide PairInputs;
    if d == 0 {
      x := PairInput(level, 0);
      PairInputUsed(h, level, 0);
      assert x[..32] == level[0];
    } else {
      x := FirstIsPair(h, NextLevel(h, level), d - 1);
    }
  }

  /** Below one root the first nodes agree, level by level. */
  lemma {:induction false} FirstsAgree(h: Hash, a: Level, b: Level, d: nat)
    requires a != [] && b != [] && Root(h, a) == Root(h, b)
    requires d <= Height(|a|) && d <= Height(|b|)
    requires CollisionFree(h, NodeInputs(h, a) + NodeInputs(h, b))
    ensures First(h, a, Height(|a|) - d) == First(h, b, Height(|b|) - d)
    decreases d
  {
    hide NodeInputs, First, Root, Height;
    if d == 0 {
      RootIsFirst(h, a);
      RootIsFirst(h, b);
    } else {
      FirstsAgree(h, a, b, d - 1);
      var x := FirstIsPair(h, a, Height(|a|) - d);
      var y := FirstIsPair(h, b, Height(|b|) - d);
    }
  }

  /** Below one root the first leaf of the lower tree is the digest of 64 bytes
      hashed in the higher one. */
  lemma LowerLeafIsPair(h: Hash, a: Level, b: Level) returns (x: Bytes)
    requires a != [] && b != [] && Root(h, a) == Root(h, b) && Height(|a|) < Height(|b|)
    requires CollisionFree(h, NodeInputs(h, a) + NodeInputs(h, b))
    ensures x in NodeInputs(h, b) && |x| == 64 && h(x) == a[0]
  {
    hide NodeInputs, Root, Height, CollisionFree;
    FirstsAgree(h, a, b, Height(|a|));
    x := FirstIsPair(h, b, Height(|b|) - Height(|a|) - 1);
  }

  lemma LowerIsNoLeaf(h: Hash, a: seq<Bytes>, b: seq<Bytes>)
    requires a != [] && b != [] && |a[0]| != 64 && CollisionFree(h, TreeInputs(h, a) + TreeInputs(h, b))
    requires Root(h, LeafLevel(h, a)) == Root(h, LeafLevel(h, b))
    ensures Height(|a|) >= Height(|b|)
  {
    hide NodeInputs, TreeInputs, Root, Height, CollisionFree, LeafLevel;
    var all := TreeInputs(h, a) + TreeInputs(h, b);
    if Height(|a|) < Height(|b|) {
      NodesAmongInputs(h, a);
      NodesAmongInputs(h, b);
      FewerInputs(h, NodeInputs(h, LeafLevel(h, a)) + NodeInputs(h, LeafLevel(h, b)), all);
      var x := LowerLeafIsPair(h, LeafLevel(h, a), LeafLevel(h, b));
      LeafHashed(h, a, 0);
      SameInput(h, all, a[0], x);
      assert false;
    }
  }

  // ----- the exact condition -----

  lemma SameTreeOfDigests(h: Hash, a: seq<Bytes>, b: seq<Bytes>)
    requires SameTree(a, b)
    ensures SameTree(LeafLevel(h, a), LeafLevel(h, b))
  {
    hide Slot, Height;
    if a != [] {
      forall i: nat
        ensures LeafLevel(h, a)[Slot(|a|, i)] == LeafLevel(h, b)[Slot(|b|, i)]
      {
        assert a[Slot(|a|, i)] == b[Slot(|b|, i)];
      }
    }
  }

  lemma SameLeavesBelow(h: Hash, a: seq<Bytes>, b: seq<Bytes>)
    requires a != [] && b != [] && CollisionFree(h, TreeInputs(h, a) + TreeInputs(h, b))
    requires SameLeaves(LeafLevel(h, a), LeafLevel(h, b))
    ensures SameLeaves(a, b)
  {
    hide Slot, TreeInputs, LeafLevel, CollisionFree;
    forall i: nat
      ensures a[Slot(|a|, i)] == b[Slot(|b|, i)]
    {
      assert LeafLevel(h, a)[Slot(|a|, i)] == LeafLevel(h, b)[Slot(|b|, i)];
      LeafHashed(h, a, Slot(|a|, i));
      LeafHashed(h, b, Slot(|b|, i));
      SameInput(h, TreeInputs(h, a) + TreeInputs(h, b), a[Slot(|a|, i)], b[Slot(|b|, i)]);
    }
  }

  /** Two lists have one root exactly when their full trees are the same, unless
      two of the strings hashed collide.  A leaf of 64 bytes could be mistaken
      for an inner node. */
  lemma SameRootExactlyWhen(h: Hash, a: seq<Bytes>, b: seq<Bytes>)
    requires a != [] && b != []
    requires forall i :: 0 <= i < |a| ==> |a[i]| != 64
    requires forall i :: 0 <= i < |b| ==> |b[i]| != 64
    requires CollisionFree(h, TreeInputs(h, a) + TreeInputs(h, b))
    ensures Root(h, LeafLevel(h, a)) == Root(h, LeafLevel(h, b)) <==> SameTree(a, b)
  {
    hide Root, Height, Slot, NodeInputs, SameLeaves, CollisionFree;
    if SameTree(a, b) {
      SameTreeOfDigests(h, a, b);
      SameTreeSameRoot(h, LeafLevel(h, a), LeafLevel(h, b));
    }
    if Root(h, LeafLevel(h, a)) == Root(h, LeafLevel(h, b)) {
      var all := TreeInputs(h, a) + TreeInputs(h, b);
      LowerIsNoLeaf(h, a, b);
      FewerInputs(h, TreeInputs(h, b) + TreeInputs(h, a), all);
      LowerIsNoLeaf(h, b, a);
      FewerInputs(h, NodeInputs(h, LeafLevel(h, a)) + NodeInputs(h, LeafLevel(h, b)), all);
      SameRootSameLeaves(h, LeafLevel(h, a), LeafLevel(h, b));
      SameLeavesBelow(h, a, b);
    }
  }

  // ----- batches -----

  /** The commitments as they enter the leaves. */
  function Normals(commitments: seq<Text>): (r: seq<Text>)
    ensures |r| == |commitments|
  {
    seq(|commitments|, i requires 0 <= i < |commitments| => Normal(commitments[i]))
  }

  /** Every string hashed by `merkle_root`. */
  ghost function BatchInputs(h: Hash, commitments: seq<Text>): set<Bytes> {
    {Ascii("AURORA_EMPTY")} + TreeInputs(h, LeafInputs(commitments))
  }

  lemma SameLeaf(a: Text, b: Text)
    ensures LeafInput(a) == LeafInput(b) <==> Normal(a) == Normal(b)
    ensures |LeafInput(a)| == 12 + |Normal(a)| && LeafInput(a) != Ascii("AURORA_EMPTY")
  {
    hide Normal;
    assert LeafInput(a)[12..] == Ascii(Normal(a)) && LeafInput(b)[12..] == Ascii(Normal(b));
    if LeafInput(a) == LeafInput(b) {
      AsciiInjective(Normal(a), Normal(b));
    }
    assert LeafInput(a)[7] == 'L' as int && Ascii("AURORA_EMPTY")[7] == 'E' as int;
  }

  lemma SameTreeOfInputs(a: seq<Text>, b: seq<Text>)
    ensures SameTree(LeafInputs(a), LeafInputs(b)) <==> SameTree(Normals(a), Normals(b))
  {
    hide Normal, LeafInput, Height, Slot;
    if a != [] && b != [] {
      forall i: nat
        ensures LeafInputs(a)[Slot(|a|, i)] == LeafInputs(b)[Slot(|b|, i)]
           <==> Normals(a)[Slot(|a|, i)] == Normals(b)[Slot(|b|, i)]
      {
        SameLeaf(a[Slot(|a|, i)], b[Slot(|b|, i)]);
      }
    }
  }

  lemma RootsAreTexts(h: Hash, a: seq<Text>, b: seq<Text>)
    requires a != [] && b != []
    ensures RootHex(h, a) == RootHex(h, b) <==> Root(h, LeafHashes(h, a)) == Root(h, LeafHashes(h, b))
  {
    hide Root, Hex, LeafHashes;
    if RootHex(h, a) == RootHex(h, b) {
      HexInjective(Root(h, LeafHashes(h, a)), Root(h, LeafHashes(h, b)));
    }
  }

  /** The root of no commitments is the root of nothing else. */
  lemma EmptyRootIsOwn(h: Hash, a: seq<Text>)
    requires a != [] && CollisionFree(h, BatchInputs(h, a))
    ensures RootHex(h, a) != RootHex(h, [])
  {
    hide NodeInputs, TreeInputs, CollisionFree, Hex, First, LeafInput;
    var leaves, empty := LeafInputs(a), Ascii("AURORA_EMPTY");
    RootIsFirst(h, LeafHashes(h, a));
    NodesAmongInputs(h, leaves);
    SameLeaf(a[0], a[0]);
    LeafHashed(h, leaves, 0);
    if RootHex(h, a) == RootHex(h, []) {
      HexInjective(Root(h, LeafHashes(h, a)), h(empty));
      if |a| == 1 {
        SameInput(h, BatchInputs(h, a), empty, leaves[0]);
      } else {
        var x := FirstIsPair(h, LeafHashes(h, a), Height(|a|) - 1);
        SameInput(h, BatchInputs(h, a), empty, x);
      }
      assert false;
    }
  }

  lemma NoInnerNode(commitments: seq<Text>)
    requires forall i :: 0 <= i < |commitments| ==> |Normal(commitments[i])| != 52
    ensures forall i :: 0 <= i < |commitments| ==> |LeafInputs(commitments)[i]| != 64
  {
    hide Normal, LeafInput;
    forall i | 0 <= i < |commitments|
      ensures |LeafInputs(commitments)[i]| != 64
    {
      SameLeaf(commitments[i], commitments[i]);
    }
  }

  /** Two batches have one root exactly when they fill up to the same full tree,
      case and "0x" apart, unless two of the strings hashed collide.  A leaf of
      52 characters could be mistaken for an inner node; commitments have 64. */
  lemma SameBatchExactlyWhen(h: Hash, a: seq<Text>, b: seq<Text>)
    requires forall i :: 0 <= i < |a| ==> |Normal(a[i])| != 52
    requires forall i :: 0 <= i < |b| ==> |Normal(b[i])| != 52
    requires CollisionFree(h, BatchInputs(h, a) + BatchInputs(h, b))
    ensures RootHex(h, a) == RootHex(h, b) <==> SameTree(Normals(a), Normals(b))
  {
    hide Normal, LeafInputs, TreeInputs, CollisionFree, Height, SameLeaves, RootHex;
    var all := BatchInputs(h, a) + BatchInputs(h, b);
    if a != [] && b != [] {
      NoInnerNode(a);
      NoInnerNode(b);
      FewerInputs(h, TreeInputs(h, LeafInputs(a)) + TreeInputs(h, LeafInputs(b)), all);
      SameRootExactlyWhen(h, LeafInputs(a), LeafInputs(b));
      RootsAreTexts(h, a, b);
      SameTreeOfInputs(a, b);
    } else if a != [] {
      FewerInputs(h, BatchInputs(h, a), all);
      EmptyRootIsOwn(h, a);
    } else if b != [] {
      FewerInputs(h, BatchInputs(h, b), all);
      EmptyRootIsOwn(h, b);
    }
  }

  // ----- root and length, root alone -----

  /** Two levels of one length under one root are equal, unless two of the
      strings hashed collide. */
  lemma RootBindsLevel(h: Hash, a: Level, b: Level)
    requires |a| == |b| > 0 && CollisionFree(h, NodeInputs(h, a) + NodeInputs(h, b)) && Root(h, a) == Root(h, b)
    ensures a == b
  {
    SameRootSameLeaves(h, a, b);
    SameLengthSameTree(a, b);
  }

  /** The root and the number of commitments determine the batch, up to case and
      "0x", unless two of the strings hashed collide. */
  lemma RootBindsBatch(h: Hash, a: seq<Text>, b: seq<Text>)
    requires |a| == |b| && RootHex(h, a) == RootHex(h, b)
    requires CollisionFree(h, BatchInputs(h, a) + BatchInputs(h, b))
    ensures forall i :: 0 <= i < |a| ==> Normal(a[i]) == Normal(b[i])
  {
    hide Normal, LeafInputs, Root, NodeInputs, TreeInputs, CollisionFree, Height, SameLeaves, RootHex;
    if a != [] {
      var x, y := LeafInputs(a), LeafInputs(b);
      RootsAreTexts(h, a, b);
      NodesAmongInputs(h, x);
      NodesAmongInputs(h, y);
      FewerInputs(h, TreeInputs(h, x) + TreeInputs(h, y), BatchInputs(h, a) + BatchInputs(h, b));
      FewerInputs(h, NodeInputs(h, LeafLevel(h, x)) + NodeInputs(h, LeafLevel(h, y)),
                  TreeInputs(h, x) + TreeInputs(h, y));
      SameRootSameLeaves(h, LeafLevel(h, x), LeafLevel(h, y));
      SameLeavesBelow(h, x, y);
      SameTreeOfInputs(a, b);
      SameLengthSameTree(Normals(a), Normals(b));
      assert forall i :: 0 <= i < |a| ==> Normals(a)[i] == Normal(a[i]) && Normals(b)[i] == Normal(b[i]);
    }
  }

  /** Repeating the last entry of an odd list keeps the root. */
  lemma RepeatedLastSameRoot(h: Hash, commitments: seq<Text>)
    requires |commitments| % 2 == 1 && |commitments| > 1
    ensures RootHex(h, commitments + [commitments[|commitments| - 1]]) == RootHex(h, commitments)
  {
    hide Normal, RootHex, LeafInput, SameTree, Root;
    var more := commitments + [commitments[|commitments| - 1]];
    var leaves := LeafInputs(commitments);
    RepeatedLastSameTree(leaves);
    assert LeafInputs(more) == leaves + [leaves[|leaves| - 1]];
    SameTreeOfDigests(h, leaves, LeafInputs(more));
    SameTreeSameRoot(h, LeafHashes(h, commitments), LeafHashes(h, more));
    RootsAreTexts(h, commitments, more);
  }
}
