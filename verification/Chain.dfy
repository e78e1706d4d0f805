/** The simulated Bitcoin chain (`mods/btc_anchor/chain.py`): mining, transaction
    submission and reorganisations, and the queries the anchor service makes.

    `ChainState` and the functions on it are the specification; the class
    updates its fields step by step and is proved to follow it.  The block hash
    is an arbitrary function of the hashed body. */
module Chain {
  import opened Options

  /** The JSON object whose SHA-256 is the block hash. */
  datatype Body = Body(prev: string, height: int, txs: seq<string>, nonce: int)

  type BlockHash = Body -> string

  datatype Block = Block(
    height: int, blockHash: string, prevHash: string, work: int, timestamp: int,
    txs: seq<string>, nonce: int)
  {
    function Hashed(): Body {
      Body(prevHash, height, txs, nonce)
    }
  }

  datatype ChainState = ChainState(
    canonical: seq<Block>, byHash: map<string, Block>, orphans: seq<Block>,
    mempool: seq<string>, nonce: nat, tick: nat)
  {
    function Tip(): Block
      requires canonical != []
    {
      canonical[|canonical| - 1]
    }

    function Start(): int
      requires canonical != []
    {
      canonical[0].height
    }
  }

  const PREV_OF_GENESIS := "0000000000000000000000000000000000000000000000000000000000000000"

  function Genesis(start: int, genesisHash: string): Block {
    Block(start, genesisHash, PREV_OF_GENESIS, 1, 0, [], 0)
  }

  function InitialChain(start: int, genesisHash: string): ChainState {
    var genesis := Genesis(start, genesisHash);
    ChainState([genesis], map[genesisHash := genesis], [], [], 0, 0)
  }

  // ----- the steps -----

  function SubmitTx(st: ChainState, txid: string): ChainState {
    st.(mempool := st.mempool + [txid])
  }

  /** `txs`, then every extra transaction that is not there yet. */
  function WithExtra(txs: seq<string>, extra: seq<string>): seq<string>
    decreases |extra|
  {
    if extra == [] then txs
    else WithExtra(if extra[0] in txs then txs else txs + [extra[0]], extra[1..])
  }

  function NextBlock(hash: BlockHash, st: ChainState, extra: seq<string>, fork: Option<int>): Block
    requires st.canonical != []
  {
    var prev := st.Tip();
    var nonce := if fork.Some? then fork.value else st.nonce + 1;
    var body := Body(prev.blockHash, prev.height + 1, WithExtra(st.mempool, extra), nonce);
    Block(body.height, hash(body), body.prev, prev.work + 1, st.tick + 600, body.txs, nonce)
  }

  function Mine(hash: BlockHash, st: ChainState, extra: seq<string>, fork: Option<int>): (r: ChainState)
    requires st.canonical != []
    ensures |r.canonical| == |st.canonical| + 1
  {
    var b := NextBlock(hash, st, extra, fork);
    ChainState(st.canonical + [b], st.byHash[b.blockHash := b], st.orphans, [], st.nonce + 1, st.tick + 600)
  }

  /** n replacement blocks with nonces salt, salt + 1, ... */
  function MineForks(hash: BlockHash, st: ChainState, salt: int, n: nat): (r: ChainState)
    requires st.canonical != []
    ensures |r.canonical| == |st.canonical| + n
  {
    if n == 0 then st else Mine(hash, MineForks(hash, st, salt, n - 1), [], Some(salt + n - 1))
  }

  predicate CanFork(st: ChainState, forkHeight: int)
    requires st.canonical != []
  {
    st.Start() <= forkHeight < st.Tip().height
  }

  /** The blocks above the fork become orphans. */
  function Rollback(st: ChainState, forkHeight: int): (r: ChainState)
    requires st.canonical != [] && 0 <= forkHeight - st.Start() < |st.canonical|
    ensures |r.canonical| == forkHeight - st.Start() + 1
  {
    var keep := forkHeight - st.Start() + 1;
    st.(canonical := st.canonical[..keep], orphans := st.orphans + st.canonical[keep..])
  }

  function ForkLength(newLength: int): (n: nat)
    ensures n >= 1
  {
    if newLength >= 1 then newLength else 1
  }

  function Reorg(hash: BlockHash, st: ChainState, forkHeight: int, newLength: int): (r: ChainState)
    requires st.canonical != [] && 0 <= forkHeight - st.Start() < |st.canonical|
    ensures r.canonical != []
  {
    var back := Rollback(st, forkHeight);
    MineForks(hash, back, 10000 + |back.orphans|, ForkLength(newLength))
  }

  // ----- the queries -----

  function IsCanonical(st: ChainState, blockHash: string): bool
    requires st.canonical != []
  {
    blockHash in st.byHash
    && var idx := st.byHash[blockHash].height - st.Start();
       0 <= idx < |st.canonical| && st.canonical[idx].blockHash == blockHash
  }

  function Confirmations(st: ChainState, blockHash: string): int
    requires st.canonical != []
  {
    if IsCanonical(st, blockHash) then st.Tip().height - st.byHash[blockHash].height + 1 else 0
  }

  /** The index of the last block that contains the transaction, or -1. */
  function LastIndex(blocks: seq<Block>, txid: string): (i: int)
    ensures -1 <= i < |blocks|
    ensures i >= 0 ==> txid in blocks[i].txs
    ensures forall j :: i < j < |blocks| ==> txid !in blocks[j].txs
  {
    if blocks == [] then -1
    else if txid in blocks[|blocks| - 1].txs then |blocks| - 1
    else LastIndex(blocks[..|blocks| - 1], txid)
  }

  function TxLocation(st: ChainState, txid: string): Option<Block> {
    var i := LastIndex(st.canonical, txid);
    if i < 0 then None else Some(st.canonical[i])
  }

  // ----- what every run keeps -----

  ghost predicate Mined(hash: BlockHash, b: Block) {
    b.blockHash == hash(b.Hashed())
  }

  /** Heights are contiguous, every block points to the one before it, work
      counts the blocks, and every canonical block can be looked up. */
  ghost predicate Linked(hash: BlockHash, st: ChainState) {
    && st.canonical != []
    && (forall i :: 0 <= i < |st.canonical| ==>
         && st.canonical[i].height == st.Start() + i
         && st.canonical[i].work == i + 1
         && st.canonical[i].blockHash in st.byHash)
    && (forall i :: 0 < i < |st.canonical| ==>
         && st.canonical[i].prevHash == st.canonical[i - 1].blockHash
         && Mined(hash, st.canonical[i]))
    && (forall k :: k in st.byHash ==> st.byHash[k].blockHash == k)
  }

  ghost predicate HasParent(st: ChainState, o: Block) {
    exists p :: (p in st.canonical || p in st.orphans)
             && p.blockHash == o.prevHash && p.height == o.height - 1
  }

  /** Every block ever mined is still on the chain or among the orphans, the
      orphans are above the first block, and the parent of each is stored. */
  ghost predicate Retained(hash: BlockHash, st: ChainState) {
    && st.canonical != []
    && |st.canonical| + |st.orphans| == st.nonce + 1
    && st.tick == 600 * st.nonce
    && forall o :: o in st.orphans ==>
         Mined(hash, o) && o.height > st.Start() && HasParent(st, o)
  }

  ghost predicate ChainInv(hash: BlockHash, st: ChainState) {
    Linked(hash, st) && Retained(hash, st)
  }

  ghost predicate Stored(st: ChainState, b: Block) {
    b in st.canonical || b in st.orphans || b in st.byHash.Values
  }

  /** No two stored blocks of different contents share a hash. */
  ghost predicate NoCollision(st: ChainState) {
    forall b, c :: Stored(st, b) && Stored(st, c) && b.blockHash == c.blockHash ==> b.Hashed() == c.Hashed()
  }

  lemma InitialInv(hash: BlockHash, start: int, genesisHash: string)
    ensures ChainInv(hash, InitialChain(start, genesisHash))
  {
  }

  lemma MineKeepsInv(hash: BlockHash, st: ChainState, extra: seq<string>, fork: Option<int>)
    requires ChainInv(hash, st)
    ensures ChainInv(hash, Mine(hash, st, extra, fork))
    ensures Mine(hash, st, extra, fork).Start() == st.Start()
  {
    hide WithExtra;
    var r := Mine(hash, st, extra, fork);
    forall o | o in r.orphans
      ensures HasParent(r, o)
    {
      var p :| (p in st.canonical || p in st.orphans) && p.blockHash == o.prevHash && p.height == o.height - 1;
      assert p in r.canonical || p in r.orphans;
    }
  }

  lemma {:induction false} MineForksKeepsInv(hash: BlockHash, st: ChainState, salt: int, n: nat)
    requires ChainInv(hash, st)
    ensures ChainInv(hash, MineForks(hash, st, salt, n))
    ensures MineForks(hash, st, salt, n).Start() == st.Start()
  {
    if n > 0 {
      hide ChainInv;
      MineForksKeepsInv(hash, st, salt, n - 1);
      MineKeepsInv(hash, MineForks(hash, st, salt, n - 1), [], Some(salt + n - 1));
    }
  }

  lemma RollbackLinked(hash: BlockHash, st: ChainState, forkHeight: int)
    requires Linked(hash, st) && CanFork(st, forkHeight)
    ensures Linked(hash, Rollback(st, forkHeight)) && Rollback(st, forkHeight).Start() == st.Start()
  {
    hide Mined;
  }

  /** What was on the chain or among the orphans still is. */
  lemma RollbackKeepsBlocks(st: ChainState, forkHeight: int, b: Block)
    requires st.canonical != [] && CanFork(st, forkHeight) && forkHeight - st.Start() < |st.canonical|
    ensures var r := Rollback(st, forkHeight);
            b in r.canonical || b in r.orphans <==> b in st.canonical || b in st.orphans
  {
    var keep := forkHeight - st.Start() + 1;
    assert st.canonical == st.canonical[..keep] + st.canonical[keep..];
  }

  lemma ParentOf(hash: BlockHash, st: ChainState, i: nat)
    requires Linked(hash, st) && 0 < i < |st.canonical|
    ensures st.canonical[i].height > st.Start() && Mined(hash, st.canonical[i]) && HasParent(st, st.canonical[i])
  {
    hide Mined;
    assert st.canonical[i - 1] in st.canonical;
  }

  lemma ParentStays(st: ChainState, forkHeight: int, o: Block)
    requires st.canonical != [] && CanFork(st, forkHeight) && forkHeight - st.Start() < |st.canonical|
    requires HasParent(st, o)
    ensures HasParent(Rollback(st, forkHeight), o)
  {
    hide Rollback;
    var p :| (p in st.canonical || p in st.orphans) && p.blockHash == o.prevHash && p.height == o.height - 1;
    RollbackKeepsBlocks(st, forkHeight, p);
  }

  lemma ForkInRange(hash: BlockHash, st: ChainState, forkHeight: int)
    requires ChainInv(hash, st) && CanFork(st, forkHeight)
    ensures 0 <= forkHeight - st.Start() < |st.canonical| - 1
    ensures st.canonical[forkHeight - st.Start()].height == forkHeight
  {
  }

  lemma RollbackKeepsInv(hash: BlockHash, st: ChainState, forkHeight: int)
    requires ChainInv(hash, st) && CanFork(st, forkHeight)
    ensures ChainInv(hash, Rollback(st, forkHeight))
    ensures Rollback(st, forkHeight).Start() == st.Start()
  {
    hide Linked, Mined, HasParent;
    ForkInRange(hash, st, forkHeight);
    RollbackLinked(hash, st, forkHeight);
    var r := Rollback(st, forkHeight);
    var keep := forkHeight - st.Start() + 1;
    forall o | o in r.orphans
      ensures Mined(hash, o) && o.height > r.Start() && HasParent(r, o)
    {
      if o !in st.orphans {
        var i :| keep <= i < |st.canonical| && st.canonical[i] == o;
        ParentOf(hash, st, i);
      }
      ParentStays(st, forkHeight, o);
    }
  }

  lemma NotEmpty(hash: BlockHash, st: ChainState)
    requires ChainInv(hash, st)
    ensures st.canonical != []
  {
  }

  lemma ReorgKeepsInv(hash: BlockHash, st: ChainState, forkHeight: int, newLength: int)
    requires ChainInv(hash, st) && CanFork(st, forkHeight)
    ensures ChainInv(hash, Reorg(hash, st, forkHeight, newLength))
    ensures Reorg(hash, st, forkHeight, newLength).Start() == st.Start()
  {
    hide Linked, Retained, MineForks, Rollback, HasParent;
    ForkInRange(hash, st, forkHeight);
    var back := Rollback(st, forkHeight);
    RollbackKeepsInv(hash, st, forkHeight);
    MineForksKeepsInv(hash, back, 10000 + |back.orphans|, ForkLength(newLength));
  }

  datatype ChainStep =
    | SubmitStep(txid: string)
    | MineStep(extra: seq<string>, fork: Option<int>)
    | ReorgStep(forkHeight: int, newLength: int)

  /** One call; a reorganisation at an impossible height raises and changes
      nothing. */
  function ChainNext(hash: BlockHash, st: ChainState, step: ChainStep): (r: ChainState)
    requires Linked(hash, st)
  {
    match step
    case SubmitStep(txid) => SubmitTx(st, txid)
    case MineStep(extra, fork) => Mine(hash, st, extra, fork)
    case ReorgStep(forkHeight, newLength) =>
      if CanFork(st, forkHeight) then Reorg(hash, st, forkHeight, newLength) else st
  }

  lemma ChainNextKeepsInv(hash: BlockHash, st: ChainState, step: ChainStep)
    requires ChainInv(hash, st)
    ensures ChainInv(hash, ChainNext(hash, st, step))
    ensures ChainNext(hash, st, step).Start() == st.Start()
  {
    hide Mine, Reorg;
    match step
    case SubmitStep(txid) =>
      var r := SubmitTx(st, txid);
      forall o | o in r.orphans
        ensures HasParent(r, o)
      {
        var p :| (p in st.canonical || p in st.orphans) && p.blockHash == o.prevHash && p.height == o.height - 1;
        assert p in r.canonical || p in r.orphans;
      }
    case MineStep(extra, fork) => MineKeepsInv(hash, st, extra, fork);
    case ReorgStep(forkHeight, newLength) =>
      if CanFork(st, forkHeight) {
        ReorgKeepsInv(hash, st, forkHeight, newLength);
      }
  }

  /** The state after a run from a fresh chain. */
  function ChainRun(hash: BlockHash, start: int, genesisHash: string, steps: seq<ChainStep>): (st: ChainState)
    ensures ChainInv(hash, st) && st.Start() == start
    decreases |steps|
  {
    if steps == [] then
      InitialInv(hash, start, genesisHash);
      InitialChain(start, genesisHash)
    else
      var before := ChainRun(hash, start, genesisHash, steps[..|steps| - 1]);
      ChainNextKeepsInv(hash, before, steps[|steps| - 1]);
      ChainNext(hash, before, steps[|steps| - 1])
  }

  // ----- what the queries mean -----

  lemma CanonicalHeight(hash: BlockHash, st: ChainState, i: nat)
    requires ChainInv(hash, st) && NoCollision(st) && i < |st.canonical|
    ensures st.canonical[i].blockHash in st.byHash
    ensures st.byHash[st.canonical[i].blockHash].height == st.canonical[i].height
  {
    var b := st.canonical[i];
    var c := st.byHash[b.blockHash];
    assert Stored(st, b) && Stored(st, c);
    assert b.Hashed() == c.Hashed();
  }

  /** A hash is reported canonical exactly when a canonical block bears it, and
      it then has tip - height + 1 confirmations; any other has none. */
  lemma QueriesAgree(hash: BlockHash, st: ChainState, blockHash: string)
    requires ChainInv(hash, st) && NoCollision(st)
    ensures IsCanonical(st, blockHash) <==> exists b :: b in st.canonical && b.blockHash == blockHash
    ensures forall b :: b in st.canonical && b.blockHash == blockHash ==>
              Confirmations(st, blockHash) == st.Tip().height - b.height + 1
    ensures !IsCanonical(st, blockHash) ==> Confirmations(st, blockHash) == 0
  {
    forall b | b in st.canonical && b.blockHash == blockHash
      ensures IsCanonical(st, blockHash)
      ensures Confirmations(st, blockHash) == st.Tip().height - b.height + 1
    {
      var i :| 0 <= i < |st.canonical| && st.canonical[i] == b;
      CanonicalHeight(hash, st, i);
    }
  }

  // ----- what is in a block -----

  /** The transactions waiting come first and in order, and an extra transaction
      is added once if it does not wait already. */
  lemma {:induction false} WithExtraIs(txs: seq<string>, extra: seq<string>)
    ensures txs <= WithExtra(txs, extra)
    ensures forall t :: t in WithExtra(txs, extra) <==> t in txs || t in extra
    ensures forall i, j :: 0 <= i < j < |WithExtra(txs, extra)| && j >= |txs| ==>
              WithExtra(txs, extra)[i] != WithExtra(txs, extra)[j]
    decreases |extra|
  {
    if extra != [] {
      WithExtraIs(if extra[0] in txs then txs else txs + [extra[0]], extra[1..]);
    }
  }

  /** Extra transactions that are all new keep their order. */
  lemma {:induction false} NewExtraInOrder(txs: seq<string>, extra: seq<string>)
    requires forall i :: 0 <= i < |extra| ==> extra[i] !in txs
    requires forall i, j :: 0 <= i < j < |extra| ==> extra[i] != extra[j]
    ensures WithExtra(txs, extra) == txs + extra
    decreases |extra|
  {
    if extra != [] {
      NewExtraInOrder(txs + [extra[0]], extra[1..]);
      assert txs + [extra[0]] + extra[1..] == txs + extra;
    }
  }

  /** The block that is mined next, in terms of all the blocks there have been,
      on the chain or orphaned: after k of them besides the genesis block it
      comes 600 * (k + 1) seconds after it, and with the nonce k + 1 unless it
      replaces a block. */
  lemma MinedBlockIs(hash: BlockHash, st: ChainState, extra: seq<string>, fork: Option<int>)
    requires ChainInv(hash, st)
    ensures var b, mined := Mine(hash, st, extra, fork).Tip(), |st.canonical| + |st.orphans|;
            && b.nonce == (if fork.Some? then fork.value else mined)
            && b.timestamp == 600 * mined
            && b.height == st.Start() + |st.canonical| && b.work == |st.canonical| + 1
            && b.prevHash == st.Tip().blockHash && b.blockHash == hash(Body(b.prevHash, b.height, b.txs, b.nonce))
            && st.mempool <= b.txs && forall t :: t in b.txs <==> t in st.mempool || t in extra
    ensures Mine(hash, st, extra, fork).mempool == []
  {
    hide WithExtra;
    WithExtraIs(st.mempool, extra);
  }

  // ----- what a reorganisation does and does not guarantee -----

  /** The new branch has more work exactly when it is longer than the branch it
      replaces: no extra work is given to it. */
  lemma ForkWinsWhenLonger(hash: BlockHash, st: ChainState, forkHeight: int, newLength: int)
    requires ChainInv(hash, st) && CanFork(st, forkHeight)
    ensures Reorg(hash, st, forkHeight, newLength).Tip().work > st.Tip().work
       <==> ForkLength(newLength) > st.Tip().height - forkHeight
  {
    var r := Reorg(hash, st, forkHeight, newLength);
    assert |r.canonical| == forkHeight - st.Start() + 1 + ForkLength(newLength);
    assert Linked(hash, r) by { ReorgKeepsInv(hash, st, forkHeight, newLength); }
  }

  /** Mining only appends. */
  lemma {:induction false} ForksAppend(hash: BlockHash, st: ChainState, salt: int, n: nat)
    requires st.canonical != []
    ensures st.canonical <= MineForks(hash, st, salt, n).canonical
    ensures MineForks(hash, st, salt, n).orphans == st.orphans
    ensures n > 0 ==> MineForks(hash, st, salt, n).canonical[|st.canonical|] == NextBlock(hash, st, [], Some(salt))
  {
    if n > 0 {
      ForksAppend(hash, st, salt, n - 1);
    }
  }

  lemma {:induction false} ForkNonces(hash: BlockHash, st: ChainState, salt: int, n: nat)
    requires st.canonical != []
    ensures forall i :: |st.canonical| <= i < |st.canonical| + n ==>
              MineForks(hash, st, salt, n).canonical[i].nonce == salt + i - |st.canonical|
  {
    if n > 0 {
      ForkNonces(hash, st, salt, n - 1);
    }
  }

  /** A reorganisation keeps the blocks up to the fork, orphans the others behind
      the older orphans, and puts newLength new ones on top, or one if newLength
      is not positive.  Their nonces count on from 10000 plus the number of
      orphans. */
  lemma ReorgIs(hash: BlockHash, st: ChainState, forkHeight: int, newLength: int)
    requires ChainInv(hash, st) && CanFork(st, forkHeight)
    ensures var r, keep := Reorg(hash, st, forkHeight, newLength), forkHeight - st.Start() + 1;
            && 0 < keep < |st.canonical|
            && |r.canonical| == keep + (if newLength >= 1 then newLength else 1)
            && r.canonical[..keep] == st.canonical[..keep]
            && r.orphans == st.orphans + st.canonical[keep..]
            && forall i :: keep <= i < |r.canonical| ==> r.canonical[i].nonce == 10000 + |r.orphans| + i - keep
  {
    hide Linked, Retained, MineForks;
    ForkInRange(hash, st, forkHeight);
    var back := Rollback(st, forkHeight);
    var salt, n := 10000 + |back.orphans|, ForkLength(newLength);
    ForksAppend(hash, back, salt, n);
    ForkNonces(hash, back, salt, n);
  }

  /** What the first replacement block hashes. */
  function FirstReplacement(st: ChainState, forkHeight: int): Body
    requires st.canonical != [] && 0 <= forkHeight - st.Start() < |st.canonical|
  {
    Body(st.canonical[forkHeight - st.Start()].blockHash, forkHeight + 1, st.mempool,
         10000 + |Rollback(st, forkHeight).orphans|)
  }

  ghost predicate RepeatsOrphan(st: ChainState, b: Block) {
    exists o :: o in st.orphans && o.blockHash == b.blockHash
  }

  lemma LowOnes(hash: BlockHash, st: ChainState, b: Block)
    requires Linked(hash, st) && b in st.canonical
    ensures b.height < st.Start() + |st.canonical|
  {
    var k :| 0 <= k < |st.canonical| && st.canonical[k] == b;
  }

  /** A replacement that repeats an orphan stands on one that does. */
  lemma RepeatGoesDown(hash: BlockHash, back: ChainState, r: ChainState, i: nat)
    requires ChainInv(hash, back) && ChainInv(hash, r) && NoCollision(r)
    requires back.Start() == r.Start() && back.orphans == r.orphans
    requires |back.canonical| < i < |r.canonical| && RepeatsOrphan(r, r.canonical[i])
    ensures RepeatsOrphan(r, r.canonical[i - 1])
  {
    var b, a := r.canonical[i], r.canonical[i - 1];
    var o :| o in r.orphans && o.blockHash == b.blockHash;
    assert Stored(r, b) && Stored(r, o);
    assert o.Hashed() == b.Hashed() && b.prevHash == a.blockHash && a.height == b.height - 1;
    assert HasParent(back, o);
    var p :| (p in back.canonical || p in back.orphans) && p.blockHash == o.prevHash && p.height == o.height - 1;
    if p in back.canonical {
      LowOnes(hash, back, p);
    }
    assert p in r.orphans && p.blockHash == a.blockHash;
  }

  /** If some replacement repeats an orphan, then so does the first one. */
  lemma {:induction false} RepeatReachesFirst(hash: BlockHash, back: ChainState, r: ChainState, i: nat)
    requires ChainInv(hash, back) && ChainInv(hash, r) && NoCollision(r)
    requires back.Start() == r.Start() && back.orphans == r.orphans
    requires |back.canonical| <= i < |r.canonical| && RepeatsOrphan(r, r.canonical[i])
    ensures RepeatsOrphan(r, r.canonical[|back.canonical|])
    decreases i
  {
    hide Linked, Retained, NoCollision, RepeatsOrphan;
    if i > |back.canonical| {
      RepeatGoesDown(hash, back, r, i);
      RepeatReachesFirst(hash, back, r, i - 1);
    }
  }

  /** Up to collisions, repeating an orphan means having its contents. */
  lemma RepeatsByContents(hash: BlockHash, st: ChainState, b: Block)
    requires ChainInv(hash, st) && NoCollision(st)
    requires b in st.canonical && Mined(hash, b)
    ensures RepeatsOrphan(st, b) <==> exists o :: o in st.orphans && o.Hashed() == b.Hashed()
  {
    forall o | o in st.orphans
      ensures o.Hashed() == b.Hashed() <==> o.blockHash == b.blockHash
    {
      assert Stored(st, o) && Stored(st, b);
    }
  }

  /** The replacement hashes all differ from the orphaned ones exactly when no
      orphan, old or just dropped, has the contents that the first replacement
      is going to get. */
  lemma ReplacementsAreNew(hash: BlockHash, st: ChainState, forkHeight: int, newLength: int)
    requires ChainInv(hash, st) && CanFork(st, forkHeight)
    requires NoCollision(Reorg(hash, st, forkHeight, newLength))
    ensures (forall i :: forkHeight - st.Start() < i < |Reorg(hash, st, forkHeight, newLength).canonical| ==>
               !RepeatsOrphan(Reorg(hash, st, forkHeight, newLength),
                              Reorg(hash, st, forkHeight, newLength).canonical[i]))
       <==> forall o :: o in Rollback(st, forkHeight).orphans ==> o.Hashed() != FirstReplacement(st, forkHeight)
  {
    hide Linked, Retained, NoCollision, RepeatsOrphan, MineForks, HasParent;
    ForkInRange(hash, st, forkHeight);
    RollbackKeepsInv(hash, st, forkHeight);
    ReorgKeepsInv(hash, st, forkHeight, newLength);
    var back := Rollback(st, forkHeight);
    var r := Reorg(hash, st, forkHeight, newLength);
    var salt := 10000 + |back.orphans|;
    ForksAppend(hash, back, salt, ForkLength(newLength));
    var first := NextBlock(hash, back, [], Some(salt));
    assert r.canonical[|back.canonical|] == first;
    assert first.Hashed() == FirstReplacement(st, forkHeight);
    RepeatsByContents(hash, r, first);
    forall i | |back.canonical| <= i < |r.canonical| && RepeatsOrphan(r, r.canonical[i])
      ensures RepeatsOrphan(r, first)
    {
      RepeatReachesFirst(hash, back, r, i);
    }
  }

  /** Replacing only the tip, with as many orphans as its nonce counts, mines
      the tip again. */
  lemma TipMinedAgain(hash: BlockHash, st: ChainState)
    requires Linked(hash, st) && |st.canonical| >= 2
    requires st.mempool == [] && st.Tip().txs == [] && st.Tip().nonce == 10001 + |st.orphans|
    ensures CanFork(st, st.Tip().height - 1)
    ensures var r := Reorg(hash, st, st.Tip().height - 1, 1);
            r.Tip().blockHash == st.Tip().blockHash && st.Tip() in r.orphans
  {
    var n := |st.canonical|;
    var f := st.Tip().height - 1;
    var back := Rollback(st, f);
    assert back.canonical[n - 2] == st.canonical[n - 2];
    assert back.orphans == st.orphans + [st.Tip()];
    var b := NextBlock(hash, back, [], Some(10000 + |back.orphans|));
    assert b.Hashed() == st.Tip().Hashed();
    ForksAppend(hash, back, 10000 + |back.orphans|, 1);
  }

  /** After a reorganisation that replaces one block by two, replacing the tip
      alone brings an orphaned block back under its old hash. */
  lemma OrphanMinedAgain(hash: BlockHash, st: ChainState)
    requires ChainInv(hash, st) && |st.canonical| >= 2 && st.mempool == []
    ensures var s2 := Reorg(hash, st, st.Tip().height - 1, 2);
            && CanFork(s2, s2.Tip().height - 1)
            && s2.Tip().height - s2.Start() == |s2.canonical| - 1
            && var s3 := Reorg(hash, s2, s2.Tip().height - 1, 1);
               RepeatsOrphan(s3, s3.Tip())
  {
    hide HasParent;
    var f := st.Tip().height - 1;
    var back := Rollback(st, f);
    var s2 := Reorg(hash, st, f, 2);
    ReorgKeepsInv(hash, st, f, 2);
    var s1 := MineForks(hash, back, 10000 + |back.orphans|, 1);
    ForksAppend(hash, back, 10000 + |back.orphans|, 1);
    assert s2 == Mine(hash, s1, [], Some(10001 + |back.orphans|));
    TipMinedAgain(hash, s2);
  }

  // ----- the class -----

  class SimulatedBitcoinChain {
    const hash: BlockHash
    var canonical: seq<Block>
    var byHash: map<string, Block>
    var orphans: seq<Block>
    var mempool: seq<string>
    var nonce: nat
    var timeTick: nat

    function View(): ChainState
      reads this
    {
      ChainState(canonical, byHash, orphans, mempool, nonce, timeTick)
    }

    ghost predicate Valid()
      reads this
    {
      ChainInv(hash, View())
    }

    constructor (hash: BlockHash, startHeight: int, genesisHash: string)
      ensures Valid() && this.hash == hash
      ensures View() == InitialChain(startHeight, genesisHash)
      ensures canonical == [Block(startHeight, genesisHash, PREV_OF_GENESIS, 1, 0, [], 0)]
      ensures orphans == [] && mempool == [] && nonce == 0 && timeTick == 0
    {
      this.hash := hash;
      var genesis := Genesis(startHeight, genesisHash);
      canonical := [genesis];
      byHash := map[genesisHash := genesis];
      orphans := [];
      mempool := [];
      nonce := 0;
      timeTick := 0;
      new;
      InitialInv(hash, startHeight, genesisHash);
    }

    /** `submit_tx` */
    method Submit(txid: string)
      requires Valid()
      modifies this
      ensures Valid() && View() == SubmitTx(old(View()), txid)
    {
      ChainNextKeepsInv(hash, View(), SubmitStep(txid));
      mempool := mempool + [txid];
    }

    /** `mine` */
    method MineBlock(extra: seq<string>, forkNonce: Option<int>) returns (block: Block)
      requires Valid()
      modifies this
      ensures Valid() && View() == Mine(hash, old(View()), extra, forkNonce)
      ensures block == View().Tip()
    {
      hide Linked, Retained;
      ghost var before := View();
      NotEmpty(hash, before);
      MineKeepsInv(hash, before, extra, forkNonce);
      var prev := canonical[|canonical| - 1];
      var txs := mempool;
      mempool := [];
      for i := 0 to |extra|
        invariant WithExtra(txs, extra[i..]) == WithExtra(before.mempool, extra)
        invariant canonical == before.canonical && byHash == before.byHash && orphans == before.orphans
        invariant nonce == before.nonce && timeTick == before.tick && mempool == []
      {
        if extra[i] !in txs {
          txs := txs + [extra[i]];
        }
        assert extra[i..][1..] == extra[i + 1..];
      }
      nonce := nonce + 1;
      var blockNonce := if forkNonce.Some? then forkNonce.value else nonce;
      timeTick := timeTick + 600;
      var body := Body(prev.blockHash, prev.height + 1, txs, blockNonce);
      block := Block(prev.height + 1, hash(body), prev.blockHash, prev.work + 1, timeTick, txs, blockNonce);
      canonical := canonical + [block];
      byHash := byHash[block.blockHash := block];
    }

    /** `reorg`; false when the fork height is refused. */
    method Reorganise(forkHeight: int, newLength: int) returns (ok: bool, produced: seq<Block>)
      requires Valid()
      modifies this
      ensures Valid() && View() == ChainNext(hash, old(View()), ReorgStep(forkHeight, newLength))
      ensures ok <==> old(View()).Start() <= forkHeight < old(View()).Tip().height
      ensures ok ==> View().canonical == old(View()).canonical[..forkHeight - old(View()).Start() + 1] + produced
      ensures |produced| == if !ok then 0 else if newLength >= 1 then newLength else 1
    {
      hide Linked, Retained, MineForks;
      ghost var before := View();
      NotEmpty(hash, before);
      if !CanFork(View(), forkHeight) {
        return false, [];
      }
      ForkInRange(hash, before, forkHeight);
      RollbackKeepsInv(hash, before, forkHeight);
      var keepIdx := forkHeight - canonical[0].height;
      var dropped := canonical[keepIdx + 1..];
      orphans := orphans + dropped;
      canonical := canonical[..keepIdx + 1];
      assert View() == Rollback(before, forkHeight);
      var saltBase := 10000 + |orphans|;
      produced := MineBranch(saltBase, ForkLength(newLength));
      ok := true;
    }

    /** The last loop of `reorg`. */
    method MineBranch(saltBase: int, count: nat) returns (produced: seq<Block>)
      requires Valid()
      modifies this
      ensures Valid() && View().canonical == old(View()).canonical + produced
      ensures old(View()).canonical != [] && View() == MineForks(hash, old(View()), saltBase, count)
    {
      hide Linked, Retained;
      ghost var before := View();
      NotEmpty(hash, before);
      produced := [];
      for i := 0 to count
        invariant Valid() && View() == MineForks(hash, before, saltBase, i)
        invariant View().canonical == before.canonical + produced
      {
        var block := MineBlock([], Some(saltBase + i));
        produced := produced + [block];
      }
    }

    /** `tx_location`: the canonical blocks are searched from the tip down. */
    method FindTx(txid: string) returns (r: Option<Block>)
      requires Valid()
      ensures r == TxLocation(View(), txid)
    {
      hide Linked, Retained;
      var i := |canonical|;
      while i > 0
        invariant 0 <= i <= |canonical|
        invariant LastIndex(canonical, txid) == LastIndex(canonical[..i], txid)
      {
        i := i - 1;
        assert canonical[..i + 1][..i] == canonical[..i];
        if txid in canonical[i].txs {
          return Some(canonical[i]);
        }
      }
      r := None;
    }
  }
}
