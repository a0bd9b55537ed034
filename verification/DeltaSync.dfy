/**
  * Delta push of a file: the agent indexes the blocks it has, the client sends the blocks that
  * differ, and the agent rebuilds the file from both.
  */
module DeltaSync {
  import opened Prelude
  import opened Adler
  import Channel

  type Bytes = seq<byte>
  type Sha = Bytes -> Digest

  datatype BlockInfo = BlockInfo(offset: nat, size: nat, adler32: nat, sha256: Digest)

  datatype Patch = Patch(offset: nat, data: Bytes)

  /** The agent and the client clamp the requested block size differently. */
  function AgentBlock(blockSize: nat): (bs: nat)
    ensures bs > 0
  {
    Max(blockSize, 1)
  }

  function ClientBlock(blockSize: nat): (bs: nat)
    ensures bs > 0
  {
    Max(blockSize, 1024)
  }

  /** The two agree exactly for block sizes of at least 1024, and then on the requested size. */
  lemma BlockSizesAgreeIff(blockSize: nat)
    ensures AgentBlock(blockSize) == ClientBlock(blockSize) <==> blockSize >= 1024
    ensures AgentBlock(blockSize) == blockSize <==> blockSize > 0
    ensures AgentBlock(0) == 1 && ClientBlock(blockSize) >= 1024
  {
  }

  // ---- Blocks --------------------------------------------------------------------------------

  /** The block of `data` that starts at `offset`; the last one may be short. */
  function Block(data: Bytes, bs: nat, offset: nat): Bytes
    requires offset <= |data|
  {
    data[offset..Min(offset + bs, |data|)]
  }

  predicate Aligned(offset: nat, bs: nat)
    requires bs > 0
  {
    offset % bs == 0
  }

  /** The offset of the block that holds position `p`. */
  function BlockStart(p: nat, bs: nat): (o: nat)
    requires bs > 0
    ensures o <= p < o + bs
  {
    p - p % bs
  }

  lemma BlockStartAligned(p: nat, bs: nat)
    requires bs > 0
    ensures Aligned(BlockStart(p, bs), bs)
  {
    assert p == p / bs * bs + p % bs;
    MultipleAligned(p / bs, bs);
  }

  lemma MultipleAligned(k: nat, bs: nat)
    requires bs > 0
    ensures k * bs % bs == 0
  {
    if k > 0 {
      MultipleAligned(k - 1, bs);
      NextAligned((k - 1) * bs, bs);
      assert (k - 1) * bs + bs == k * bs;
    }
  }

  lemma NextAligned(o: nat, bs: nat)
    requires bs > 0
    ensures (o + bs) % bs == o % bs
  {
    var q, r := o / bs, o % bs;
    assert o + bs == (q + 1) * bs + r;
    UniqueResidue(o + bs, bs, q + 1, r);
  }

  lemma UniqueResidue(n: nat, bs: nat, q: nat, r: nat)
    requires bs > 0 && r < bs && n == q * bs + r
    ensures n % bs == r
  {
    var q', r' := n / bs, n % bs;
    assert (q - q') * bs == r' - r;
    SmallMultiple(q - q', bs);
  }

  lemma SmallMultiple(k: int, bs: int)
    requires bs > 0 && -bs < k * bs < bs
    ensures k == 0
  {
  }

  /** Aligned offsets are a block apart. */
  lemma AlignedApart(o: nat, o': nat, bs: nat)
    requires bs > 0 && Aligned(o, bs) && Aligned(o', bs) && o < o'
    ensures o + bs <= o'
  {
    if o' < o + bs {
      var q := o / bs;
      assert o' == q * bs + (o' - o);
      UniqueResidue(o', bs, q, o' - o);
    }
  }

  // ---- The three computations ------------------------------------------------------------------

  function Info(sha: Sha, data: Bytes, bs: nat, offset: nat): BlockInfo
    requires offset <= |data|
  {
    var block := Block(data, bs, offset);
    BlockInfo(offset, |block|, Checksum(block), sha(block))
  }

  /** One entry for every block of the file. */
  function Index(sha: Sha, data: Bytes, bs: nat): map<nat, BlockInfo>
    requires bs > 0
  {
    IndexUpTo(sha, data, bs, |data|)
  }

  function IndexUpTo(sha: Sha, data: Bytes, bs: nat, n: nat): map<nat, BlockInfo>
    requires bs > 0 && n <= |data|
  {
    map o: nat | 0 <= o < n && Aligned(o, bs) :: Info(sha, data, bs, o)
  }

  predicate Changed(sha: Sha, local: Bytes, bs: nat, index: map<nat, BlockInfo>, offset: nat)
    requires offset <= |local|
  {
    offset !in index
    || index[offset].adler32 != Checksum(Block(local, bs, offset))
    || index[offset].sha256 != sha(Block(local, bs, offset))
  }

  /** The blocks of the local file that the index does not show unchanged. */
  function Diff(sha: Sha, local: Bytes, bs: nat, index: map<nat, BlockInfo>): map<nat, Bytes>
    requires bs > 0
  {
    DiffUpTo(sha, local, bs, index, |local|)
  }

  function DiffUpTo(sha: Sha, local: Bytes, bs: nat, index: map<nat, BlockInfo>, n: nat): map<nat, Bytes>
    requires bs > 0 && n <= |local|
  {
    map o: nat | 0 <= o < n && Aligned(o, bs) && Changed(sha, local, bs, index, o) :: Block(local, bs, o)
  }

  /** A block is left out exactly when the index shows both of its checksums, and is sent as it is otherwise. */
  lemma BothChecksumsDecide(sha: Sha, local: Bytes, bs: nat, index: map<nat, BlockInfo>, o: nat)
    requires bs > 0 && o < |local| && o % bs == 0
    ensures var diff, block := Diff(sha, local, bs, index), local[o..Min(o + bs, |local|)];
            && (o !in diff <==> o in index && index[o].adler32 == Checksum(block) && index[o].sha256 == sha(block))
            && (o in diff ==> diff[o] == block)
  {
    hide Checksum;
  }

  /** A byte of a file that is read as zero past its end. */
  function PadAt(data: Bytes, p: nat): byte {
    if p < |data| then data[p] else 0
  }

  function RebuiltByte(existing: Bytes, patches: map<nat, Bytes>, bs: nat, p: nat): byte
    requires bs > 0
  {
    var o := BlockStart(p, bs);
    if o in patches then PadAt(patches[o], p - o) else PadAt(existing, p)
  }

  function Rebuild(existing: Bytes, patches: map<nat, Bytes>, bs: nat, total: nat): (r: Bytes)
    requires bs > 0
    ensures |r| == total
    ensures forall p :: 0 <= p < total ==> r[p] == RebuiltByte(existing, patches, bs, p)
  {
    seq(total, p requires 0 <= p < total => RebuiltByte(existing, patches, bs, p))
  }

  /** What the agent ends up with for `local` when it holds `remote`. */
  function Rebuilt(sha: Sha, local: Bytes, remote: Bytes, blockSize: nat): Bytes {
    Rebuild(remote, Patches(sha, local, remote, blockSize), AgentBlock(blockSize), |local|)
  }

  function Patches(sha: Sha, local: Bytes, remote: Bytes, blockSize: nat): map<nat, Bytes> {
    Diff(sha, local, ClientBlock(blockSize), Index(sha, remote, AgentBlock(blockSize)))
  }

  // ---- Theorems ----------------------------------------------------------------------------------

  /** A block of the local file and one of the remote file, at one offset, that SHA-256 confuses. */
  ghost predicate BlockCollision(sha: Sha, local: Bytes, remote: Bytes, blockSize: nat) {
    exists o :: 0 <= o < |local| && o < |remote|
                && Collide(sha, Block(local, ClientBlock(blockSize), o), Block(remote, AgentBlock(blockSize), o))
  }

  /** A block is left out of the diff exactly when the agent has the same block. */
  lemma UnchangedIff(sha: Sha, local: Bytes, remote: Bytes, blockSize: nat, o: nat)
    requires o < |local|
    ensures BlockCollision(sha, local, remote, blockSize) ||
            (!Changed(sha, local, ClientBlock(blockSize), Index(sha, remote, AgentBlock(blockSize)), o) <==>
             o < |remote| && Aligned(o, AgentBlock(blockSize))
             && Block(local, ClientBlock(blockSize), o) == Block(remote, AgentBlock(blockSize), o))
  {
    hide Checksum;
    var index := Index(sha, remote, AgentBlock(blockSize));
    if o in index {
      var mine, theirs := Block(local, ClientBlock(blockSize), o), Block(remote, AgentBlock(blockSize), o);
      assert index[o] == Info(sha, remote, AgentBlock(blockSize), o);
      if mine != theirs && sha(mine) == sha(theirs) {
        assert Collide(sha, Block(local, ClientBlock(blockSize), o), Block(remote, AgentBlock(blockSize), o));
      }
    }
  }

  /** A position is repaired when its agent block starts where a client block does. */
  predicate Repaired(blockSize: nat, p: nat) {
    Aligned(BlockStart(p, AgentBlock(blockSize)), ClientBlock(blockSize))
  }

  /** Byte by byte: a repaired position gets the local byte, any other keeps the remote one. */
  lemma RebuiltAt(sha: Sha, local: Bytes, remote: Bytes, blockSize: nat, p: nat)
    requires p < |local|
    requires !BlockCollision(sha, local, remote, blockSize)
    ensures Rebuilt(sha, local, remote, blockSize)[p] ==
            if Repaired(blockSize, p) then local[p] else PadAt(remote, p)
  {
    hide Checksum, Index, Changed, Aligned, BlockStart, BlockCollision, Rebuild;
    var ba, bc := AgentBlock(blockSize), ClientBlock(blockSize);
    var o := BlockStart(p, ba);
    var patches := Patches(sha, local, remote, blockSize);
    assert o in patches <==> Aligned(o, bc) && Changed(sha, local, bc, Index(sha, remote, ba), o);
    UnchangedIff(sha, local, remote, blockSize, o);
    if Aligned(o, bc) {
      if o in patches {
        assert patches[o] == Block(local, bc, o);
        assert patches[o][p - o] == local[p];
      } else {
        var mine, theirs := Block(local, bc, o), Block(remote, ba, o);
        assert mine[p - o] == local[p];
        assert theirs[p - o] == remote[p];
      }
    }
  }

  lemma LargeBlocksRepairAll(blockSize: nat, p: nat)
    requires blockSize >= 1024
    ensures Repaired(blockSize, p)
  {
    BlockStartAligned(p, blockSize);
  }

  /** With a block size of at least 1024 the agent rebuilds the local file, whatever the two files are. */
  lemma RoundTrip(sha: Sha, local: Bytes, remote: Bytes, blockSize: nat)
    requires blockSize >= 1024
    ensures Rebuilt(sha, local, remote, blockSize) == local || BlockCollision(sha, local, remote, blockSize)
  {
    if !BlockCollision(sha, local, remote, blockSize) {
      forall p | 0 <= p < |local| ensures Rebuilt(sha, local, remote, blockSize)[p] == local[p] {
        RebuiltAt(sha, local, remote, blockSize, p);
        LargeBlocksRepairAll(blockSize, p);
      }
    }
  }

  /** For any block size: exactly when the positions that are not repaired already agree. */
  lemma RoundTripIff(sha: Sha, local: Bytes, remote: Bytes, blockSize: nat)
    requires !BlockCollision(sha, local, remote, blockSize)
    ensures Rebuilt(sha, local, remote, blockSize) == local <==>
            forall p :: 0 <= p < |local| && !Repaired(blockSize, p) ==> local[p] == PadAt(remote, p)
  {
    forall p | 0 <= p < |local|
      ensures Rebuilt(sha, local, remote, blockSize)[p] ==
              if Repaired(blockSize, p) then local[p] else PadAt(remote, p)
    {
      RebuiltAt(sha, local, remote, blockSize, p);
    }
  }

  /** A file that a smaller block size cannot transfer onto an empty one. */
  function Spoiler(blockSize: nat): Bytes {
    seq(AgentBlock(blockSize), _ => 0) + [1]
  }

  /** Below 1024 the round trip fails for some pair of files, whatever the hash is. */
  lemma SmallBlocksFail(sha: Sha, blockSize: nat)
    requires blockSize < 1024
    ensures Rebuilt(sha, Spoiler(blockSize), [], blockSize) != Spoiler(blockSize)
  {
    hide Checksum, Index, Changed;
    var local, p := Spoiler(blockSize), AgentBlock(blockSize);
    UniqueResidue(p, p, 1, 0);
    assert p !in Patches(sha, local, [], blockSize);
    assert RebuiltByte([], Patches(sha, local, [], blockSize), p, p) == 0;
  }

  /** So the round trip holds for all pairs of files exactly for block sizes of at least 1024. */
  lemma RoundTripForAllIff(sha: Sha, blockSize: nat)
    ensures (forall local, remote ::
               Rebuilt(sha, local, remote, blockSize) == local || BlockCollision(sha, local, remote, blockSize))
            <==> blockSize >= 1024
  {
    hide Rebuilt;
    if blockSize >= 1024 {
      forall local, remote
        ensures Rebuilt(sha, local, remote, blockSize) == local || BlockCollision(sha, local, remote, blockSize)
      {
        RoundTrip(sha, local, remote, blockSize);
      }
    } else {
      SmallBlocksFail(sha, blockSize);
      assert !BlockCollision(sha, Spoiler(blockSize), [], blockSize);
    }
  }

  /** The client takes the remote file for up to date exactly when no block differs. */
  lemma NoPatchesIff(sha: Sha, local: Bytes, remote: Bytes, blockSize: nat)
    requires !BlockCollision(sha, local, remote, blockSize)
    ensures Patches(sha, local, remote, blockSize) == map[] <==>
            forall o: nat :: o < |local| && Aligned(o, ClientBlock(blockSize)) ==>
              SameBlock(local, remote, blockSize, o)
  {
    hide Checksum, Index, Changed;
    var bc := ClientBlock(blockSize);
    var patches := Patches(sha, local, remote, blockSize);
    forall o: nat | o < |local| && Aligned(o, bc)
      ensures o !in patches <==> SameBlock(local, remote, blockSize, o)
    {
      UnchangedIff(sha, local, remote, blockSize, o);
    }
    if forall o: nat :: o < |local| && Aligned(o, bc) ==> SameBlock(local, remote, blockSize, o) {
      assert forall o :: o !in patches;
    }
  }

  ghost predicate SameBlock(local: Bytes, remote: Bytes, blockSize: nat, o: nat)
    requires o <= |local|
  {
    && o < |remote| && Aligned(o, AgentBlock(blockSize))
    && Block(local, ClientBlock(blockSize), o) == Block(remote, AgentBlock(blockSize), o)
  }

  /** `local` is `remote` cut off at a block boundary. */
  ghost predicate CutAtBlock(local: Bytes, remote: Bytes, bs: nat)
    requires bs > 0
  {
    |local| < |remote| && local == remote[..|local|] && Aligned(|local|, bs)
  }

  /**
    * With a block size of at least 1024 nothing is sent exactly when the files are equal or the
    * local one is the remote one cut off at a block boundary; in that second case the push is
    * reported as up to date although the files differ.
    */
  lemma UpToDateIff(sha: Sha, local: Bytes, remote: Bytes, blockSize: nat)
    requires blockSize >= 1024
    requires !BlockCollision(sha, local, remote, blockSize)
    ensures Patches(sha, local, remote, blockSize) == map[] <==>
            local == remote || CutAtBlock(local, remote, blockSize)
  {
    hide Patches;
    NoPatchesIff(sha, local, remote, blockSize);
    if local == remote || CutAtBlock(local, remote, blockSize) {
      forall o: nat | o < |local| && Aligned(o, blockSize) ensures SameBlock(local, remote, blockSize, o) {
        if local != remote {
          AlignedApart(o, |local|, blockSize);
        }
      }
    } else {
      DifferentBlock(local, remote, blockSize);
    }
  }

  predicate Agree(local: Bytes, remote: Bytes, p: nat)
    requires p < |local|
  {
    p < |remote| && local[p] == remote[p]
  }

  /** Files that are neither equal nor cut at a block boundary differ in some block of the local one. */
  lemma DifferentBlock(local: Bytes, remote: Bytes, blockSize: nat)
    requires blockSize >= 1024
    requires local != remote && !CutAtBlock(local, remote, blockSize)
    ensures exists o: nat :: o < |local| && Aligned(o, blockSize) && !SameBlock(local, remote, blockSize, o)
  {
    if exists p: nat :: p < |local| && !Agree(local, remote, p) {
      var p: nat :| p < |local| && !Agree(local, remote, p);
      DifferentByte(local, remote, blockSize, p);
    } else {
      if |local| > 0 {
        var p := |local| - 1;
        assert Agree(local, remote, p);
      }
      forall p: nat | p < |local| ensures local[p] == remote[..|local|][p] {
        assert Agree(local, remote, p);
      }
      assert local == remote[..|local|];
      assert |local| < |remote|;
      ShortLastBlock(local, remote, blockSize);
    }
  }

  lemma DifferentByte(local: Bytes, remote: Bytes, blockSize: nat, p: nat)
    requires blockSize >= 1024
    requires p < |local| && !Agree(local, remote, p)
    ensures var o := BlockStart(p, blockSize);
            o < |local| && Aligned(o, blockSize) && !SameBlock(local, remote, blockSize, o)
  {
    var o := BlockStart(p, blockSize);
    BlockStartAligned(p, blockSize);
    assert Block(local, blockSize, o)[p - o] == local[p];
    if o < |remote| && p - o < |Block(remote, blockSize, o)| {
      assert Block(remote, blockSize, o)[p - o] == remote[p];
    }
  }

  lemma ShortLastBlock(local: Bytes, remote: Bytes, blockSize: nat)
    requires blockSize >= 1024
    requires |local| < |remote| && !Aligned(|local|, blockSize)
    ensures var o := BlockStart(|local|, blockSize);
            o < |local| && Aligned(o, blockSize) && !SameBlock(local, remote, blockSize, o)
  {
    var o := BlockStart(|local|, blockSize);
    BlockStartAligned(|local|, blockSize);
    assert |Block(local, blockSize, o)| == |local| - o;
    assert |Block(remote, blockSize, o)| > |local| - o;
  }

  /** Below 1024, nothing is sent exactly when the local file is empty or the remote file's first block. */
  lemma UpToDateSmallIff(sha: Sha, local: Bytes, remote: Bytes, blockSize: nat)
    requires blockSize < 1024
    requires !BlockCollision(sha, local, remote, blockSize)
    ensures Patches(sha, local, remote, blockSize) == map[] <==>
            local == [] || (remote != [] && local == Block(remote, AgentBlock(blockSize), 0))
  {
    hide Patches, Aligned;
    NoPatchesIff(sha, local, remote, blockSize);
    if local != [] {
      Zero(1024);
      Zero(AgentBlock(blockSize));
      if |local| >= 1024 {
        assert !SameBlock(local, remote, blockSize, 0);
      } else {
        OnlyFirstAligned(|local|);
        assert Block(local, 1024, 0) == local;
        assert SameBlock(local, remote, blockSize, 0) <==>
               remote != [] && local == Block(remote, AgentBlock(blockSize), 0);
      }
    }
  }

  // ---- The code ------------------------------------------------------------------------------------

  function ByOffset(blocks: seq<BlockInfo>): map<nat, BlockInfo> {
    if blocks == [] then map[] else ByOffset(Front(blocks))[Last(blocks).offset := Last(blocks)]
  }

  function PatchMap(patches: seq<Patch>): map<nat, Bytes> {
    if patches == [] then map[] else PatchMap(Front(patches))[Last(patches).offset := Last(patches).data]
  }

  /** A loop that walks a file block by block stands at an aligned offset or at the end. */
  predicate AtBoundary(data: Bytes, bs: nat, offset: nat)
    requires bs > 0
  {
    offset == |data| || (offset < |data| && Aligned(offset, bs))
  }

  lemma AdvanceBlock(data: Bytes, bs: nat, offset: nat)
    requires bs > 0 && offset < |data| && AtBoundary(data, bs, offset)
    ensures var next := offset + |Block(data, bs, offset)|;
            && offset < next && AtBoundary(data, bs, next)
            && forall o: nat :: offset < o < next && o < |data| ==> !Aligned(o, bs)
  {
    NextAligned(offset, bs);
    var next := offset + |Block(data, bs, offset)|;
    forall o: nat | offset < o < next && o < |data| ensures !Aligned(o, bs) {
      if Aligned(o, bs) {
        AlignedApart(offset, o, bs);
      }
    }
  }

  lemma IndexGrows(sha: Sha, data: Bytes, bs: nat, offset: nat)
    requires bs > 0 && offset < |data| && AtBoundary(data, bs, offset)
    ensures var next := offset + |Block(data, bs, offset)|;
            && offset < next && AtBoundary(data, bs, next)
            && IndexUpTo(sha, data, bs, next) == IndexUpTo(sha, data, bs, offset)[offset := Info(sha, data, bs, offset)]
  {
    hide Aligned, Info;
    AdvanceBlock(data, bs, offset);
  }

  lemma DiffGrows(sha: Sha, local: Bytes, bs: nat, index: map<nat, BlockInfo>, offset: nat)
    requires bs > 0 && offset < |local| && AtBoundary(local, bs, offset)
    ensures var next := offset + |Block(local, bs, offset)|;
            var before := DiffUpTo(sha, local, bs, index, offset);
            && offset < next && AtBoundary(local, bs, next)
            && DiffUpTo(sha, local, bs, index, next) ==
               if Changed(sha, local, bs, index, offset) then before[offset := Block(local, bs, offset)] else before
  {
    hide Aligned, Changed;
    AdvanceBlock(local, bs, offset);
  }

  // ---- The lists that are sent -----------------------------------------------------------------------------

  /** The index entries of the blocks from `offset` on, in file order. */
  function BlocksFrom(sha: Sha, data: Bytes, bs: nat, offset: nat): seq<BlockInfo>
    requires bs > 0 && offset <= |data|
    decreases |data| - offset
  {
    if offset == |data| then []
    else [Info(sha, data, bs, offset)] + BlocksFrom(sha, data, bs, offset + |Block(data, bs, offset)|)
  }

  /** The patches for the changed blocks from `offset` on, in file order. */
  function PatchesFrom(sha: Sha, local: Bytes, bs: nat, index: map<nat, BlockInfo>, offset: nat): seq<Patch>
    requires bs > 0 && offset <= |local|
    decreases |local| - offset
  {
    if offset == |local| then []
    else
      (if Changed(sha, local, bs, index, offset) then [Patch(offset, Block(local, bs, offset))] else [])
      + PatchesFrom(sha, local, bs, index, offset + |Block(local, bs, offset)|)
  }

  function IndexList(sha: Sha, remote: Bytes, blockSize: nat): seq<BlockInfo> {
    BlocksFrom(sha, remote, AgentBlock(blockSize), 0)
  }

  function PatchList(sha: Sha, local: Bytes, remote: Bytes, blockSize: nat): seq<Patch> {
    PatchesFrom(sha, local, ClientBlock(blockSize), Index(sha, remote, AgentBlock(blockSize)), 0)
  }

  lemma BlocksStep(sha: Sha, data: Bytes, bs: nat, offset: nat)
    requires bs > 0 && offset < |data|
    ensures BlocksFrom(sha, data, bs, offset) ==
            [Info(sha, data, bs, offset)] + BlocksFrom(sha, data, bs, offset + |Block(data, bs, offset)|)
  {
    hide Info;
  }

  lemma PatchesStep(sha: Sha, local: Bytes, bs: nat, index: map<nat, BlockInfo>, offset: nat)
    requires bs > 0 && offset < |local|
    ensures PatchesFrom(sha, local, bs, index, offset) ==
            (if Changed(sha, local, bs, index, offset) then [Patch(offset, Block(local, bs, offset))] else [])
            + PatchesFrom(sha, local, bs, index, offset + |Block(local, bs, offset)|)
  {
    hide Changed;
  }

  lemma ListsEnd(sha: Sha, data: Bytes, bs: nat, index: map<nat, BlockInfo>)
    requires bs > 0
    ensures BlocksFrom(sha, data, bs, |data|) == []
    ensures PatchesFrom(sha, data, bs, index, |data|) == []
  {
  }

  /** Nothing is listed from `offset` on exactly when no block from there on has changed. */
  lemma {:induction false} NothingListed(sha: Sha, local: Bytes, bs: nat, index: map<nat, BlockInfo>, offset: nat)
    requires bs > 0 && offset <= |local| && AtBoundary(local, bs, offset)
    ensures PatchesFrom(sha, local, bs, index, offset) == [] <==>
            forall o: nat :: offset <= o < |local| && Aligned(o, bs) ==> !Changed(sha, local, bs, index, o)
    decreases |local| - offset
  {
    hide Changed, Aligned;
    if offset < |local| {
      AdvanceBlock(local, bs, offset);
      NothingListed(sha, local, bs, index, offset + |Block(local, bs, offset)|);
    }
  }

  lemma EmptyListIff(sha: Sha, local: Bytes, remote: Bytes, blockSize: nat)
    ensures PatchList(sha, local, remote, blockSize) == [] <==> Patches(sha, local, remote, blockSize) == map[]
  {
    hide Changed, Index, Aligned, PatchesFrom;
    var bs, index := ClientBlock(blockSize), Index(sha, remote, AgentBlock(blockSize));
    var patches := Patches(sha, local, remote, blockSize);
    assert local == [] || AtBoundary(local, bs, 0) by {
      Zero(bs);
    }
    NothingListed(sha, local, bs, index, 0);
    if patches != map[] {
      var o :| o in patches;
      assert Changed(sha, local, bs, index, o);
    }
    if o: nat :| o < |local| && Aligned(o, bs) && Changed(sha, local, bs, index, o) {
      assert o in patches;
    }
  }

  function PatchBytes(patches: seq<Patch>): nat {
    if patches == [] then 0 else |patches[0].data| + PatchBytes(patches[1..])
  }

  /** The sizes of the two encoded messages; each holds at least the digests or the bytes it carries. */
  datatype Codec = Codec(indexSize: seq<BlockInfo> -> nat, patchSize: seq<Patch> -> nat) {
    ghost predicate Lawful() {
      && (forall blocks :: indexSize(blocks) >= 64 * |blocks|)
      && (forall patches :: patchSize(patches) >= PatchBytes(patches))
    }
  }

  lemma ByOffsetSnoc(blocks: seq<BlockInfo>, info: BlockInfo)
    ensures ByOffset(blocks + [info]) == ByOffset(blocks)[info.offset := info]
  {
    assert Front(blocks + [info]) == blocks;
  }

  lemma NoIndexYet(sha: Sha, data: Bytes, bs: nat)
    requires bs > 0
    ensures ByOffset([]) == IndexUpTo(sha, data, bs, 0)
    ensures AtBoundary(data, bs, 0)
  {
  }

  method DescribeBlock(sha: Sha, data: Bytes, bs: nat, offset: nat) returns (info: BlockInfo)
    requires offset <= |data|
    ensures info == Info(sha, data, bs, offset)
  {
    hide Checksum;
    var chunk := data[offset..Min(offset + bs, |data|)];
    var adler := Adler32(chunk);
    info := BlockInfo(offset, |chunk|, adler as int, sha(chunk));
  }

  /** The index is complete up to `offset`, as a list and as a map. */
  ghost predicate IndexedUpTo(sha: Sha, data: Bytes, bs: nat, blocks: seq<BlockInfo>, offset: nat)
    requires bs > 0
  {
    && offset <= |data| && AtBoundary(data, bs, offset)
    && ByOffset(blocks) == IndexUpTo(sha, data, bs, offset)
    && blocks + BlocksFrom(sha, data, bs, offset) == BlocksFrom(sha, data, bs, 0)
  }

  lemma NothingIndexed(sha: Sha, data: Bytes, bs: nat)
    requires bs > 0
    ensures IndexedUpTo(sha, data, bs, [], 0)
  {
    hide BlocksFrom, IndexUpTo;
    NoIndexYet(sha, data, bs);
  }

  lemma AllIndexed(sha: Sha, data: Bytes, bs: nat, blocks: seq<BlockInfo>)
    requires bs > 0 && IndexedUpTo(sha, data, bs, blocks, |data|)
    ensures blocks == BlocksFrom(sha, data, bs, 0) && ByOffset(blocks) == Index(sha, data, bs)
  {
    hide BlocksFrom, IndexUpTo, ByOffset;
    ListsEnd(sha, data, bs, map[]);
  }

  lemma OneMoreIndexed(sha: Sha, data: Bytes, bs: nat, blocks: seq<BlockInfo>, offset: nat)
    requires bs > 0 && offset < |data| && IndexedUpTo(sha, data, bs, blocks, offset)
    ensures var info := Info(sha, data, bs, offset);
            info.size > 0 && IndexedUpTo(sha, data, bs, blocks + [info], offset + info.size)
  {
    hide Info, Block, IndexUpTo, ByOffset, AtBoundary, BlocksFrom;
    var info := Info(sha, data, bs, offset);
    InfoFields(sha, data, bs, offset);
    var rest := BlocksFrom(sha, data, bs, offset + info.size);
    IndexGrows(sha, data, bs, offset);
    BlocksStep(sha, data, bs, offset);
    ByOffsetSnoc(blocks, info);
    assert blocks + ([info] + rest) == blocks + [info] + rest;
  }

  lemma InfoFields(sha: Sha, data: Bytes, bs: nat, offset: nat)
    requires offset <= |data|
    ensures var info := Info(sha, data, bs, offset);
            info.offset == offset && info.size == |Block(data, bs, offset)| <= |data| - offset
  {
  }

  method BuildIndex(sha: Sha, data: Bytes, blockSize: nat) returns (blocks: seq<BlockInfo>)
    ensures blocks == IndexList(sha, data, blockSize)
    ensures ByOffset(blocks) == Index(sha, data, AgentBlock(blockSize))
  {
    var bs := if blockSize > 1 then blockSize else 1;
    hide Info, IndexedUpTo, BlocksFrom, Index, ByOffset;
    blocks := [];
    var offset := 0;
    NothingIndexed(sha, data, bs);
    while offset < |data|
      invariant offset <= |data| && IndexedUpTo(sha, data, bs, blocks, offset)
      decreases |data| - offset
    {
      OneMoreIndexed(sha, data, bs, blocks, offset);
      var info := DescribeBlock(sha, data, bs, offset);
      blocks := blocks + [info];
      offset := offset + info.size;
      WithinFile(sha, data, bs, blocks, offset);
    }
    AllIndexed(sha, data, bs, blocks);
  }

  lemma WithinFile(sha: Sha, data: Bytes, bs: nat, blocks: seq<BlockInfo>, offset: nat)
    requires bs > 0 && IndexedUpTo(sha, data, bs, blocks, offset)
    ensures offset <= |data|
  {
  }

  lemma OnlyFirstAligned(n: nat)
    requires n < 1024
    ensures forall o: nat :: o < n && Aligned(o, 1024) ==> o == 0
  {
  }

  lemma Zero(bs: nat)
    requires bs > 0
    ensures Aligned(0, bs)
  {
  }

  lemma PatchMapSnoc(patches: seq<Patch>, p: Patch)
    ensures PatchMap(patches + [p]) == PatchMap(patches)[p.offset := p.data]
  {
    assert Front(patches + [p]) == patches;
  }

  lemma PatchMapEmptyIff(patches: seq<Patch>)
    ensures PatchMap(patches) == map[] <==> patches == []
  {
    if patches != [] {
      assert Last(patches).offset in PatchMap(patches);
    }
  }

  lemma NothingDiffersYet(sha: Sha, local: Bytes, bs: nat, index: map<nat, BlockInfo>)
    requires bs > 0
    ensures PatchMap([]) == DiffUpTo(sha, local, bs, index, 0)
    ensures AtBoundary(local, bs, 0)
  {
  }

  method BlockChanged(sha: Sha, local: Bytes, bs: nat, index: map<nat, BlockInfo>, offset: nat) returns (changed: bool)
    requires offset <= |local|
    ensures changed == Changed(sha, local, bs, index, offset)
  {
    hide Checksum;
    var chunk := local[offset..Min(offset + bs, |local|)];
    var adler := Adler32(chunk);
    changed := true;
    if offset in index {
      changed := index[offset].adler32 != adler as int || index[offset].sha256 != sha(chunk);
    }
  }

  lemma OmittedBlocks(sha: Sha, local: Bytes, bs: nat, index: map<nat, BlockInfo>)
    requires bs > 0
    ensures forall o :: 0 <= o < |local| && Aligned(o, bs) ==>
              var block := Block(local, bs, o);
              (o !in Diff(sha, local, bs, index) <==>
               o in index && index[o].adler32 == Checksum(block) && index[o].sha256 == sha(block))
  {
    hide Checksum, Diff;
    forall o | 0 <= o < |local| && Aligned(o, bs)
      ensures var block := Block(local, bs, o);
              (o !in Diff(sha, local, bs, index) <==>
               o in index && index[o].adler32 == Checksum(block) && index[o].sha256 == sha(block))
    {
      BothChecksumsDecide(sha, local, bs, index, o);
    }
  }

  method ComputeDiff(sha: Sha, local: Bytes, blockSize: nat, index: map<nat, BlockInfo>) returns (patches: seq<Patch>)
    ensures PatchMap(patches) == Diff(sha, local, ClientBlock(blockSize), index)
    ensures patches == PatchesFrom(sha, local, ClientBlock(blockSize), index, 0)
    ensures patches == [] <==> Diff(sha, local, ClientBlock(blockSize), index) == map[]
    ensures forall o :: 0 <= o < |local| && Aligned(o, ClientBlock(blockSize)) ==>
              var block := Block(local, ClientBlock(blockSize), o);
              (o !in PatchMap(patches) <==>
               o in index && index[o].adler32 == Checksum(block) && index[o].sha256 == sha(block))
  {
    var bs := if blockSize > 1024 then blockSize else 1024;
    hide Changed, AtBoundary, DiffUpTo, PatchesFrom, PatchMap, Checksum, Aligned;
    ListsEnd(sha, local, bs, index);
    NothingDiffersYet(sha, local, bs, index);
    patches := [];
    var offset := 0;
    while offset < |local|
      invariant offset <= |local| && AtBoundary(local, bs, offset)
      invariant PatchMap(patches) == DiffUpTo(sha, local, bs, index, offset)
      invariant patches + PatchesFrom(sha, local, bs, index, offset) == PatchesFrom(sha, local, bs, index, 0)
      decreases |local| - offset
    {
      DiffGrows(sha, local, bs, index, offset);
      PatchesStep(sha, local, bs, index, offset);
      var chunk := local[offset..Min(offset + bs, |local|)];
      var changed := BlockChanged(sha, local, bs, index, offset);
      if changed {
        PatchMapSnoc(patches, Patch(offset, chunk));
        patches := patches + [Patch(offset, chunk)];
      }
      offset := offset + |chunk|;
    }
    PatchMapEmptyIff(patches);
    OmittedBlocks(sha, local, bs, index);
  }

  /** One block of the new file: from its patch if there is one, else from the old file, zero-filled. */
  method NextPiece(existing: Bytes, patches: map<nat, Bytes>, offset: nat, size: nat) returns (piece: Bytes)
    ensures |piece| == size
    ensures forall i :: 0 <= i < size ==>
              piece[i] == if offset in patches then PadAt(patches[offset], i) else PadAt(existing, offset + i)
  {
    if offset in patches {
      var take := if size < |patches[offset]| then size else |patches[offset]|;
      piece := patches[offset][..take];
      if take < size {
        piece := piece + seq(size - take, _ => 0);
      }
    } else if offset < |existing| {
      var end := if offset + size < |existing| then offset + size else |existing|;
      piece := existing[offset..end];
      if end - offset < size {
        piece := piece + seq(size - (end - offset), _ => 0);
      }
    } else {
      piece := seq(size, _ => 0);
    }
  }

  method ApplyPatches(existing: Bytes, patches: map<nat, Bytes>, blockSize: nat, total: nat) returns (file: Bytes)
    ensures file == Rebuild(existing, patches, AgentBlock(blockSize), total)
  {
    hide Aligned;
    var bs := if blockSize > 1 then blockSize else 1;
    file := [];
    ghost var whole := Rebuild(existing, patches, bs, total);
    var offset := 0;
    Zero(bs);
    while offset < total
      invariant AtBoundary(whole, bs, offset)
      invariant file == whole[..offset]
      decreases total - offset
    {
      AdvanceBlock(whole, bs, offset);
      var size := if total - offset < bs then total - offset else bs;
      var piece := NextPiece(existing, patches, offset, size);
      BlockOfRebuilt(existing, patches, bs, total, offset);
      assert piece == Block(whole, bs, offset);
      file := file + piece;
      offset := offset + size;
    }
  }

  lemma BlockOfRebuilt(existing: Bytes, patches: map<nat, Bytes>, bs: nat, total: nat, offset: nat)
    requires bs > 0 && offset < total && Aligned(offset, bs)
    ensures var block := Block(Rebuild(existing, patches, bs, total), bs, offset);
            forall i :: 0 <= i < |block| ==>
              block[i] == if offset in patches then PadAt(patches[offset], i) else PadAt(existing, offset + i)
  {
    SameBlockStart(offset, bs);
    var whole := Rebuild(existing, patches, bs, total);
    var block := Block(whole, bs, offset);
    forall i | 0 <= i < |block|
      ensures block[i] == if offset in patches then PadAt(patches[offset], i) else PadAt(existing, offset + i)
    {
      assert BlockStart(offset + i, bs) == offset;
      assert block[i] == whole[offset + i] == RebuiltByte(existing, patches, bs, offset + i);
    }
  }

  /** All positions of a block share its start. */
  lemma SameBlockStart(offset: nat, bs: nat)
    requires bs > 0 && Aligned(offset, bs)
    ensures forall p: nat :: offset <= p < offset + bs ==> BlockStart(p, bs) == offset
  {
    forall p: nat | offset <= p < offset + bs ensures BlockStart(p, bs) == offset {
      UniqueResidue(p, bs, offset / bs, p - offset);
    }
  }

  datatype Outcome =
    | FullTransfer // the agent has no such file: streamed whole instead
    | UpToDate     // nothing sent
    | Applied      // the agent rebuilt the file and its checksum matched
    | Refused      // checksum mismatch, nothing written
    | TooLarge     // the index or the patches exceed one frame: the push fails, nothing written
    | Failed       // denied, over the size limit, or an error of the agent's file system

  /**
    * How the agent fares: whether it answers the query, allows the patch, can read its old file when
    * it applies the patch, and can install the new one.
    */
  datatype Agent = Agent(answers: bool, allows: bool, readsOld: bool, installs: bool)

  const Willing := Agent(true, true, true, true)

  predicate Fits(size: nat) {
    size <= Channel.MAX_FRAME_PAYLOAD
  }

  /** What the agent rebuilds; an old file it cannot read counts as empty. */
  function RebuiltBy(sha: Sha, agent: Agent, local: Bytes, remote: Bytes, blockSize: nat): Bytes {
    var existing := if agent.readsOld then remote else [];
    Rebuild(existing, Patches(sha, local, remote, blockSize), AgentBlock(blockSize), |local|)
  }

  /** How a push onto an existing file ends. The index and the patches travel in one frame each. */
  function DeltaOutcome(sha: Sha, codec: Codec, agent: Agent, local: Bytes, remote: Bytes, blockSize: nat): Outcome {
    var patches := PatchList(sha, local, remote, blockSize);
    if !agent.answers then Failed
    else if !Fits(codec.indexSize(IndexList(sha, remote, blockSize))) then TooLarge
    else if patches == [] then UpToDate
    else if !Fits(codec.patchSize(patches)) then TooLarge
    else if !agent.allows then Failed
    else if sha(RebuiltBy(sha, agent, local, remote, blockSize)) != sha(local) then Refused
    else if !agent.installs then Failed
    else Applied
  }

  /**
    * One delta push, start to end. Whatever the block size and however the agent fares, its file
    * becomes the local file or stays as it was, short of a SHA-256 collision; and "applied" means it
    * is the local file.
    */
  method DeltaPush(sha: Sha, codec: Codec, agent: Agent, local: Bytes, remote: Option<Bytes>, blockSize: nat)
    returns (outcome: Outcome, after: Option<Bytes>)
    ensures remote.Some? ==> outcome == DeltaOutcome(sha, codec, agent, local, remote.value, blockSize)
    ensures remote == None ==>
              outcome == if !agent.answers then Failed else if Fits(codec.indexSize([])) then FullTransfer else TooLarge
    ensures outcome == FullTransfer ==> after == Some(local)
    ensures outcome == UpToDate ==> Patches(sha, local, remote.value, blockSize) == map[]
    ensures outcome == Applied ==>
              && Patches(sha, local, remote.value, blockSize) != map[]
              && after.Some? && (after.value == local || Collide(sha, after.value, local))
    ensures outcome == Refused ==> RebuiltBy(sha, agent, local, remote.value, blockSize) != local
    ensures outcome != FullTransfer && outcome != Applied ==> after == remote
  {
    hide PatchesFrom, BlocksFrom, Index, Diff, Rebuild;
    if !agent.answers {
      return Failed, remote;
    }
    if remote == None {
      if codec.indexSize([]) > Channel.MAX_FRAME_PAYLOAD {
        return TooLarge, None;
      }
      return FullTransfer, Some(local);
    }
    var blocks := BuildIndex(sha, remote.value, blockSize);
    if codec.indexSize(blocks) > Channel.MAX_FRAME_PAYLOAD {
      return TooLarge, remote;
    }
    var patches := ComputeDiff(sha, local, blockSize, ByOffset(blocks));
    if patches == [] {
      return UpToDate, remote;
    }
    if codec.patchSize(patches) > Channel.MAX_FRAME_PAYLOAD {
      return TooLarge, remote;
    }
    if !agent.allows {
      return Failed, remote;
    }
    var existing := if agent.readsOld then remote.value else [];
    var file := ApplyPatches(existing, PatchMap(patches), blockSize, |local|);
    if sha(file) != sha(local) {
      return Refused, remote;
    }
    if !agent.installs {
      return Failed, remote;
    }
    return Applied, Some(file);
  }

  /**
    * With a block size of at least 1024 the rebuilt file is the local one, and an empty diff of
    * different files means a cut.
    */
  lemma LargeBlockPushSucceeds(sha: Sha, local: Bytes, remote: Bytes, blockSize: nat)
    requires blockSize >= 1024
    requires !BlockCollision(sha, local, remote, blockSize)
    ensures Rebuilt(sha, local, remote, blockSize) == local
    ensures Patches(sha, local, remote, blockSize) == map[] && local != remote ==> CutAtBlock(local, remote, blockSize)
  {
    RoundTrip(sha, local, remote, blockSize);
    UpToDateIff(sha, local, remote, blockSize);
  }

  /** Index and patches, if there are any, fit one frame each. */
  predicate MessagesFit(sha: Sha, codec: Codec, local: Bytes, remote: Bytes, blockSize: nat) {
    var patches := PatchList(sha, local, remote, blockSize);
    && codec.indexSize(IndexList(sha, remote, blockSize)) <= 65519
    && (patches == [] || codec.patchSize(patches) <= 65519)
  }

  /**
    * With a block size of at least 1024 a push completes exactly when the agent answers, the index
    * and, if there are any, the patches fit one frame each, and the agent allows and installs them; it
    * is refused only by an agent that cannot read its old file, and it reports "up to date" exactly
    * when the index arrives and the files are equal or the local one is cut at a block boundary. Each of
    * the other ends has its exact condition as well.
    */
  lemma LargeBlockPushCompletesIff(
    sha: Sha, codec: Codec, agent: Agent, local: Bytes, remote: Bytes, blockSize: nat)
    requires blockSize >= 1024
    requires !BlockCollision(sha, local, remote, blockSize)
    ensures var outcome := DeltaOutcome(sha, codec, agent, local, remote, blockSize);
            var indexFits := codec.indexSize(IndexList(sha, remote, blockSize)) <= 65519;
            var same := local == remote || CutAtBlock(local, remote, blockSize);
            var rebuilds := agent.readsOld || sha(RebuiltBy(sha, agent, local, remote, blockSize)) == sha(local);
            && (outcome == UpToDate || outcome == Applied <==>
                agent.answers && MessagesFit(sha, codec, local, remote, blockSize)
                && (same || (agent.allows && rebuilds && agent.installs)))
            && (outcome == UpToDate <==> agent.answers && indexFits && same)
            && (outcome == TooLarge <==> agent.answers && !MessagesFit(sha, codec, local, remote, blockSize))
            && (outcome == Refused <==>
                agent.answers && MessagesFit(sha, codec, local, remote, blockSize)
                && !same && agent.allows && !rebuilds)
            && (outcome == Failed <==>
                !agent.answers
                || (MessagesFit(sha, codec, local, remote, blockSize)
                    && !same && (!agent.allows || (rebuilds && !agent.installs))))
  {
    hide Rebuilt, RebuiltBy, PatchList, IndexList, BlockCollision, CutAtBlock, Patches;
    RoundTrip(sha, local, remote, blockSize);
    if agent.readsOld {
      RebuiltByReader(sha, agent, local, remote, blockSize);
    }
    UpToDateIff(sha, local, remote, blockSize);
    EmptyListIff(sha, local, remote, blockSize);
  }

  lemma RebuiltByReader(sha: Sha, agent: Agent, local: Bytes, remote: Bytes, blockSize: nat)
    requires agent.readsOld
    ensures RebuiltBy(sha, agent, local, remote, blockSize) == Rebuilt(sha, local, remote, blockSize)
  {
  }

  /** The two files agree wherever no patch can repair the agent's. */
  ghost predicate AgreeUnrepaired(local: Bytes, remote: Bytes, blockSize: nat) {
    forall p :: 0 <= p < |local| && !Repaired(blockSize, p) ==> local[p] == PadAt(remote, p)
  }

  /** The local file is empty or the agent's first block. */
  predicate FirstBlockOnly(local: Bytes, remote: Bytes, blockSize: nat) {
    local == [] || (remote != [] && local == Block(remote, AgentBlock(blockSize), 0))
  }

  /**
    * Below 1024, with a willing agent: up to date exactly for an empty file or the agent's first
    * block whose index fits; otherwise, if the messages fit, applied exactly when the files agree
    * wherever block starts do not coincide, short of a SHA-256 collision of the whole file, and
    * refused in the other cases.
    */
  lemma SmallBlockPushIff(sha: Sha, codec: Codec, local: Bytes, remote: Bytes, blockSize: nat)
    requires blockSize < 1024
    requires !BlockCollision(sha, local, remote, blockSize)
    ensures var outcome := DeltaOutcome(sha, codec, Willing, local, remote, blockSize);
            var fits := MessagesFit(sha, codec, local, remote, blockSize);
            var same := FirstBlockOnly(local, remote, blockSize);
            var matches := AgreeUnrepaired(local, remote, blockSize)
                           || Collide(sha, Rebuilt(sha, local, remote, blockSize), local);
            && (outcome == TooLarge <==> !fits)
            && (outcome == UpToDate <==> fits && same)
            && (outcome == Applied <==> fits && !same && matches)
            && (outcome == Refused <==> fits && !same && !matches)
  {
    hide Rebuilt, PatchList, IndexList, BlockCollision, Patches, Repaired;
    RoundTripIff(sha, local, remote, blockSize);
    RebuiltByReader(sha, Willing, local, remote, blockSize);
    UpToDateSmallIff(sha, local, remote, blockSize);
    EmptyListIff(sha, local, remote, blockSize);
  }

  /**
    * An agent that cannot read its old file applies a patch only if the rest of the local file is zero,
    * or by a collision.
    */
  lemma UnreadableOldFile(sha: Sha, codec: Codec, agent: Agent, local: Bytes, remote: Bytes, blockSize: nat)
    requires !agent.readsOld && DeltaOutcome(sha, codec, agent, local, remote, blockSize) == Applied
    ensures var rebuilt := RebuiltBy(sha, agent, local, remote, blockSize);
            || Collide(sha, rebuilt, local)
            || forall p ::
                 0 <= p < |local| && BlockStart(p, AgentBlock(blockSize)) !in Patches(sha, local, remote, blockSize)
                 ==> local[p] == 0
  {
    hide Patches, PatchList, IndexList, BlockStart;
    var rebuilt := RebuiltBy(sha, agent, local, remote, blockSize);
    if rebuilt == local {
      forall p | 0 <= p < |local| && BlockStart(p, AgentBlock(blockSize)) !in Patches(sha, local, remote, blockSize)
        ensures local[p] == 0
      {
        assert rebuilt[p] == RebuiltByte([], Patches(sha, local, remote, blockSize), AgentBlock(blockSize), p);
      }
    }
  }

  // ---- Pushes that do not fit a frame -----------------------------------------------------------------------

  lemma CountGrows(n: nat, bs: nat, size: nat, left: nat)
    requires n * bs >= left && size <= bs
    ensures (1 + n) * bs >= size + left
  {
    assert (1 + n) * bs == bs + n * bs;
  }

  /** There are enough blocks to cover the file. */
  lemma {:induction false} BlocksCover(sha: Sha, data: Bytes, bs: nat, offset: nat)
    requires bs > 0 && offset <= |data|
    ensures |BlocksFrom(sha, data, bs, offset)| * bs >= |data| - offset
    decreases |data| - offset
  {
    hide Info;
    if offset < |data| {
      var size := |Block(data, bs, offset)|;
      BlocksCover(sha, data, bs, offset + size);
      BlocksStep(sha, data, bs, offset);
      CountGrows(|BlocksFrom(sha, data, bs, offset + size)|, bs, size, |data| - offset - size);
    }
  }

  lemma FewBlocks(n: nat, bs: nat)
    ensures n <= 1023 ==> n * bs <= 1023 * bs
  {
    if n <= 1023 {
      assert 1023 * bs == n * bs + (1023 - n) * bs;
    }
  }

  /** An index of 1024 blocks or more fits no frame, even if the two files are equal. */
  lemma LargeIndexFails(sha: Sha, codec: Codec, agent: Agent, local: Bytes, remote: Bytes, blockSize: nat)
    requires codec.Lawful() && agent.answers
    requires |remote| > 1023 * AgentBlock(blockSize)
    ensures DeltaOutcome(sha, codec, agent, local, remote, blockSize) == TooLarge
  {
    hide BlocksFrom, PatchList;
    var bs := AgentBlock(blockSize);
    BlocksCover(sha, remote, bs, 0);
    FewBlocks(|IndexList(sha, remote, blockSize)|, bs);
  }

  lemma {:induction false} AllListed(sha: Sha, local: Bytes, bs: nat, offset: nat)
    requires bs > 0 && offset <= |local|
    ensures PatchBytes(PatchesFrom(sha, local, bs, map[], offset)) == |local| - offset
    decreases |local| - offset
  {
    if offset < |local| {
      var size := |Block(local, bs, offset)|;
      AllListed(sha, local, bs, offset + size);
      PatchesStep(sha, local, bs, map[], offset);
      assert PatchesFrom(sha, local, bs, map[], offset)[1..] == PatchesFrom(sha, local, bs, map[], offset + size);
    }
  }

  /** Onto an empty file every push of more than a frame of data fails, whatever the block size. */
  lemma LargePatchFails(sha: Sha, codec: Codec, agent: Agent, local: Bytes, blockSize: nat)
    requires codec.Lawful() && agent.answers
    requires |local| > Channel.MAX_FRAME_PAYLOAD
    ensures DeltaOutcome(sha, codec, agent, local, [], blockSize) == TooLarge
  {
    hide BlocksFrom, PatchesFrom;
    assert Index(sha, [], AgentBlock(blockSize)) == map[];
    AllListed(sha, local, ClientBlock(blockSize), 0);
  }
}
