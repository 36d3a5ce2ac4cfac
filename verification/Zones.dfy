/** class Zone (Zone.cpp): one page carved into chunks of equal size that are linked into a free list. */
module Zones {
  import opened HeapModel
  import opened ListNode
  import opened Regions

  class Zone {
    /** The address of this zone; INITIAL for the static initial zone. */
    const self: nat
    var page: Ptr
    var chunkSize: nat
    var chunksCount: nat
    var freeChunksCount: nat
    var freeChunks: Ptr

    constructor (self: nat)
      ensures this.self == self
    {
      this.self := self;
      page, chunkSize, chunksCount, freeChunksCount, freeChunks := Null, 0, 0, 0, Null;
    }

    /** The fields agree with the abstract zone. */
    ghost predicate Fields(z: HeapModel.Zone)
      reads this
    {
      && page == At(z.page)
      && chunkSize == z.chunkSize
      && chunksCount == |z.chunks|
      && freeChunksCount == |z.free|
      && freeChunks == Head(z.free)
    }

    /** The object agrees with the abstract zone, given the links of all chunks. */
    ghost predicate Agrees(z: HeapModel.Zone, nodes: map<nat, Node>)
      reads this
    {
      Fields(z) && Linked(nodes, z.free)
    }

    method Clear(zoneNodes: ListNodes)
      modifies this, zoneNodes
      ensures zoneNodes.nodes == old(zoneNodes.nodes)[self := UNLINKED]
      ensures page == Null && chunkSize == chunksCount == freeChunksCount == 0 && freeChunks == Null
    {
      zoneNodes.InitListNode(self);
      page := Null;
      chunkSize := 0;
      chunksCount := 0;
      freeChunksCount := 0;
      freeChunks := Null;
    }

    /** Carves the page at the given address into chunks; all of them are free afterwards. */
    method Init(page: nat, address: nat, pageSize: nat, chunkSize: nat, zoneNodes: ListNodes, chunkNodes: ListNodes)
      requires chunkSize > 0 && zoneNodes != chunkNodes
      modifies this, zoneNodes, chunkNodes
      ensures zoneNodes.nodes == old(zoneNodes.nodes)[self := UNLINKED]
      ensures this.page == At(page) && this.chunkSize == chunkSize
        && chunksCount == freeChunksCount == ChunkCount(pageSize, chunkSize)
      ensures freeChunks == Head(Carved(address, chunkSize, chunksCount))
      ensures Linked(chunkNodes.nodes, Carved(address, chunkSize, chunksCount))
      ensures forall q | q in old(chunkNodes.nodes) && q !in Carved(address, chunkSize, chunksCount) ::
        q in chunkNodes.nodes && chunkNodes.nodes[q] == old(chunkNodes.nodes)[q]
    {
      hide PageAddress, Linked;
      Clear(zoneNodes);
      this.page := At(page);
      this.chunkSize := chunkSize;
      chunksCount := pageSize / chunkSize;
      freeChunksCount := chunksCount;
      ghost var nodes := chunkNodes.nodes;
      var chunk := address;
      var i := 0;
      EmptyLinked(nodes);
      PageAddressStep(address, 0, 0, chunkSize);
      while i < chunksCount
        invariant 0 <= i <= chunksCount == ChunkCount(pageSize, chunkSize)
          && chunk == PageAddress(address, i, chunkSize)
        invariant this.page == At(page) && this.chunkSize == chunkSize && freeChunksCount == chunksCount
        invariant zoneNodes.nodes == old(zoneNodes.nodes)[self := UNLINKED]
        invariant Linked(chunkNodes.nodes, Carved(address, chunkSize, i))
        invariant freeChunks == Head(Carved(address, chunkSize, i))
        invariant forall q | q in nodes && q !in Carved(address, chunkSize, i) ::
          q in chunkNodes.nodes && chunkNodes.nodes[q] == nodes[q]
      {
        ghost var s := Carved(address, chunkSize, i);
        CarvedFacts(address, chunkSize, i);
        assert chunk !in s;
        ghost var before := chunkNodes.nodes;
        chunkNodes.InitListNode(chunk);
        LinkedFrame(before, chunkNodes.nodes, s);
        freeChunks := chunkNodes.AddToList(chunk, freeChunks, s);
        PageAddressStep(address, i, i, chunkSize);
        i, chunk := i + 1, chunk + chunkSize;
      }
    }

    method TakeChunk(chunkNodes: ListNodes, ghost z: HeapModel.Zone) returns (chunk: nat)
      requires Agrees(z, chunkNodes.nodes) && z.free != []
      modifies this`freeChunks, this`freeChunksCount, chunkNodes
      ensures chunk == z.free[0] && Agrees(z.(free := z.free[1..]), chunkNodes.nodes)
      ensures chunkNodes.nodes.Keys == old(chunkNodes.nodes).Keys
      ensures forall q | q in chunkNodes.nodes && q !in z.free :: chunkNodes.nodes[q] == old(chunkNodes.nodes)[q]
    {
      hide Linked, Without;
      assert freeChunksCount > 0;
      chunk := freeChunks.addr;
      LinkedIsDistinct(chunkNodes.nodes, z.free);
      WithoutFacts(z.free, chunk);
      freeChunks := chunkNodes.RemoveFromList(chunk, freeChunks, z.free);
      freeChunksCount := freeChunksCount - 1;
    }

    method GiveChunk(chunk: nat, chunkNodes: ListNodes, ghost z: HeapModel.Zone)
      requires Agrees(z, chunkNodes.nodes) && chunk !in z.free
      requires chunk in chunkNodes.nodes && chunkNodes.nodes[chunk] == UNLINKED
      modifies this`freeChunks, this`freeChunksCount, chunkNodes
      ensures Agrees(z.(free := [chunk] + z.free), chunkNodes.nodes)
      ensures chunkNodes.nodes.Keys == old(chunkNodes.nodes).Keys
      ensures forall q | q in chunkNodes.nodes && q != chunk
        && q !in z.free :: chunkNodes.nodes[q] == old(chunkNodes.nodes)[q]
    {
      freeChunks := chunkNodes.AddToList(chunk, freeChunks, z.free);
      freeChunksCount := freeChunksCount + 1;
    }

    /** isValidChunk: the address is that of one of the chunks of the page. */
    method IsValidChunk(address: nat, chunk: nat) returns (r: bool)
      ensures r <==> chunk in ChunkSet(address, chunkSize, chunksCount)
    {
      hide PageAddress;
      var it := address;
      var i := 0;
      PageAddressStart(address, chunkSize);
      while i < chunksCount
        invariant 0 <= i <= chunksCount && it == PageAddress(address, i, chunkSize)
        invariant chunk !in ChunkSet(address, chunkSize, i)
      {
        if it == chunk {
          assert PageAddress(address, i, chunkSize) in ChunkSet(address, chunkSize, chunksCount);
          return true;
        }
        PageAddressNext(address, i, chunkSize);
        ChunkSetNext(address, chunkSize, i + 1);
        i, it := i + 1, it + chunkSize;
      }
      return false;
    }
  }

  lemma PageAddressStart(start: nat, m: nat)
    ensures PageAddress(start, 0, m) == start
  {
  }

  lemma PageAddressNext(start: nat, k: nat, m: nat)
    ensures PageAddress(start, k + 1, m) == PageAddress(start, k, m) + m
  {
    assert (k + 1) * m == k * m + m;
  }

  lemma EmptyLinked(nodes: map<nat, Node>)
    ensures Linked(nodes, [])
  {
  }
}
