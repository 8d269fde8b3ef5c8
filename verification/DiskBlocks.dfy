/** The table of disk blocks: swap-remove index, extent allocator and reference counts
    (src/disk_blocks.cc:81-256, src/disk_blocks.h). Each operation is one step, as it is with
    one writer per table. */
module DiskBlocks {
  import opened Common
  import opened NumberTheory
  import Pigeonhole

  /** A BlockData object; objects are named by numbers so that deletion is visible. */
  datatype Block = Block(address: nat, size: nat, references: int, initialized: bool)

  datatype Storage = Storage(block: nat, pos: nat)

  const BLOCK_RETRY: nat := 100

  // -------------------------------------------------------------------- index

  /** The position vector below `size` and the address map are mutually inverse. The vector
      itself may be longer. */
  ghost predicate Indexed(posToAddr: seq<nat>, table: map<nat, Storage>, size: nat) {
    && size <= |posToAddr|
    && (forall p :: 0 <= p < size ==> posToAddr[p] in table && table[posToAddr[p]].pos == p)
    && (forall a :: a in table ==> table[a].pos < size && posToAddr[table[a].pos] == a)
  }

  /** The table has as many entries as positions. */
  lemma IndexedSize(posToAddr: seq<nat>, table: map<nat, Storage>, size: nat)
    requires Indexed(posToAddr, table, size)
    ensures |table| == size
  {
    var front := posToAddr[..size];
    assert Pigeonhole.Distinct(front) by {
      forall i, j | 0 <= i < j < |front| ensures front[i] != front[j] {
        assert table[posToAddr[i]].pos == i && table[posToAddr[j]].pos == j;
      }
    }
    Pigeonhole.DistinctSize(front);
    forall a | a in table ensures a in front {
      assert front[table[a].pos] == a;
    }
    assert Pigeonhole.Elements(front) == table.Keys;
    assert |table.Keys| == |table|;
  }

  function Inserted(posToAddr: seq<nat>, size: nat, address: nat): seq<nat>
    requires size <= |posToAddr|
  {
    if |posToAddr| <= size then posToAddr + [address] else posToAddr[size := address]
  }

  lemma IndexedInsert(posToAddr: seq<nat>, table: map<nat, Storage>, size: nat, address: nat, block: nat)
    requires Indexed(posToAddr, table, size) && address !in table
    ensures Indexed(Inserted(posToAddr, size, address), table[address := Storage(block, size)], size + 1)
  {}

  /** The last entry moves into the hole. */
  function SwapRemoved(posToAddr: seq<nat>, table: map<nat, Storage>, size: nat, address: nat): map<nat, Storage>
    requires Indexed(posToAddr, table, size) && address in table && size > 0
  {
    var last := posToAddr[size - 1];
    table[last := table[last].(pos := table[address].pos)] - {address}
  }

  lemma IndexedRemove(posToAddr: seq<nat>, table: map<nat, Storage>, size: nat, address: nat)
    requires Indexed(posToAddr, table, size) && address in table && size > 0
    ensures
      Indexed(posToAddr[table[address].pos := posToAddr[size - 1]],
              SwapRemoved(posToAddr, table, size, address), size - 1)
  {}

  /** Removal forgets one address and changes no other entry's block. */
  lemma RemoveKeeps(posToAddr: seq<nat>, table: map<nat, Storage>, size: nat, address: nat)
    requires Indexed(posToAddr, table, size) && address in table && size > 0
    ensures
      var table' := SwapRemoved(posToAddr, table, size, address);
      && table'.Keys == table.Keys - {address}
      && forall a :: a in table' ==> table'[a].block == table[a].block
  {}

  // ------------------------------------------------------------------- extents

  function Spot(segment: nat, k: nat, count: nat, segmentSize: nat): nat {
    segment * segmentSize + k * count
  }

  /** The k-th block of some segment, inside the segment and the device. */
  ghost predicate Placed(a: nat, count: nat, segmentSize: nat, device: nat) {
    && a + count <= device
    && exists s: nat, k: nat :: Spot(s, k, count, segmentSize) == a && k * count + count <= segmentSize
  }

  /** Blocks that start at different sectors do not overlap, also across segments. */
  lemma PlacedDisjoint(a: nat, b: nat, count: nat, segmentSize: nat, device: nat)
    requires Placed(a, count, segmentSize, device) && Placed(b, count, segmentSize, device) && a != b
    ensures a + count <= b || b + count <= a
  {
    var s: nat, k: nat :| Spot(s, k, count, segmentSize) == a && k * count + count <= segmentSize;
    var t: nat, j: nat :| Spot(t, j, count, segmentSize) == b && j * count + count <= segmentSize;
    if s < t || (s == t && k < j) {
      SpotsApart(s, k, t, j, count, segmentSize);
    } else {
      SpotsApart(t, j, s, k, count, segmentSize);
    }
  }

  lemma SpotsApart(s: nat, k: nat, t: nat, j: nat, count: nat, segmentSize: nat)
    requires s < t || (s == t && k < j)
    requires k * count + count <= segmentSize
    ensures Spot(s, k, count, segmentSize) + count <= Spot(t, j, count, segmentSize)
  {
    if s == t { Steps(k, j, count); } else { Steps(s, t, segmentSize); }
  }

  lemma Steps(x: nat, y: nat, d: nat)
    requires x < y
    ensures x * d + d <= y * d
  {
    MulMono(d, x + 1, y);
    assert (x + 1) * d == x * d + d;
  }

  /** The k-th block of a segment, k below the number of whole blocks, lies inside it. */
  lemma FitsInSegment(k: nat, count: nat, segmentSize: nat)
    requires count > 0 && k < segmentSize / count
    ensures k * count + count <= segmentSize
  {
    Steps(k, segmentSize / count, count);
    Whole(segmentSize, count);
  }

  lemma Whole(n: nat, d: nat)
    requires d > 0
    ensures n / d * d <= n
  {
    assert n == n / d * d + n % d;
  }

  // ----------------------------------------------------------------- references

  ghost predicate Listed(table: map<nat, Storage>, heap: map<nat, Block>, id: nat) {
    id in heap && heap[id].address in table && table[heap[id].address].block == id
  }

  /** Every entry names a live block at its own address. */
  ghost predicate Backed(table: map<nat, Storage>, heap: map<nat, Block>) {
    forall a :: a in table ==> table[a].block in heap && heap[table[a].block].address == a
  }

  /** A live block's count is its readers plus one while it is listed, and is never zero;
      every block ever made is either live or freed. */
  ghost predicate Counted(
    table: map<nat, Storage>, heap: map<nat, Block>, readers: map<nat, nat>, freed: set<nat>, nextId: nat)
  {
    && readers.Keys == heap.Keys
    && (forall id :: id in heap ==>
          heap[id].references == readers[id] + (if Listed(table, heap, id) then 1 else 0) && heap[id].references >= 1)
    && (forall id: nat :: id < nextId <==> id in heap || id in freed)
    && (forall id :: id in freed ==> id !in heap)
  }

  lemma CountedNew(
    table: map<nat, Storage>, heap: map<nat, Block>, readers: map<nat, nat>, freed: set<nat>, id: nat,
    address: nat, size: nat, pos: nat)
    requires Backed(table, heap) && Counted(table, heap, readers, freed, id) && address !in table
    ensures
      var table', heap' := table[address := Storage(id, pos)], heap[id := Block(address, size, 1, false)];
      Backed(table', heap') && Counted(table', heap', readers[id := 0], freed, id + 1)
  {
    var table', heap' := table[address := Storage(id, pos)], heap[id := Block(address, size, 1, false)];
    assert id !in heap;
    forall x | x in heap ensures Listed(table', heap', x) == Listed(table, heap, x) {}
  }

  /** A reader comes or goes and the block stays. */
  lemma CountedReader(
    table: map<nat, Storage>, heap: map<nat, Block>, readers: map<nat, nat>, freed: set<nat>, nextId: nat,
    id: nat, d: int)
    requires Backed(table, heap) && Counted(table, heap, readers, freed, nextId) && id in heap
    requires readers[id] + d >= 0 && heap[id].references + d >= 1
    ensures
      var heap' := heap[id := heap[id].(references := heap[id].references + d)];
      Backed(table, heap') && Counted(table, heap', readers[id := readers[id] + d], freed, nextId)
  {
    var heap' := heap[id := heap[id].(references := heap[id].references + d)];
    forall x | x in heap ensures Listed(table, heap', x) == Listed(table, heap, x) {}
  }

  /** The last holder of a block that is not listed lets go. */
  lemma CountedFree(
    table: map<nat, Storage>, heap: map<nat, Block>, readers: map<nat, nat>, freed: set<nat>, nextId: nat, id: nat)
    requires Backed(table, heap) && id in heap && !Listed(table, heap, id) && readers.Keys == heap.Keys
    requires forall x :: x in heap && x != id ==>
      heap[x].references == readers[x] + (if Listed(table, heap, x) then 1 else 0) && heap[x].references >= 1
    requires forall x: nat :: x < nextId <==> x in heap || x in freed
    requires forall x :: x in freed ==> x !in heap
    ensures Backed(table, heap - {id}) && Counted(table, heap - {id}, readers - {id}, freed + {id}, nextId)
  {
    forall x | x in heap && x != id ensures Listed(table, heap - {id}, x) == Listed(table, heap, x) {}
  }

  /** A listed block leaves the table: its count goes down by one. */
  lemma CountedUnlist(
    table: map<nat, Storage>, table': map<nat, Storage>, heap: map<nat, Block>, readers: map<nat, nat>,
    freed: set<nat>, nextId: nat, id: nat)
    requires Backed(table, heap) && Counted(table, heap, readers, freed, nextId) && Listed(table, heap, id)
    requires table'.Keys == table.Keys - {heap[id].address}
    requires forall a :: a in table' ==> table'[a].block == table[a].block
    ensures
      var heap' := heap[id := heap[id].(references := readers[id])];
      && heap[id].references == readers[id] + 1
      && Backed(table', heap') && !Listed(table', heap', id)
      && (forall x :: x in heap && x != id ==> Listed(table', heap', x) == Listed(table, heap, x))
      && (readers[id] > 0 ==> Counted(table', heap', readers, freed, nextId))
      && (readers[id] == 0 ==>
            Backed(table', heap' - {id}) && Counted(table', heap' - {id}, readers - {id}, freed + {id}, nextId))
  {
    var heap' := heap[id := heap[id].(references := readers[id])];
    forall x | x in heap && x != id ensures Listed(table', heap', x) == Listed(table, heap, x) {}
    if readers[id] == 0 { CountedFree(table', heap', readers, freed, nextId, id); }
  }

  // -------------------------------------------------------------------- table

  class DiskBlockTable {
    var sectorSize: nat
    var writeBlockSize: nat
    var deviceSectors: nat
    var segmentSize: int          // -1: the whole device is one segment
    var posToAddr: seq<nat>
    var addrToBlock: map<nat, Storage>
    var size: nat

    var heap: map<nat, Block>     // live BlockData objects
    var nextId: nat
    ghost var readers: map<nat, nat>   // outstanding GetRandomBlock results, per block
    ghost var freed: set<nat>

    /** What GetUnusedBlock divides by is not zero. */
    predicate GoodParameters()
      reads this
    {
      && sectorSize > 0 && writeBlockSize >= sectorSize && deviceSectors > 0
      && Count() <= Segment() && (segmentSize == -1 || segmentSize > 0)
    }

    function Count(): nat
      reads this
    {
      if sectorSize == 0 then 0 else writeBlockSize / sectorSize
    }

    function Segment(): nat
      reads this
    {
      if segmentSize < 0 then deviceSectors else segmentSize
    }

    ghost predicate Valid()
      reads this
    {
      && Indexed(posToAddr, addrToBlock, size)
      && Backed(addrToBlock, heap)
      && Counted(addrToBlock, heap, readers, freed, nextId)
      && (forall a :: a in addrToBlock ==> Placed(a, Count(), Segment(), deviceSectors))
    }

    constructor ()
      ensures Valid() && addrToBlock == map[] && freed == {} && heap == map[] && size == 0
    {
      sectorSize, writeBlockSize, deviceSectors, segmentSize := 0, 0, 0, 0;
      posToAddr, addrToBlock, size := [], map[], 0;
      heap, nextId := map[], 0;
      readers, freed := map[], {};
    }

    method SetParameters(sector: nat, block: nat, device: nat, segment: int)
      requires Valid() && size == 0
      modifies this
      ensures Valid() && sectorSize == sector && writeBlockSize == block
      ensures deviceSectors == device && segmentSize == segment
      ensures addrToBlock == old(addrToBlock) && heap == old(heap) && readers == old(readers) && freed == old(freed)
    {
      IndexedSize(posToAddr, addrToBlock, size);
      assert addrToBlock == map[];
      sectorSize, writeBlockSize, deviceSectors, segmentSize := sector, block, device, segment;
    }

    /** Blocks in the table never overlap and lie inside the device. */
    lemma Disjoint(a: nat, b: nat)
      requires Valid() && a in addrToBlock && b in addrToBlock
      ensures a + Count() <= deviceSectors
      ensures a != b ==> a + Count() <= b || b + Count() <= a
    {
      if a != b { PlacedDisjoint(a, b, Count(), Segment(), deviceSectors); }
    }

    /** Anyone who holds a block, or finds it in the table, holds a live object. */
    lemma HoldersAreSafe(id: nat)
      requires Valid()
      ensures id in readers ==> id in heap && id !in freed
      ensures Listed(addrToBlock, heap, id) ==> id !in freed
      ensures |addrToBlock| == size
    {
      IndexedSize(posToAddr, addrToBlock, size);
    }

    /** The first sector a random draw proposes. */
    function Candidate(segment: nat, r: nat): nat
      reads this
      requires GoodParameters()
    {
      var k := r % Blocks();
      if segmentSize == -1 then k * Count() else k * Count() + segment * segmentSize
    }

    function Blocks(): (n: nat)
      reads this
      requires GoodParameters()
      ensures n >= 1
    {
      AtLeastOne();
      Segment() / Count()
    }

    lemma AtLeastOne()
      requires GoodParameters()
      ensures Count() >= 1 && Segment() / Count() >= 1
    {
      Quotient(writeBlockSize, sectorSize);
      Quotient(Segment(), Count());
    }

    /** A draw the allocator refuses: past the device, or taken. */
    predicate Refused(segment: nat, r: nat)
      reads this
      requires GoodParameters()
    {
      Candidate(segment, r) + Count() > deviceSectors || Candidate(segment, r) in addrToBlock
    }

    lemma CandidateIs(segment: nat, r: nat)
      requires GoodParameters()
      ensures Count() == writeBlockSize / sectorSize > 0
      ensures segmentSize == -1 ==>
        deviceSectors / Count() > 0 && Candidate(segment, r) == r % (deviceSectors / Count()) * Count()
      ensures segmentSize != -1 ==>
        segmentSize / Count() > 0 && Candidate(segment, r) == r % (segmentSize / Count()) * Count() + segment * segmentSize
    {
      AtLeastOne();
    }

    /** Every whole block of the segment can be drawn. */
    lemma EveryExtentDrawn(segment: nat, k: nat)
      requires GoodParameters() && k < Blocks()
      ensures Candidate(segment, k) == Spot(if segmentSize == -1 then 0 else segment, k, Count(), Segment())
    {
      DivUnique(k, Blocks(), 0, k);
    }

    lemma CandidateInside(segment: nat, r: nat)
      requires GoodParameters()
      ensures segmentSize != -1 ==>
        segment * segmentSize <= Candidate(segment, r) && Candidate(segment, r) + Count() <= (segment + 1) * segmentSize
      ensures Candidate(segment, r) + Count() <= deviceSectors ==>
        Placed(Candidate(segment, r), Count(), Segment(), deviceSectors)
    {
      var k := r % Blocks();
      AtLeastOne();
      FitsInSegment(k, Count(), Segment());
      if segmentSize == -1 {
        assert Spot(0, k, Count(), Segment()) == Candidate(segment, r);
      } else {
        assert (segment + 1) * segmentSize == segment * segmentSize + segmentSize;
        assert Spot(segment, k, Count(), Segment()) == Candidate(segment, r);
      }
    }

    /** Up to 100 draws for a free extent: the first draw not refused, or nothing exactly
        when all are refused. */
    method FindExtent(segment: nat, random: nat -> nat) returns (sector: Option<nat>, draw: nat)
      requires GoodParameters()
      ensures sector.None? <==> forall i: nat :: i < BLOCK_RETRY ==> Refused(segment, random(i))
      ensures sector.Some? ==>
        && draw < BLOCK_RETRY && !Refused(segment, random(draw))
        && (forall i: nat :: i < draw ==> Refused(segment, random(i)))
        && sector.value == Candidate(segment, random(draw))
    {
      hide Placed, Candidate;
      AtLeastOne();
      var count := writeBlockSize / sectorSize;
      var i: nat := 0;
      while i < BLOCK_RETRY
        invariant i <= BLOCK_RETRY
        invariant forall j: nat :: j < i ==> Refused(segment, random(j))
      {
        CandidateInside(segment, random(i));
        CandidateIs(segment, random(i));
        var good, first := true, 0;
        if segmentSize == -1 {
          first := random(i) % (deviceSectors / count) * count;
        } else {
          first := random(i) % (segmentSize / count) * count + segment * segmentSize;
          if first + count > (segment + 1) * segmentSize { good := false; }
        }
        if good && first + count > deviceSectors { good := false; }
        if good && first in addrToBlock { good := false; }
        if good { return Some(first), i; }
        i := i + 1;
      }
      sector, draw := None, 0;
    }

    /** The new block starts at the first acceptable draw, overlaps no other, is referenced
        once and is not yet readable. */
    method GetUnusedBlock(segment: nat, random: nat -> nat) returns (id: Option<nat>, ghost draw: nat)
      requires Valid() && GoodParameters()
      modifies this`posToAddr, this`addrToBlock, this`size, this`heap, this`nextId, this`readers
      ensures Valid() && GoodParameters()
      ensures id.None? <==> forall i: nat :: i < BLOCK_RETRY ==> old(Refused(segment, random(i)))
      ensures id.None? ==> addrToBlock == old(addrToBlock) && heap == old(heap) && readers == old(readers)
      ensures id.Some? ==>
        && draw < BLOCK_RETRY && !old(Refused(segment, random(draw)))
        && (forall i: nat :: i < draw ==> old(Refused(segment, random(i))))
        && var a := Candidate(segment, random(draw));
           && id.value !in old(heap) && id.value !in freed && a !in old(addrToBlock)
           && addrToBlock == old(addrToBlock)[a := Storage(id.value, old(size))]
           && heap == old(heap)[id.value := Block(a, writeBlockSize, 1, false)]
           && readers == old(readers)[id.value := 0]
    {
      hide Counted, Backed, Indexed, Placed;
      var sector;
      sector, draw := FindExtent(segment, random);
      if sector.Some? {
        CandidateInside(segment, random(draw));
        FreshId(addrToBlock, heap, readers, freed, nextId);
        id := Some(nextId);
        InsertOnStructure(sector.value, writeBlockSize);
      } else {
        id := None;
      }
    }

    /** The new block object, numbered nextId, goes to the end of the index. */
    method InsertOnStructure(address: nat, bytes: nat)
      requires Valid() && address !in addrToBlock
      requires Placed(address, Count(), Segment(), deviceSectors)
      modifies this`posToAddr, this`addrToBlock, this`size, this`heap, this`nextId, this`readers
      ensures Valid() && size == old(size) + 1 && nextId == old(nextId) + 1
      ensures heap == old(heap)[old(nextId) := Block(address, bytes, 1, false)]
      ensures addrToBlock == old(addrToBlock)[address := Storage(old(nextId), old(size))]
      ensures readers == old(readers)[old(nextId) := 0]
    {
      hide Placed, Counted, Backed, Indexed;
      CountedNew(addrToBlock, heap, readers, freed, nextId, address, bytes, size);
      IndexedInsert(posToAddr, addrToBlock, size, address, nextId);
      SizeFits(posToAddr, addrToBlock, size);
      posToAddr := Inserted(posToAddr, size, address);
      addrToBlock := addrToBlock[address := Storage(nextId, size)];
      heap := heap[nextId := Block(address, bytes, 1, false)];
      readers := readers[nextId := 0];
      size := size + 1;
      nextId := nextId + 1;
    }

    /** Written to disk. */
    method SetInitialized(id: nat)
      requires Valid() && id in heap
      modifies this`heap
      ensures Valid() && heap == old(heap)[id := old(heap)[id].(initialized := true)]
    {
      ghost var heap0 := heap;
      heap := heap[id := heap[id].(initialized := true)];
      assert forall x :: x in heap ==> Listed(addrToBlock, heap, x) == Listed(addrToBlock, heap0, x);
    }

    /** A random listed block, if it is readable; `timedOut` says that the two-second wait for
        a non-empty table ran out. */
    method GetRandomBlock(timedOut: bool, random: nat) returns (id: Option<nat>)
      requires Valid() && (size == 0 ==> timedOut)
      modifies this`heap, this`readers
      ensures Valid()
      ensures id.Some? <==>
        !timedOut && old(heap)[addrToBlock[posToAddr[random % size]].block].initialized
      ensures id.None? ==> heap == old(heap) && readers == old(readers)
      ensures id.Some? ==>
        && id.value == addrToBlock[posToAddr[random % size]].block
        && Listed(addrToBlock, heap, id.value) && id.value in old(heap)
        && heap == old(heap)[id.value := old(heap)[id.value].(references := old(heap)[id.value].references + 1)]
        && readers == old(readers)[id.value := old(readers)[id.value] + 1]
    {
      hide Placed, Counted, Backed, Indexed, Listed;
      if timedOut { return None; }
      AtPosition(posToAddr, addrToBlock, size, heap, random % size);
      var address := posToAddr[random % size];
      var b := addrToBlock[address].block;
      CountOf(addrToBlock, heap, readers, freed, nextId, b);
      if heap[b].initialized {
        StillListed(addrToBlock, heap, b, heap[b].references + 1);
        CountedReader(addrToBlock, heap, readers, freed, nextId, b, 1);
        heap := heap[b := heap[b].(references := heap[b].references + 1)];
        readers := readers[b := readers[b] + 1];
        id := Some(b);
      } else {
        id := None;
      }
    }

    /** A reader returns its block; the object is freed exactly when this was its last holder. */
    method ReleaseBlock(id: nat) returns (ok: bool)
      requires Valid() && id in readers && readers[id] > 0
      modifies this`heap, this`readers, this`freed
      ensures Valid() && ok
      ensures id in freed <==> old(readers)[id] == 1 && !old(Listed(addrToBlock, heap, id))
      ensures freed == if id in freed then old(freed) + {id} else old(freed)
      ensures id !in freed ==>
        && heap == old(heap)[id := old(heap)[id].(references := old(heap)[id].references - 1)]
        && readers == old(readers)[id := old(readers)[id] - 1]
      ensures id in freed ==> heap == old(heap) - {id} && readers == old(readers) - {id}
    {
      hide Indexed, Placed, Counted, Backed, Listed;
      CountOf(addrToBlock, heap, readers, freed, nextId, id);
      ok := true;
      var references := heap[id].references;
      if references == 1 {
        CountedLast(addrToBlock, heap, readers, freed, nextId, id);
        heap, readers, freed := heap - {id}, readers - {id}, freed + {id};
      } else if references > 0 {
        CountedReader(addrToBlock, heap, readers, freed, nextId, id, -1);
        heap, readers := heap[id := heap[id].(references := references - 1)], readers[id := readers[id] - 1];
      } else {
        ok := false;
      }
    }

    /** Another block is listed at this block's address: the caller removed its own before. */
    ghost predicate Foreign(id: nat)
      reads this
    {
      id in heap && heap[id].address in addrToBlock && !Listed(addrToBlock, heap, id)
    }

    /** The writer takes the entry at its block's address out of the table and gives up one
        reference; the object is freed exactly when that was the last. A block whose address
        is not listed is refused. The table stays valid exactly when the entry was its own. */
    method RemoveBlock(id: nat) returns (ok: bool)
      requires Valid() && id in heap
      modifies this`posToAddr, this`addrToBlock, this`size, this`heap, this`readers, this`freed
      ensures Valid() <==> !old(Foreign(id))
      ensures ok <==> old(heap[id].address in addrToBlock)
      ensures !ok ==> addrToBlock == old(addrToBlock) && heap == old(heap) && freed == old(freed) && readers == old(readers)
      ensures ok ==>
        && addrToBlock.Keys == old(addrToBlock).Keys - {old(heap)[id].address} && size == old(size) - 1
        && (forall a :: a in addrToBlock ==> addrToBlock[a].block == old(addrToBlock)[a].block)
        && (id in freed <==> old(heap)[id].references == 1)
        && (old(Listed(addrToBlock, heap, id)) ==> (id in freed <==> old(readers)[id] == 0))
        && freed == (if id in freed then old(freed) + {id} else old(freed))
        && readers == (if id in freed then old(readers) - {id} else old(readers))
        && heap == (if id in freed then old(heap) - {id} else
                    old(heap)[id := old(heap)[id].(references := old(heap)[id].references - 1)])
    {
      hide Placed, Counted, Backed, Indexed, Listed;
      var address := heap[id].address;
      CountOf(addrToBlock, heap, readers, freed, nextId, id);
      if address !in addrToBlock {
        NotListed(addrToBlock, heap, id);
        return false;
      }
      PositionOf(posToAddr, addrToBlock, size, address);
      RemoveOutcome(posToAddr, addrToBlock, size, heap, readers, freed, nextId, id);
      ghost var table0, heap0, readers0, freed0 := addrToBlock, heap, readers, freed;
      var currPos, lastPos := addrToBlock[address].pos, size - 1;
      var last := posToAddr[lastPos];
      posToAddr := posToAddr[currPos := last];
      addrToBlock := addrToBlock[last := addrToBlock[last].(pos := currPos)] - {address};
      size := size - 1;
      ok := true;
      var references := heap[id].references - 1;
      if references == 0 {
        heap, readers, freed := heap - {id}, readers - {id}, freed + {id};
      } else {
        heap := heap[id := heap[id].(references := references)];
        if references < 0 { ok := false; }
      }
      if !Listed(table0, heap0, id) {
        ForeignBreaks(table0, heap0, readers0, freed0, nextId, id, addrToBlock, heap, readers, freed);
      }
    }
  }

  /** Without the other block's entry its count is wrong, whatever happens to this block. */
  lemma ForeignBreaks(
    table: map<nat, Storage>, heap: map<nat, Block>, readers: map<nat, nat>, freed: set<nat>, nextId: nat, id: nat,
    table': map<nat, Storage>, heap': map<nat, Block>, readers': map<nat, nat>, freed': set<nat>)
    requires Backed(table, heap) && Counted(table, heap, readers, freed, nextId)
    requires id in heap && heap[id].address in table && !Listed(table, heap, id)
    requires heap[id].address !in table'
    requires forall x :: x in heap && x != id ==> x in heap' && heap'[x] == heap[x]
    requires forall x :: x in readers && x != id ==> x in readers' && readers'[x] == readers[x]
    ensures !Counted(table', heap', readers', freed', nextId)
  {
    var other := table[heap[id].address].block;
    assert Listed(table, heap, other) && other != id;
    assert other in heap' && !Listed(table', heap', other);
  }

  /** Everything a removal keeps, on values. */
  lemma RemoveOutcome(
    posToAddr: seq<nat>, table: map<nat, Storage>, size: nat, heap: map<nat, Block>, readers: map<nat, nat>,
    freed: set<nat>, nextId: nat, id: nat)
    requires Indexed(posToAddr, table, size) && Backed(table, heap) && Counted(table, heap, readers, freed, nextId)
    requires id in heap && heap[id].address in table
    ensures
      var address := heap[id].address;
      && size > 0 && size <= |posToAddr| && posToAddr[size - 1] in table
      && 0 <= table[address].pos < size
      && var last := posToAddr[size - 1];
         var moved := table[last := table[last].(pos := table[address].pos)] - {address};
         && Indexed(posToAddr[table[address].pos := last], moved, size - 1)
         && moved.Keys == table.Keys - {address}
         && (forall a :: a in moved ==> moved[a].block == table[a].block)
         && id in readers
         && (Listed(table, heap, id) ==>
               && heap[id].references == readers[id] + 1
               && if readers[id] == 0 then
                    Backed(moved, heap - {id}) && Counted(moved, heap - {id}, readers - {id}, freed + {id}, nextId)
                  else
                    var heap' := heap[id := heap[id].(references := readers[id])];
                    Backed(moved, heap') && Counted(moved, heap', readers, freed, nextId))
  {
    hide Counted, Backed, Indexed, Listed;
    var address := heap[id].address;
    PositionOf(posToAddr, table, size, address);
    IndexedRemove(posToAddr, table, size, address);
    RemoveKeeps(posToAddr, table, size, address);
    var moved := SwapRemoved(posToAddr, table, size, address);
    CountOf(table, heap, readers, freed, nextId, id);
    if Listed(table, heap, id) {
      CountedUnlist(table, moved, heap, readers, freed, nextId, id);
      MinusUpdated(heap, id, heap[id].(references := readers[id]));
    }
  }

  lemma AtPosition(
    posToAddr: seq<nat>, table: map<nat, Storage>, size: nat, heap: map<nat, Block>, p: nat)
    requires Indexed(posToAddr, table, size) && Backed(table, heap) && p < size
    ensures p < |posToAddr| && posToAddr[p] in table && Listed(table, heap, table[posToAddr[p]].block)
    ensures table[posToAddr[p]].block in heap
  {}

  lemma StillListed(table: map<nat, Storage>, heap: map<nat, Block>, id: nat, references: int)
    requires Listed(table, heap, id)
    ensures id in heap && Listed(table, heap[id := heap[id].(references := references)], id)
  {}

  lemma MinusUpdated(heap: map<nat, Block>, id: nat, b: Block)
    ensures heap[id := b] - {id} == heap - {id}
  {}

  lemma NotListed(table: map<nat, Storage>, heap: map<nat, Block>, id: nat)
    requires id in heap && heap[id].address !in table
    ensures !Listed(table, heap, id)
  {}

  lemma FreshId(
    table: map<nat, Storage>, heap: map<nat, Block>, readers: map<nat, nat>, freed: set<nat>, nextId: nat)
    requires Counted(table, heap, readers, freed, nextId)
    ensures nextId !in heap && nextId !in freed
  {}

  lemma CountedLast(
    table: map<nat, Storage>, heap: map<nat, Block>, readers: map<nat, nat>, freed: set<nat>, nextId: nat, id: nat)
    requires Backed(table, heap) && Counted(table, heap, readers, freed, nextId)
    requires id in heap && heap[id].references == 1 == readers[id]
    ensures !Listed(table, heap, id)
    ensures Backed(table, heap - {id}) && Counted(table, heap - {id}, readers - {id}, freed + {id}, nextId)
  {
    CountedFree(table, heap, readers, freed, nextId, id);
  }

  lemma Quotient(n: nat, d: nat)
    requires 0 < d <= n
    ensures n / d >= 1
  {}

  lemma SizeFits(posToAddr: seq<nat>, table: map<nat, Storage>, size: nat)
    requires Indexed(posToAddr, table, size)
    ensures size <= |posToAddr|
  {}

  lemma PositionOf(posToAddr: seq<nat>, table: map<nat, Storage>, size: nat, address: nat)
    requires Indexed(posToAddr, table, size) && address in table
    ensures 0 <= table[address].pos < size <= |posToAddr| && posToAddr[size - 1] in table
  {}

  lemma CountOf(
    table: map<nat, Storage>, heap: map<nat, Block>, readers: map<nat, nat>, freed: set<nat>, nextId: nat, id: nat)
    requires Counted(table, heap, readers, freed, nextId) && (id in heap || id in readers)
    ensures id in heap && id in readers && id !in freed
    ensures heap[id].references == readers[id] + (if Listed(table, heap, id) then 1 else 0)
    ensures heap[id].references >= 1
  {}
}
