/**
 * UnsafeArena (base/arena.cc). Memory is flat: an address holds a byte, and a block is a range of
 * addresses handed out by operator new[]. size_t is unbounded.
 */
module Arenas {
  import opened Basics

  datatype Block = Block(data: int, size: nat, used: nat)

  /** A piece of memory the arena has handed out. */
  datatype Region = Region(addr: int, size: nat) {
    predicate Holds(a: int) {
      addr <= a < addr + size
    }
  }

  predicate Apart(r: Region, s: Region) {
    r.size == 0 || s.size == 0 || r.addr + r.size <= s.addr || s.addr + s.size <= r.addr
  }

  function Extent(b: Block): Region {
    Region(b.data, b.size)
  }

  /** r lies in b, and in the used part of b unless r is empty. */
  predicate InBlock(b: Block, r: Region) {
    b.data <= r.addr && r.addr + r.size <= b.data + b.size && (r.size > 0 ==> r.addr + r.size <= b.data + b.used)
  }

  ghost predicate Inside(blocks: seq<Block>, r: Region) {
    exists k :: 0 <= k < |blocks| && InBlock(blocks[k], r)
  }

  ghost predicate BlocksOk(blocks: seq<Block>) {
    (forall k :: 0 <= k < |blocks| ==> blocks[k].used <= blocks[k].size) &&
    (forall j, k :: 0 <= j < k < |blocks| ==> Apart(Extent(blocks[j]), Extent(blocks[k])))
  }

  /** The regions handed out and not given back: inside the blocks and pairwise apart. */
  ghost predicate LiveOk(blocks: seq<Block>, live: seq<Region>) {
    (forall i :: 0 <= i < |live| ==> Inside(blocks, live[i])) &&
    (forall i, j :: 0 <= i < j < |live| ==> Apart(live[i], live[j]))
  }

  function TotalSize(blocks: seq<Block>): nat {
    if blocks == [] then 0 else TotalSize(blocks[..|blocks| - 1]) + blocks[|blocks| - 1].size
  }

  /** operator new[] returns memory that no block of the arena occupies. */
  ghost predicate Unoccupied(blocks: seq<Block>, at: int, size: nat) {
    forall k :: 0 <= k < |blocks| ==> Apart(Extent(blocks[k]), Region(at, size))
  }

  function WithUsed(blocks: seq<Block>, used: nat): seq<Block>
    requires blocks != []
  {
    blocks[|blocks| - 1 := blocks[|blocks| - 1].(used := used)]
  }

  function Without(live: seq<Region>, i: nat): seq<Region>
    requires i < |live|
  {
    live[..i] + live[i + 1..]
  }

  lemma WithoutAppended(live: seq<Region>, r: Region, i: nat)
    requires i < |live|
    ensures Without(live + [r], i) == Without(live, i) + [r]
  {
  }

  // ---- what a bump of the last block keeps ----

  /** Free space at the end of the last block is apart from every live region. */
  lemma FreeSpaceApart(blocks: seq<Block>, r: Region, s: Region)
    requires BlocksOk(blocks) && blocks != [] && Inside(blocks, r)
    requires var last := blocks[|blocks| - 1];
      last.data + last.used <= s.addr && s.addr + s.size <= last.data + last.size
    ensures Apart(r, s)
  {
    var k :| 0 <= k < |blocks| && InBlock(blocks[k], r);
    if k < |blocks| - 1 {
      assert Apart(Extent(blocks[k]), Extent(blocks[|blocks| - 1]));
    }
  }

  /** after is before with another use of its last block. */
  ghost predicate Bumped(before: seq<Block>, last: Block, used: nat, after: seq<Block>) {
    before != [] && last == before[|before| - 1] && after == WithUsed(before, used)
  }

  lemma TotalSizeLast(before: seq<Block>, last: Block, used: nat, after: seq<Block>)
    requires Bumped(before, last, used, after)
    ensures TotalSize(after) == TotalSize(before)
  {
    assert after[..|before| - 1] == before[..|before| - 1];
  }

  lemma BlocksOkLast(before: seq<Block>, last: Block, used: nat, after: seq<Block>)
    requires Bumped(before, last, used, after) && BlocksOk(before) && used <= last.size
    ensures BlocksOk(after)
  {
    forall j, k | 0 <= j < k < |after| ensures Apart(Extent(after[j]), Extent(after[k])) {
      assert Apart(Extent(before[j]), Extent(before[k]));
    }
  }

  lemma InsideLast(before: seq<Block>, last: Block, used: nat, after: seq<Block>, r: Region)
    requires Bumped(before, last, used, after) && Inside(before, r)
    requires r.size == 0 || used >= last.used || r.addr + r.size <= last.data + used || !InBlock(last, r)
    ensures Inside(after, r)
  {
    var k :| 0 <= k < |before| && InBlock(before[k], r) && (InBlock(last, r) ==> k == |before| - 1);
    assert InBlock(after[k], r);
  }

  lemma LiveGrows(before: seq<Block>, last: Block, size: nat, after: seq<Block>, live: seq<Region>, s: Region)
    requires Bumped(before, last, last.used + size, after) && BlocksOk(before) && LiveOk(before, live)
    requires last.used + size <= last.size && s == Region(last.data + last.used, size)
    ensures LiveOk(after, live + [s])
  {
    assert InBlock(after[|before| - 1], s);
    forall i | 0 <= i < |live| ensures Inside(after, live[i]) && Apart(live[i], s) {
      InsideLast(before, last, last.used + size, after, live[i]);
      FreeSpaceApart(before, live[i], s);
    }
  }

  lemma LiveInMore(blocks: seq<Block>, live: seq<Region>, b: Block)
    requires LiveOk(blocks, live)
    ensures LiveOk(blocks + [b], live)
  {
    forall i | 0 <= i < |live| ensures Inside(blocks + [b], live[i]) {
      var k :| 0 <= k < |blocks| && InBlock(blocks[k], live[i]);
      assert InBlock((blocks + [b])[k], live[i]);
    }
  }

  lemma LiveShrinks(blocks: seq<Block>, live: seq<Region>, i: nat)
    requires LiveOk(blocks, live) && i < |live|
    ensures LiveOk(blocks, Without(live, i))
  {
    var live' := Without(live, i);
    assert forall k :: 0 <= k < |live'| ==> live'[k] == live[if k < i then k else k + 1];
  }

  lemma AllocStep(before: seq<Block>, last: Block, size: nat, after: seq<Block>, live: seq<Region>, s: Region)
    requires Bumped(before, last, last.used + size, after) && BlocksOk(before) && LiveOk(before, live)
    requires last.used + size <= last.size && s == Region(last.data + last.used, size)
    ensures BlocksOk(after) && TotalSize(after) == TotalSize(before) && LiveOk(after, live + [s])
  {
    LiveGrows(before, last, size, after, live, s);
    BlocksOkLast(before, last, last.used + size, after);
    TotalSizeLast(before, last, last.used + size, after);
  }

  /** Giving back the most recent allocation of the last block. */
  lemma FreeLast(before: seq<Block>, last: Block, used: nat, after: seq<Block>, live: seq<Region>, i: nat)
    requires Bumped(before, last, used, after) && BlocksOk(before) && LiveOk(before, live) && i < |live|
    requires used == last.used - live[i].size && live[i].addr + live[i].size == last.data + last.used
    ensures BlocksOk(after) && TotalSize(after) == TotalSize(before) && LiveOk(after, Without(live, i))
  {
    var s := Region(live[i].addr, 0);
    ResizeStep(before, last, used, after, live, i, s);
    LiveShrinks(after, live[i := s], i);
    assert Without(live[i := s], i) == Without(live, i);
  }

  /** Resizing the most recent allocation of the last block. */
  lemma ResizeStep(before: seq<Block>, last: Block, used: nat, after: seq<Block>, live: seq<Region>, i: nat, s: Region)
    requires Bumped(before, last, used, after) && BlocksOk(before) && LiveOk(before, live) && i < |live|
    requires last.data <= live[i].addr == s.addr && live[i].addr + live[i].size == last.data + last.used
    requires s.addr + s.size == last.data + used <= last.data + last.size
    ensures BlocksOk(after) && TotalSize(after) == TotalSize(before) && LiveOk(after, live[i := s])
  {
    BlocksOkLast(before, last, used, after);
    TotalSizeLast(before, last, used, after);
    assert InBlock(after[|before| - 1], s);
    forall j | 0 <= j < |live| && j != i ensures Inside(after, live[j]) && Apart(live[j], s) {
      assert Apart(live[j], live[i]);
      FreeSpaceApart(before, live[j], Region(last.data + last.used, last.size - last.used));
      InsideLast(before, last, used, after, live[j]);
    }
  }

  // ---- contents ----

  /** The bytes of a region. */
  function Bytes(memory: int -> Byte, r: Region): seq<Byte> {
    seq(r.size, k requires 0 <= k < r.size => memory(r.addr + k))
  }

  /** memcpy(out, source, n). */
  function Copied(memory: int -> Byte, out: int, source: int, n: nat): int -> Byte {
    a => if out <= a < out + n then memory(source + (a - out)) else memory(a)
  }

  function Stored(memory: int -> Byte, out: int, data: seq<Byte>): int -> Byte {
    a => if 0 <= a - out < |data| then data[a - out] else memory(a)
  }

  lemma CopiedApart(memory: int -> Byte, out: int, source: int, n: nat, r: Region)
    requires Apart(r, Region(out, n))
    ensures Bytes(Copied(memory, out, source, n), r) == Bytes(memory, r)
  {
  }

  lemma CopiedHere(memory: int -> Byte, out: int, source: int, n: nat, m: nat)
    requires m <= n
    ensures Bytes(Copied(memory, out, source, n), Region(out, m)) == Bytes(memory, Region(source, m))
  {
  }

  lemma StoredApart(memory: int -> Byte, out: int, data: seq<Byte>, r: Region)
    requires Apart(r, Region(out, |data|))
    ensures Bytes(Stored(memory, out, data), r) == Bytes(memory, r)
  {
  }

  /** Every region of live has the same bytes in both memories. */
  ghost predicate SameBytes(live: seq<Region>, memory: int -> Byte, memory': int -> Byte) {
    forall i :: 0 <= i < |live| ==> Bytes(memory', live[i]) == Bytes(memory, live[i])
  }

  /** Free space of the block b that Alloc takes from is apart from all live regions. */
  lemma PlaceIsFree(blocks: seq<Block>, r: Region, b: Block, n: nat)
    requires BlocksOk(blocks) && Inside(blocks, r) && b.used + n <= b.size
    requires (blocks != [] && b == blocks[|blocks| - 1]) || Unoccupied(blocks, b.data, b.size)
    ensures Apart(r, Region(b.data + b.used, n))
  {
    if blocks != [] && b == blocks[|blocks| - 1] {
      FreeSpaceApart(blocks, r, Region(b.data + b.used, n));
    } else {
      var k :| 0 <= k < |blocks| && InBlock(blocks[k], r);
      assert Apart(Extent(blocks[k]), Region(b.data, b.size));
    }
  }

  lemma CopyKeepsLive(blocks: seq<Block>, live: seq<Region>, memory: int -> Byte, source: int, n: nat, b: Block)
    requires BlocksOk(blocks) && LiveOk(blocks, live) && b.used + n <= b.size
    requires (blocks != [] && b == blocks[|blocks| - 1]) || Unoccupied(blocks, b.data, b.size)
    ensures SameBytes(live, memory, Copied(memory, b.data + b.used, source, n))
  {
    forall i | 0 <= i < |live|
      ensures Bytes(Copied(memory, b.data + b.used, source, n), live[i]) == Bytes(memory, live[i])
    {
      PlaceIsFree(blocks, live[i], b, n);
      CopiedApart(memory, b.data + b.used, source, n, live[i]);
    }
  }

  lemma StoreKeepsLive(blocks: seq<Block>, live: seq<Region>, memory: int -> Byte, data: seq<Byte>, b: Block)
    requires BlocksOk(blocks) && LiveOk(blocks, live) && b.used + |data| <= b.size
    requires (blocks != [] && b == blocks[|blocks| - 1]) || Unoccupied(blocks, b.data, b.size)
    ensures SameBytes(live, memory, Stored(memory, b.data + b.used, data))
  {
    forall i | 0 <= i < |live| ensures Bytes(Stored(memory, b.data + b.used, data), live[i]) == Bytes(memory, live[i]) {
      PlaceIsFree(blocks, live[i], b, |data|);
      StoredApart(memory, b.data + b.used, data, live[i]);
    }
  }

  class UnsafeArena {
    const blockSize: nat
    var blocks: seq<Block>
    var bytesAllocated: nat
    var memory: int -> Byte
    ghost var live: seq<Region>

    ghost predicate Valid()
      reads this
    {
      BlocksOk(blocks) && LiveOk(blocks, live) && bytesAllocated == TotalSize(blocks)
    }

    constructor (blockSize: nat)
      ensures Valid() && live == [] && blocks == [] && this.blockSize == blockSize
    {
      this.blockSize := blockSize;
      blocks, bytesAllocated, live := [], 0, [];
      memory := a => 0;
    }

    method AllocBlock(size: nat, at: int)
      requires Valid() && Unoccupied(blocks, at, size)
      modifies this`blocks, this`bytesAllocated
      ensures Valid() && blocks == old(blocks) + [Block(at, size, 0)]
    {
      var b := Block(at, size, 0);
      LiveInMore(blocks, live, b);
      assert (blocks + [b])[..|blocks|] == blocks;
      blocks := blocks + [b];
      bytesAllocated := bytesAllocated + size;
    }

    /** Where the next allocation of this size goes: the last block, or a new one at `at`. */
    function Place(size: nat, at: int): Block
      reads this
    {
      if blocks != [] && blocks[|blocks| - 1].used + size <= blocks[|blocks| - 1].size then blocks[|blocks| - 1]
      else Block(at, Max(size, blockSize), 0)
    }

    /** The place is the last block or a new one, and has room. */
    lemma PlaceHasRoom(size: nat, at: int)
      requires Unoccupied(blocks, at, Max(size, blockSize))
      ensures Place(size, at).used + size <= Place(size, at).size
      ensures (blocks != [] && Place(size, at) == blocks[|blocks| - 1]) ||
        Unoccupied(blocks, Place(size, at).data, Place(size, at).size)
    {
    }

    /** The blocks once there is room for an allocation of this size. */
    function Reserved(size: nat, at: int): (r: seq<Block>)
      reads this
      ensures r != [] && r[|r| - 1] == Place(size, at)
    {
      if blocks != [] && Place(size, at) == blocks[|blocks| - 1] then blocks else blocks + [Place(size, at)]
    }

    method Reserve(additionalSpace: nat, at: int)
      requires Valid() && Unoccupied(blocks, at, Max(additionalSpace, blockSize))
      modifies this`blocks, this`bytesAllocated
      ensures Valid() && blocks == old(Reserved(additionalSpace, at))
      ensures blocks[|blocks| - 1].used + additionalSpace <= blocks[|blocks| - 1].size
    {
      if blocks == [] {
        AllocBlock(Max(additionalSpace, blockSize), at);
      } else {
        var last := blocks[|blocks| - 1];
        if last.size < last.used + additionalSpace {
          AllocBlock(Max(additionalSpace, blockSize), at);
        }
      }
    }

    /** at is where operator new[] would put a new block, should one be needed. */
    method Alloc(size: nat, at: int) returns (out: int)
      requires Valid() && Unoccupied(blocks, at, Max(size, blockSize))
      modifies this`blocks, this`bytesAllocated, this`live
      ensures Valid() && live == old(live) + [Region(out, size)]
      ensures out == old(Place(size, at).data + Place(size, at).used)
      ensures blocks == old(WithUsed(Reserved(size, at), Place(size, at).used + size))
    {
      Reserve(size, at);
      out := TakeFromLast(size);
    }

    /** The end of Alloc, once the last block has room. */
    method TakeFromLast(size: nat) returns (out: int)
      requires Valid() && blocks != [] && blocks[|blocks| - 1].used + size <= blocks[|blocks| - 1].size
      modifies this`blocks, this`live
      ensures Valid() && live == old(live) + [Region(out, size)]
      ensures out == old(blocks[|blocks| - 1].data + blocks[|blocks| - 1].used)
      ensures blocks == old(WithUsed(blocks, blocks[|blocks| - 1].used + size))
    {
      var b := blocks[|blocks| - 1];
      out := b.data + b.used;
      var after := WithUsed(blocks, b.used + size);
      AllocStep(blocks, b, size, after, live, Region(out, size));
      blocks := after;
      live := live + [Region(out, size)];
    }

    /** Memdup copies bytes from outside the arena. */
    method Memdup(data: seq<Byte>, at: int) returns (out: int)
      requires Valid() && Unoccupied(blocks, at, Max(|data|, blockSize))
      modifies this
      ensures Valid() && live == old(live) + [Region(out, |data|)]
      ensures out == old(Place(|data|, at).data + Place(|data|, at).used)
      ensures blocks == old(WithUsed(Reserved(|data|, at), Place(|data|, at).used + |data|))
      ensures Bytes(memory, Region(out, |data|)) == data
      ensures SameBytes(old(live), old(memory), memory)
    {
      hide BlocksOk, LiveOk, TotalSize, SameBytes, Unoccupied;
      PlaceHasRoom(|data|, at);
      StoreKeepsLive(blocks, live, memory, data, Place(|data|, at));
      out := Alloc(|data|, at);
      memory := Stored(memory, out, data);
    }

    /** The condition under which Realloc grows or shrinks the region where it is. */
    predicate InPlace(original: int, oldSize: nat, newSize: nat)
      reads this
    {
      blocks != [] &&
      var last := blocks[|blocks| - 1];
      last.data <= original < last.data + last.size && original + oldSize == last.data + last.used &&
      original + newSize < last.data + last.size
    }

    /** The copy of oldSize bytes stays inside the block that Alloc(newSize) takes from. */
    predicate CopyFits(original: int, oldSize: nat, newSize: nat, at: int)
      reads this
    {
      InPlace(original, oldSize, newSize) || Place(newSize, at).used + oldSize <= Place(newSize, at).size
    }

    /** The room left in the last block. */
    function Room(): nat
      reads this
      requires blocks != [] ==> blocks[|blocks| - 1].used <= blocks[|blocks| - 1].size
    {
      if blocks == [] then 0 else blocks[|blocks| - 1].size - blocks[|blocks| - 1].used
    }

    /** When the copy fits, in sizes a caller knows: always in place and when growing, else if the old size has room. */
    lemma CopyFitsIff(original: int, oldSize: nat, newSize: nat, at: int)
      requires Valid()
      ensures CopyFits(original, oldSize, newSize, at) <==>
        InPlace(original, oldSize, newSize) || oldSize <= newSize ||
        oldSize <= (if blocks != [] && newSize <= Room() then Room() else blockSize)
    {
    }

    /** The check at the start of Realloc: a non-empty region in the last block lies in its used part. */
    lemma InUsedPart(i: nat)
      requires Valid() && i < |live| && live[i].size > 0 && blocks != []
      requires var last := blocks[|blocks| - 1]; last.data <= live[i].addr < last.data + last.size
      ensures var last := blocks[|blocks| - 1]; live[i].addr + live[i].size <= last.data + last.used
    {
      assert Inside(blocks, live[i]);
      forall k | 0 <= k < |blocks| - 1 ensures Apart(Extent(blocks[k]), Extent(blocks[|blocks| - 1])) {
      }
    }

    /**
     * The i-th live region moves or is resized in place; its first bytes, and all bytes of the
     * other live regions, are kept.
     */
    method Realloc(original: int, oldSize: nat, newSize: nat, at: int, ghost i: nat) returns (out: int)
      requires Valid() && i < |live| && live[i] == Region(original, oldSize)
      requires Unoccupied(blocks, at, Max(newSize, blockSize)) && CopyFits(original, oldSize, newSize, at)
      modifies this
      ensures Valid()
      ensures live == if old(InPlace(original, oldSize, newSize)) then old(live)[i := Region(out, newSize)]
                      else Without(old(live), i) + [Region(out, newSize)]
      ensures var kept := if oldSize <= newSize then oldSize else newSize;
        Bytes(memory, Region(out, kept)) == Bytes(old(memory), Region(original, kept))
      ensures SameBytes(old(live), old(memory), memory)
    {
      assert blocks != [] by { assert Inside(blocks, live[i]); }
      var last := blocks[|blocks| - 1];
      if last.data <= original && original < last.data + last.size {
        if original + oldSize == last.data + last.used {
          if original + newSize < last.data + last.size {
            ResizeLast(original, oldSize, newSize, i);
            return original;
          }
        }
      }
      out := MoveTo(original, oldSize, newSize, at, i);
    }

    method ResizeLast(original: int, oldSize: nat, newSize: nat, ghost i: nat)
      requires Valid() && i < |live| && live[i] == Region(original, oldSize) && InPlace(original, oldSize, newSize)
      modifies this`blocks, this`live
      ensures Valid() && live == old(live)[i := Region(original, newSize)]
    {
      var last := blocks[|blocks| - 1];
      var after := WithUsed(blocks, last.used + newSize - oldSize);
      ResizeStep(blocks, last, last.used + newSize - oldSize, after, live, i, Region(original, newSize));
      blocks := after;
      live := live[i := Region(original, newSize)];
    }

    method MoveTo(original: int, oldSize: nat, newSize: nat, at: int, ghost i: nat) returns (out: int)
      requires Valid() && i < |live| && live[i] == Region(original, oldSize)
      requires Unoccupied(blocks, at, Max(newSize, blockSize))
      requires Place(newSize, at).used + oldSize <= Place(newSize, at).size
      modifies this
      ensures Valid() && live == Without(old(live), i) + [Region(out, newSize)]
      ensures var kept := if oldSize <= newSize then oldSize else newSize;
        Bytes(memory, Region(out, kept)) == Bytes(old(memory), Region(original, kept))
      ensures SameBytes(old(live), old(memory), memory)
    {
      ghost var b, live0 := Place(newSize, at), live;
      CopyKeepsLive(blocks, live, memory, original, oldSize, b);
      out := Alloc(newSize, at);
      assert out == b.data + b.used;
      CopiedHere(memory, out, original, oldSize, if oldSize <= newSize then oldSize else newSize);
      memory := Copied(memory, out, original, oldSize);
      WithoutAppended(live0, Region(out, newSize), i);
      GiveUp(i);
    }

    /** The i-th live region is no longer used; its space stays where it is. */
    ghost method GiveUp(i: nat)
      requires Valid() && i < |live|
      modifies this`live
      ensures Valid() && live == Without(old(live), i)
    {
      LiveShrinks(blocks, live, i);
      live := Without(live, i);
    }

    /** The space of the i-th live region is reclaimed if it is the most recent allocation. */
    method Free(data: int, size: nat, ghost i: nat)
      requires Valid() && i < |live| && live[i] == Region(data, size)
      modifies this`blocks, this`live
      ensures Valid() && live == Without(old(live), i) && blocks != []
      ensures var last := old(blocks)[|old(blocks)| - 1];
        blocks == if size <= last.used && data + size == last.data + last.used
                  then WithUsed(old(blocks), last.used - size)
                  else old(blocks)
    {
      assert blocks != [] by { assert Inside(blocks, live[i]); }
      if blocks == [] {
        return;
      }
      var b := blocks[|blocks| - 1];
      if size <= b.used && data + size == b.data + b.used {
        Reclaim(size, i);
      } else {
        GiveUp(i);
      }
    }

    method Reclaim(size: nat, ghost i: nat)
      requires Valid() && blocks != [] && i < |live| && live[i].size == size <= blocks[|blocks| - 1].used
      requires live[i].addr + size == blocks[|blocks| - 1].data + blocks[|blocks| - 1].used
      modifies this`blocks, this`live
      ensures Valid() && live == Without(old(live), i)
      ensures blocks == WithUsed(old(blocks), old(blocks)[|old(blocks)| - 1].used - size)
    {
      var last := blocks[|blocks| - 1];
      var after := WithUsed(blocks, last.used - size);
      FreeLast(blocks, last, last.used - size, after, live, i);
      blocks := after;
      live := Without(live, i);
    }

    method Reset()
      modifies this`blocks, this`bytesAllocated, this`live
      ensures Valid() && live == [] && blocks == [] && bytesAllocated == 0
    {
      blocks, bytesAllocated, live := [], 0, [];
    }
  }

  /**
   * Shrinking an older allocation copies its old size. Here the space taken for the new size is at the
   * end of a block that another one follows, and the copy changes the first byte of the region there.
   */
  method ShrinkingExample() returns (arena: UnsafeArena)
    ensures arena.Valid() && arena.live == [Region(4, 4), Region(0, 2), Region(2, 1)]
    ensures !arena.CopyFits(0, 2, 1, 100)
    ensures var out := arena.Place(1, 100).data + arena.Place(1, 100).used;
      Bytes(Copied(arena.memory, out, 0, 2), Region(4, 4)) != Bytes(arena.memory, Region(4, 4))
  {
    hide BlocksOk, LiveOk, TotalSize, Bytes, Copied;
    arena := TwoBlocks();
    var second := arena.Alloc(1, 100);
    OverwrittenByte(arena.memory);
  }

  /** A full block at 4, and behind it the start of a block at 0. */
  method TwoBlocks() returns (arena: UnsafeArena)
    ensures fresh(arena) && arena.Valid() && arena.live == [Region(4, 4), Region(0, 2)] && arena.blockSize == 4
    ensures arena.blocks == [Block(4, 4, 4), Block(0, 4, 2)]
    ensures Bytes(arena.memory, Region(4, 4)) == [7, 7, 7, 7] && Bytes(arena.memory, Region(0, 2)) == [1, 2]
  {
    hide BlocksOk, LiveOk, TotalSize, Bytes;
    arena := new UnsafeArena(4);
    var full := arena.Memdup([7, 7, 7, 7], 4);
    ghost var live := arena.live;
    var first := arena.Memdup([1, 2], 0);
    assert Bytes(arena.memory, live[0]) == [7, 7, 7, 7];
  }

  lemma OverwrittenByte(memory: int -> Byte)
    requires Bytes(memory, Region(4, 4)) == [7, 7, 7, 7] && Bytes(memory, Region(0, 2)) == [1, 2]
    ensures Bytes(Copied(memory, 3, 0, 2), Region(4, 4)) != Bytes(memory, Region(4, 4))
  {
    ExampleBytes(memory);
    var m := Copied(memory, 3, 0, 2);
    assert Bytes(m, Region(4, 4))[0] == m(4) == memory(1);
  }

  lemma ExampleBytes(memory: int -> Byte)
    requires Bytes(memory, Region(4, 4)) == [7, 7, 7, 7] && Bytes(memory, Region(0, 2)) == [1, 2]
    ensures memory(4) == 7 && memory(1) == 2
  {
    assert Bytes(memory, Region(4, 4))[0] == memory(4 + 0);
    assert Bytes(memory, Region(0, 2))[1] == memory(0 + 1);
  }

  /** An empty region can be left beyond the used part, where the check at the start of Realloc fails. */
  method EmptyRegionExample() returns (arena: UnsafeArena)
    ensures arena.Valid() && arena.live == [Region(2, 0)] && arena.blocks == [Block(0, 4, 0)]
    ensures arena.blocks[0].data + arena.blocks[0].used < arena.live[0].addr + arena.live[0].size
  {
    arena := new UnsafeArena(4);
    var first := arena.Alloc(2, 0);
    var second := arena.Alloc(0, 100);
    arena.Free(0, 2, 0);
  }
}
