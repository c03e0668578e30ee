/** The memory pool of lib/rapidjson/allocators.h (MemoryPoolAllocator).  The memory the base allocator hands out is a
    parameter of the methods that may ask for it. */
module PoolAllocator {
  import opened Bytes
  import opened PoolGeometry

  class Chunk {
    const addr: nat
    const capacity: nat
    const next: Chunk?
    var size: nat

    constructor (addr: nat, capacity: nat, next: Chunk?)
      ensures this.addr == addr && this.capacity == capacity && this.next == next && size == 0
    {
      this.addr := addr;
      this.capacity := capacity;
      this.next := next;
      size := 0;
    }

    ghost function AsShape(): Shape
      reads this
    {
      Shape(addr, capacity, size)
    }
  }

  ghost function Shapes(chunks: seq<Chunk>): (r: seq<Shape>)
    reads chunks
    ensures |r| == |chunks|
  {
    seq(|chunks|, i requires 0 <= i < |chunks| reads chunks => chunks[i].AsShape())
  }

  /** c is the first of the linked chunks. */
  predicate Linked(c: Chunk?, chunks: seq<Chunk>) {
    && (c == null <==> chunks == [])
    && (chunks != [] ==> c == chunks[0] && Linked(chunks[0].next, chunks[1..]))
  }

  ghost predicate Distinct(chunks: seq<Chunk>) {
    forall i, j :: 0 <= i < j < |chunks| ==> chunks[i] != chunks[j]
  }

  function TotalSize(shapes: seq<Shape>): nat {
    if shapes == [] then 0 else shapes[0].size + TotalSize(shapes[1..])
  }

  function TotalCapacity(shapes: seq<Shape>): nat {
    if shapes == [] then 0 else shapes[0].capacity + TotalCapacity(shapes[1..])
  }

  /** What is in use never exceeds what there is. */
  lemma {:induction false} SizeWithinCapacity(shapes: seq<Shape>)
    requires forall i :: 0 <= i < |shapes| ==> shapes[i].size <= shapes[i].capacity
    ensures TotalSize(shapes) <= TotalCapacity(shapes)
  {
    if shapes != [] {
      SizeWithinCapacity(shapes[1..]);
    }
  }

  function Cells(a: nat, b: nat): (r: set<nat>)
    ensures forall k :: k in r <==> a <= k < b
  {
    if a >= b then {} else Cells(a, b - 1) + {b - 1}
  }

  lemma {:induction false} CellsCount(a: nat, b: nat)
    requires a <= b
    ensures |Cells(a, b)| == b - a
    decreases b
  {
    if a < b {
      CellsCount(a, b - 1);
    }
  }

  /** The addresses that belong to some chunk. */
  function AllCells(shapes: seq<Shape>): set<nat> {
    if shapes == [] then {} else Cells(shapes[0].addr, shapes[0].End()) + AllCells(shapes[1..])
  }

  lemma {:induction false} CellsOfChunks(shapes: seq<Shape>)
    requires Regions(shapes)
    ensures |AllCells(shapes)| == |shapes| * HEADER + TotalCapacity(shapes)
    ensures forall k :: k in AllCells(shapes) ==> exists i :: 0 <= i < |shapes| && shapes[i].addr <= k < shapes[i].End()
  {
    if shapes != [] {
      var rest := shapes[1..];
      RestIsRegions(shapes);
      CellsOfChunks(rest);
      var first := Cells(shapes[0].addr, shapes[0].End());
      CellsCount(shapes[0].addr, shapes[0].End());
      forall k | k in AllCells(rest)
        ensures k !in first && exists i :: 0 <= i < |shapes| && shapes[i].addr <= k < shapes[i].End()
      {
        var i :| 0 <= i < |rest| && rest[i].addr <= k < rest[i].End();
        assert shapes[i + 1] == rest[i] && ShapesApart(shapes[0], shapes[i + 1]);
      }
      assert first !! AllCells(rest);
    }
  }

  lemma RestIsRegions(shapes: seq<Shape>)
    requires Regions(shapes) && shapes != []
    ensures Regions(shapes[1..])
  {
    forall i, j | 0 <= i < j < |shapes[1..]|
      ensures ShapesApart(shapes[1..][i], shapes[1..][j])
    {
      assert ShapesApart(shapes[i + 1], shapes[j + 1]);
    }
  }

  /** The capacities of chunks that are apart add up to less than the address space: the 64-bit sums do not wrap. */
  lemma CapacityFits(shapes: seq<Shape>)
    requires Regions(shapes)
    ensures TotalCapacity(shapes) < TWO64
  {
    CellsOfChunks(shapes);
    CellsCount(0, TWO64);
    if shapes != [] {
      forall k | k in AllCells(shapes)
        ensures k in Cells(0, TWO64)
      {
        var i :| 0 <= i < |shapes| && shapes[i].addr <= k < shapes[i].End();
      }
      SubsetCount(AllCells(shapes), Cells(0, TWO64));
    }
  }

  lemma {:induction false} SubsetCount(a: set<nat>, b: set<nat>)
    requires a <= b
    ensures |a| <= |b|
    decreases |a|
  {
    if a != {} {
      var x :| x in a;
      SubsetCount(a - {x}, b - {x});
    }
  }

  /** memcpy within one memory. */
  function Copied(mem: nat -> Byte, dst: nat, src: nat, n: nat): nat -> Byte {
    (a: nat) => if dst <= a < dst + n then mem(src + (a - dst)) else mem(a)
  }

  /** n bytes moved from src in one memory to dst in another. */
  ghost predicate Kept(was: nat -> Byte, src: nat, now: nat -> Byte, dst: nat, n: nat) {
    forall a :: src <= a < src + n ==> now(dst + (a - src)) == was(a)
  }

  /** Every live block but the one at p has its old bytes. */
  ghost predicate OthersKept(live: map<nat, nat>, was: nat -> Byte, now: nat -> Byte, p: nat) {
    forall q :: q in live && q != p ==> Kept(was, q, now, q, live[q])
  }

  function Least(a: nat, b: nat): nat {
    if a <= b then a else b
  }

  class MemoryPool {
    var chunkHead: Chunk?
    const chunkCapacity: nat
    const userBuffer: nat  // the address of the user's buffer, 0 if there is none
    var mem: nat -> Byte
    ghost var chunks: seq<Chunk>
    ghost var live: map<nat, nat>

    ghost function AsPool(): Pool
      reads this, chunks
    {
      Pool(Shapes(chunks), userBuffer, live)
    }

    ghost predicate Shaped()
      reads this, chunks
    {
      Linked(chunkHead, chunks) && Distinct(chunks) && chunkCapacity < TWO64
    }

    /** Every live block lies in one chunk, and the blocks and chunks are apart. */
    ghost predicate Valid()
      reads this, chunks
    {
      Shaped() && AsPool().Good()
    }

    constructor (chunkSize: nat)
      requires chunkSize < TWO64
      ensures Valid() && live == map[] && chunks == [] && userBuffer == 0
    {
      chunkHead, chunkCapacity, userBuffer := null, chunkSize, 0;
      mem := _ => 0;
      chunks, live := [], map[];
    }

    constructor WithBuffer(buffer: nat, size: nat, chunkSize: nat)
      requires buffer != 0 && HEADER < size && buffer + size <= TWO64 && chunkSize < TWO64
      ensures Valid() && live == map[] && userBuffer == buffer
      ensures AsPool().shapes == [Shape(buffer, size - HEADER, 0)] && fresh(chunks[0])
    {
      var c := new Chunk(buffer, size - HEADER, null);
      chunkHead, chunkCapacity, userBuffer := c, chunkSize, buffer;
      mem := _ => 0;
      chunks, live := [c], map[];
      new;
      assert AsPool().shapes == [Shape(buffer, size - HEADER, 0)];
    }

    /** Puts a new chunk in front, if the base allocator has memory for it.  It is asked for 64 bits' worth of the sum of
        header and capacity: the chunk is as large as it says exactly when the sum does not wrap round. */
    method AddChunk(capacity: nat, at: Option<nat>) returns (ok: bool)
      requires Valid() && capacity < TWO64
      requires at.Some? ==> AsPool().FreshBytes(at.value, (HEADER + capacity) % TWO64)
      modifies this
      ensures Shaped() && ok == at.Some? && mem == old(mem)
      ensures Valid() <==> !ok || HEADER + capacity < TWO64
      ensures AsPool() == if ok then old(AsPool()).Pushed(at.value, capacity) else old(AsPool())
      ensures !ok ==> chunks == old(chunks)
      ensures ok ==> chunks[1..] == old(chunks) && fresh(chunks[0])
    {
      hide AllHeld, AllApart, UserLast, Sizes;
      if at.None? {
        return false;
      }
      ghost var g := AsPool();
      if HEADER + capacity < TWO64 {
        PushKeeps(g, at.value, capacity);
      }
      var chunk := new Chunk(at.value, capacity, chunkHead);
      chunkHead := chunk;
      chunks := [chunk] + chunks;
      assert chunks[1..] == old(chunks);
      assert AsPool().shapes == [Shape(at.value, capacity, 0)] + g.shapes;
      assert AsPool().shapes[0].End() == at.value + HEADER + capacity;
      return true;
    }

    /** The base allocator is asked for another chunk. */
    predicate NeedsChunk(n: nat)
      reads this, chunkHead
    {
      chunkHead == null || (chunkHead.size + n) % TWO64 > chunkHead.capacity
    }

    function NewCapacity(n: nat): nat
      reads this
    {
      if chunkCapacity > n then chunkCapacity else n
    }

    /** None of the sums in Malloc wraps round: rounding the size up, adding it to what is in use, adding the header to
        the capacity of a new chunk. */
    predicate Fits(size: nat)
      requires size < TWO64
      reads this, chunkHead
    {
      && size <= MAX_SIZE
      && if NeedsChunk(Align(size)) then HEADER + NewCapacity(Align(size)) < TWO64
         else chunkHead.size + Align(size) < TWO64
    }

    /** A block is handed out unless the size is zero or a chunk that is needed is refused.  It lies behind what is in use
        of the head chunk if that has room for it, even if only just, and else at the start of a new chunk, which is of
        the usual capacity or as large as the block.  It is new, and apart from every live block, and keeps the pool in
        order, exactly when no sum wraps round. */
    method Malloc(size0: nat, at: Option<nat>) returns (p: Option<nat>)
      requires Valid() && size0 < TWO64
      requires at.Some? && size0 > 0 ==> AsPool().FreshBytes(at.value, (HEADER + NewCapacity(Align(size0))) % TWO64)
      modifies this, chunks
      ensures Shaped() && mem == old(mem)
      ensures p.None? <==> size0 == 0 || (old(NeedsChunk(Align(size0))) && at.None?)
      ensures size0 > 0 && old(chunkHead != null && (chunkHead.size + Align(size0)) % TWO64 <= chunkHead.capacity) ==>
                p == Some(old(chunkHead.addr + HEADER + chunkHead.size)) && chunks == old(chunks)
      ensures p.Some? && !old(chunkHead != null && (chunkHead.size + Align(size0)) % TWO64 <= chunkHead.capacity) ==>
                && p.value == at.value + HEADER
                && chunks != [] && chunks[1..] == old(chunks) && chunks[0].addr == at.value
                && chunks[0].capacity >= chunkCapacity && chunks[0].capacity >= Align(size0)
                && (chunks[0].capacity == chunkCapacity || chunks[0].capacity == Align(size0))
      ensures p.None? ==> Valid() && AsPool() == old(AsPool())
      ensures p.Some? ==> live == old(live)[p.value := size0] && (Valid() <==> old(Fits(size0)))
      ensures p.Some? && Valid() ==> p.value !in old(live)
      ensures p.Some? && Valid() ==>
                forall q :: q in old(live) ==> Apart(q, q + Align(old(live)[q]), p.value, p.value + Align(size0))
      ensures fresh(set c | c in chunks && c !in old(chunks))
    {
      hide Regions, UserLast, Held, AllHeld, AllApart, Align;
      if size0 == 0 {
        return None;
      }
      AlignIsWord(size0);
      var size := Align(size0);
      ghost var fits := Fits(size0);
      LinkedEnds(chunkHead, chunks);
      if chunks != [] {
        HeadShape(chunks);
        HeadWithin(AsPool());
        SumWraps(chunkHead.size, size);
      }
      if NeedsChunk(size) {
        var ok := AddChunk(NewCapacity(size), at);
        if !ok {
          return None;
        }
      }
      p := Take(size0, fits);
    }

    /** The end of Malloc: the block behind what is in use of the head chunk. */
    method Take(size0: nat, ghost fits: bool) returns (p: Option<nat>)
      requires Shaped() && chunks != [] && 0 < size0 < TWO64
      requires fits ==> Valid() && size0 <= MAX_SIZE && AsPool().Room(Align(size0))
      requires !fits ==> size0 > MAX_SIZE || AsPool().shapes[0].End() > TWO64
                         || (Valid() && AsPool().shapes[0].size + Align(size0) >= TWO64)
      modifies this, chunkHead
      ensures Shaped() && mem == old(mem) && chunks == old(chunks)
      ensures p == Some(old(chunks[0].addr + HEADER + chunks[0].size))
      ensures live == old(live)[p.value := size0] && (Valid() <==> fits)
      ensures fits ==> p.value !in old(live)
      ensures fits ==> forall q :: q in old(live) ==> Apart(q, q + Align(old(live)[q]), p.value, p.value + Align(size0))
    {
      hide Regions, UserLast, Held, AllHeld, AllApart, Align, Sizes;
      ghost var g := AsPool();
      HeadShape(chunks);
      if fits {
        Carve(g, size0);
      } else {
        MisfitBreaks(g, size0);
      }
      var buffer := chunkHead.addr + HEADER + chunkHead.size;
      GrowHead(Align(size0));
      live := live[buffer := size0];
      assert AsPool() == Pool(GrownWrapping(g.shapes, Align(size0)), g.user, g.live[buffer := size0]);
      return Some(buffer);
    }

    /** Realloc's room test and, if it has to go elsewhere, Malloc's sums do not wrap round. */
    predicate ReallocFits(original: Option<nat>, originalSize: nat, newSize: nat)
      requires originalSize < TWO64 && newSize < TWO64
      reads this, chunkHead
    {
      if original.None? then Fits(newSize)
      else newSize <= MAX_SIZE
           && (Align(newSize) <= Align(originalSize) || GrowsInPlace(original.value, originalSize, newSize) || Fits(newSize))
    }

    /** The block is the last one of the head chunk, which has room for what it lacks. */
    predicate GrowsInPlace(block: nat, originalSize: nat, newSize: nat)
      requires originalSize < TWO64 && newSize < TWO64
      reads this, chunkHead
    {
      && chunkHead != null
      && block + Align(originalSize) == chunkHead.addr + HEADER + chunkHead.size
      && chunkHead.size + Align(newSize) - Align(originalSize) <= chunkHead.capacity
    }

    /** Gives the block at `original` room for newSize bytes: where it is if it fits or can grow, else as a copy elsewhere.
        The old block is never given up. */
    method Realloc(original: Option<nat>, originalSize: nat, newSize: nat, at: Option<nat>) returns (p: Option<nat>)
      requires Valid() && newSize < TWO64 && originalSize < TWO64
      requires original.Some? ==> original.value in live && live[original.value] == originalSize
      requires at.Some? && newSize > 0 ==> AsPool().FreshBytes(at.value, (HEADER + NewCapacity(Align(newSize))) % TWO64)
      modifies this, chunks
      ensures Shaped()
      ensures newSize == 0 ==> p.None?
      ensures p.None? ==> Valid() && AsPool() == old(AsPool()) && mem == old(mem)
      ensures p.None? && newSize > 0 ==> at.None? && old(NeedsChunk(Align(newSize)))
      ensures p.Some? ==> live == old(live)[p.value := newSize]
      ensures p.Some? ==> (Valid() <==> old(ReallocFits(original, originalSize, newSize)))
      ensures p.Some? && Valid() && p.value in old(live) ==> p == original
      ensures original.Some? && newSize > 0 && Align(newSize) <= Align(originalSize) ==>
                p == original && Shapes(chunks) == old(Shapes(chunks))
      ensures original.Some? && 0 < newSize <= MAX_SIZE && Align(originalSize) < Align(newSize)
              && old(chunkHead != null && original.value + Align(originalSize) == chunkHead.addr + HEADER + chunkHead.size
                     && chunkHead.size + Align(newSize) - Align(originalSize) <= chunkHead.capacity) ==>
                p == original && chunks == old(chunks)
      ensures p.Some? && Valid() && original.Some? ==>
                Kept(old(mem), original.value, mem, p.value, Least(originalSize, newSize))
      ensures p.Some? && Valid() ==> OthersKept(old(live), old(mem), mem, p.value)
    {
      hide Regions, UserLast, Held, AllApart, AllHeld, Align, OthersKept, Kept, Copied, MemoryPool.Fits, MemoryPool.NeedsChunk, MemoryPool.NewCapacity;
      ghost var g, fits := AsPool(), ReallocFits(original, originalSize, newSize);
      if original.None? {
        p := Malloc(newSize, at);
        NothingMoved(g.live, mem, if p.Some? then p.value else 0);
        return;
      }
      if newSize == 0 {
        return None;
      }
      var block := original.value;
      AlignSmall(originalSize);
      AlignIsWord(newSize);
      NothingMoved(live, mem, block);
      Unmoved(mem, block, Least(originalSize, newSize));
      if Align(originalSize) >= Align(newSize) {
        if newSize <= MAX_SIZE {
          ShrinkKeeps(g, block, newSize);
        }
        live := live[block := newSize];
        assert block in live && AsPool() == g.(live := g.live[block := newSize]);
        return original;
      }
      var grown := GrowInPlace(block, originalSize, newSize);
      if grown {
        return original;
      }
      ghost var was := mem;
      p := Move(block, originalSize, newSize, at);
      if p.Some? && Valid() {
        KeptLess(was, block, mem, p.value, Align(originalSize), Least(originalSize, newSize));
      }
    }

    /** Expands the block if it is the last one of the head chunk and the room test allows it.  A test that allows it
        because a sum wraps round breaks the pool. */
    method GrowInPlace(block: nat, originalSize: nat, newSize: nat) returns (grown: bool)
      requires Valid() && newSize <= MAX_SIZE && block in live && live[block] == originalSize < TWO64
      requires Align(originalSize) < Align(newSize)
      modifies this, chunkHead
      ensures Shaped() && mem == old(mem) && chunks == old(chunks) && chunkHead == old(chunkHead)
      ensures !grown ==> unchanged(this, chunkHead) && Valid() && AsPool() == old(AsPool())
      ensures !grown ==> !old(GrowsInPlace(block, originalSize, newSize))
      ensures grown ==> live == old(live)[block := newSize]
      ensures grown ==> (Valid() <==> old(GrowsInPlace(block, originalSize, newSize)))
      ensures grown && !Valid() ==> !old(Fits(newSize))
    {
      hide Regions, UserLast, Held, AllApart, AllHeld, Align;
      ghost var g := AsPool();
      AlignSmall(originalSize);
      AlignIsWord(newSize);
      AlignMonotoneInverse(originalSize, newSize);
      SomeChunk(g, block);
      HeadShape(chunks);
      HeadWithin(g);
      LinkedEnds(chunkHead, chunks);
      SumWraps(chunkHead.size, Align(newSize));
      if block == chunkHead.addr + HEADER + chunkHead.size - Align(originalSize) {
        var increment := Align(newSize) - Align(originalSize);
        SumWraps(chunkHead.size, increment);
        if (chunkHead.size + increment) % TWO64 <= chunkHead.capacity {
          if chunkHead.size + increment < TWO64 {
            Extended(g, block, newSize);
          } else {
            MisgrowthBreaks(g, block, newSize);
          }
          GrowHead(increment);
          live := live[block := newSize];
          assert AsPool() == Pool(GrownWrapping(g.shapes, increment), g.user, g.live[block := newSize]);
          return true;
        }
      }
      return false;
    }

    /** The last resort of Realloc: a new block with a copy of the old one. */
    method Move(block: nat, originalSize: nat, newSize: nat, at: Option<nat>) returns (p: Option<nat>)
      requires Valid() && newSize <= MAX_SIZE && block in live && live[block] == originalSize < TWO64
      requires 0 < originalSize && Align(originalSize) < Align(newSize)
      requires at.Some? ==> AsPool().FreshBytes(at.value, (HEADER + NewCapacity(Align(newSize))) % TWO64)
      modifies this, chunks
      ensures Shaped()
      ensures p.None? <==> at.None? && old(NeedsChunk(Align(newSize)))
      ensures p.None? ==> Valid() && AsPool() == old(AsPool()) && mem == old(mem)
      ensures p.Some? ==> live == old(live)[p.value := newSize]
      ensures p.Some? ==> (Valid() <==> old(Fits(newSize)))
      ensures p.Some? ==> mem == Copied(old(mem), p.value, block, Align(originalSize))
      ensures p.Some? && Valid() ==> p.value !in old(live)
      ensures p.Some? && Valid() ==> Kept(old(mem), block, mem, p.value, Align(originalSize))
      ensures p.Some? && Valid() ==> OthersKept(old(live), old(mem), mem, p.value)
    {
      hide Regions, UserLast, Held, AllApart, AllHeld, Align, OthersKept, Copied, Kept;
      ghost var was := live;
      AlignSmall(newSize);
      AlignTwice(newSize);
      p := Malloc(Align(newSize), at);
      if p.Some? {
        ghost var g := AsPool();
        SameRoom(g, p.value, newSize);
        if Valid() {
          CopyKeeps(was, mem, p.value, block, Align(originalSize), Align(newSize));
        }
        mem := Copied(mem, p.value, block, Align(originalSize));
        live := live[p.value := newSize];
        assert AsPool() == g.(live := g.live[p.value := newSize]);
      }
    }

    /** Frees every chunk but the user's, which is left empty. */
    method Clear() returns (freed: seq<nat>)
      requires Valid()
      modifies this, chunks
      ensures Valid() && live == map[] && mem == old(mem)
      ensures freed == Addresses(old(AsPool()).Owned())
      ensures userBuffer !in freed
      ensures AsPool().shapes == old(AsPool()).Cleared()
    {
      hide Linked, AllApart, AllHeld, Align, Regions, UserLast, Held, Addresses, Sizes;
      ghost var g := AsPool();
      assert g.Good();
      live := map[];
      freed := [];
      ghost var all := g.shapes;
      ghost var k := 0;
      assert all[0..] == all && all[..0] == [];
      while chunkHead != null && chunkHead.addr != userBuffer
        invariant k <= |all| && Linked(chunkHead, chunks) && Distinct(chunks)
        invariant chunks == old(chunks)[k..] && Shapes(chunks) == all[k..]
        invariant freed == Addresses(all[..k]) && userBuffer !in freed
        invariant live == map[] && mem == old(mem)
        decreases |all| - k
      {
        LinkedHead(chunkHead, chunks);
        HeadShape(chunks);
        assert all[..k + 1] == all[..k] + [all[k]];
        AddressesAppend(all[..k], all[k]);
        freed := freed + [chunkHead.addr];
        chunkHead := chunkHead.next;
        chunks := chunks[1..];
        k := k + 1;
      }
      LinkedEnds(chunkHead, chunks);
      if chunks != [] {
        HeadShape(chunks);
      }
      assert k == |all| ==> all[..k] == all && all[k..] == [];
      ClearedEnd(g, k, chunkHead == null);
      if chunkHead != null && chunkHead.addr == userBuffer {
        LinkedHead(chunkHead, chunks);
        LinkedEnds(chunkHead.next, chunks[1..]);
        chunkHead.size := 0;
        assert chunks == [chunkHead];
      }
      assert Shapes(chunks) == g.Cleared();
      EmptyGood(g.Cleared(), userBuffer);
      LinkedOne(chunkHead, chunks);
    }

    /** The bytes in use over all chunks. */
    method Size() returns (size: nat)
      requires Valid()
      ensures size == TotalSize(AsPool().shapes) && size <= TotalCapacity(AsPool().shapes) < TWO64
    {
      hide AllApart, AllHeld, UserLast;
      size := 0;
      var c := chunkHead;
      ghost var rest := chunks;
      while c != null
        invariant Linked(c, rest)
        invariant size + TotalSize(Shapes(rest)) == TotalSize(Shapes(chunks))
        decreases |rest|
      {
        HeadShape(rest);
        size := size + c.size;
        c, rest := c.next, rest[1..];
      }
      SizeWithinCapacity(AsPool().shapes);
      CapacityFits(AsPool().shapes);
    }

    /** The bytes all chunks have room for. */
    method Capacity() returns (capacity: nat)
      requires Valid()
      ensures capacity == TotalCapacity(AsPool().shapes) && TotalSize(AsPool().shapes) <= capacity < TWO64
    {
      hide AllApart, AllHeld, UserLast;
      capacity := 0;
      var c := chunkHead;
      ghost var rest := chunks;
      while c != null
        invariant Linked(c, rest)
        invariant capacity + TotalCapacity(Shapes(rest)) == TotalCapacity(Shapes(chunks))
        decreases |rest|
      {
        HeadShape(rest);
        capacity := capacity + c.capacity;
        c, rest := c.next, rest[1..];
      }
      SizeWithinCapacity(AsPool().shapes);
      CapacityFits(AsPool().shapes);
    }

    /** chunkHead_->size += n */
    method GrowHead(n: nat)
      requires Linked(chunkHead, chunks) && Distinct(chunks) && chunks != []
      modifies chunkHead
      ensures Shapes(chunks) == GrownWrapping(old(Shapes(chunks)), n)
      ensures chunkHead.size == (old(chunkHead.size) + n) % TWO64
    {
      ghost var was := Shapes(chunks);
      chunkHead.size := (chunkHead.size + n) % TWO64;
      forall i | 0 <= i < |chunks|
        ensures Shapes(chunks)[i] == GrownWrapping(was, n)[i]
      {
        if i > 0 {
          assert chunks[i] != chunks[0];
        }
      }
    }
  }

  /** The head chunk uses at most what it has, which is less than the address space. */
  lemma HeadWithin(g: Pool)
    requires g.Good() && g.shapes != []
    ensures g.shapes[0].size <= g.shapes[0].capacity < TWO64
  {
  }

  lemma AlignIsWord(x: nat)
    requires x < TWO64
    ensures Align(x) < TWO64 && (0 < x <= MAX_SIZE ==> x <= Align(x) && 8 <= Align(x) <= MAX_SIZE && Align(x) % 8 == 0)
    ensures x > MAX_SIZE ==> Align(x) == 0
  {
  }

  /** A block for which the head chunk has room. */
  lemma Carve(g: Pool, size: nat)
    requires g.Good() && 0 < size <= MAX_SIZE && g.Room(Align(size))
    ensures var p := g.shapes[0].Used();
            && Pool(GrownWrapping(g.shapes, Align(size)), g.user, g.live[p := size]).Good() && p !in g.live
            && forall q :: q in g.live ==> Apart(q, q + Align(g.live[q]), p, p + Align(size))
  {
    hide Align, Regions, UserLast, Held, AllHeld, AllApart;
    CarveKeeps(g, size);
    HeadWithin(g);
    assert GrownWrapping(g.shapes, Align(size)) == Grown(g.shapes, Align(size));
    forall q | q in g.live
      ensures Apart(q, q + Align(g.live[q]), g.shapes[0].Used(), g.shapes[0].Used() + Align(size))
    {
      BehindHeadIsFree(g, q, Align(size));
    }
  }

  /** The last block of the head chunk grows where there is room. */
  lemma Extended(g: Pool, p: nat, size: nat)
    requires g.Good() && p in g.live && g.live[p] <= size <= MAX_SIZE && g.shapes != []
    requires p + Align(g.live[p]) == g.shapes[0].Used()
    requires Align(g.live[p]) <= Align(size) && g.Room(Align(size) - Align(g.live[p]))
    ensures Pool(GrownWrapping(g.shapes, Align(size) - Align(g.live[p])), g.user, g.live[p := size]).Good()
  {
    hide Align, Regions, UserLast, Held, AllHeld, AllApart;
    var k := Align(size) - Align(g.live[p]);
    ExtendKeeps(g, p, size);
    HeadWithin(g);
    assert GrownWrapping(g.shapes, k) == Grown(g.shapes, k);
  }

  /** Two sizes that round up to the same one make no difference to the pool. */
  lemma SameRoom(g: Pool, p: nat, size: nat)
    requires p in g.live && 0 < size <= MAX_SIZE && g.live[p] == Align(size) && Align(Align(size)) == Align(size)
    ensures g.(live := g.live[p := size]).Good() <==> g.Good()
  {
    hide Regions, UserLast, Held, AllApart, AllHeld, Align;
    AlignSmall(size);
    var h := g.(live := g.live[p := size]);
    if g.Good() {
      ShrinkKeeps(g, p, size);
    }
    if h.Good() {
      ShrinkKeeps(h, p, Align(size));
      assert h.live[p := Align(size)] == g.live;
    }
  }

  lemma HeadShape(chunks: seq<Chunk>)
    requires chunks != []
    ensures Shapes(chunks)[0] == chunks[0].AsShape() && Shapes(chunks)[1..] == Shapes(chunks[1..])
  {
  }

  lemma LinkedHead(c: Chunk?, chunks: seq<Chunk>)
    requires Linked(c, chunks) && c != null
    ensures chunks != [] && c == chunks[0] && Linked(c.next, chunks[1..])
  {
  }

  /** Copying into a range that is apart from every block. */
  lemma CopyKeeps(live: map<nat, nat>, mem: nat -> Byte, dst: nat, src: nat, n: nat, room: nat)
    requires Sizes(live) && src in live && n <= room
    requires forall q :: q in live ==> Apart(q, q + Align(live[q]), dst, dst + room)
    ensures Kept(mem, src, Copied(mem, dst, src, n), dst, n)
    ensures OthersKept(live, mem, Copied(mem, dst, src, n), dst)
  {
    hide Align, Kept, Copied;
    CopyArrives(mem, dst, src, n);
    forall q | q in live && q != dst
      ensures Kept(mem, q, Copied(mem, dst, src, n), q, live[q])
    {
      AlignSmall(live[q]);
      CopySpares(mem, dst, src, n, q, live[q]);
    }
  }

  lemma CopyArrives(mem: nat -> Byte, dst: nat, src: nat, n: nat)
    ensures Kept(mem, src, Copied(mem, dst, src, n), dst, n)
  {
  }

  lemma CopySpares(mem: nat -> Byte, dst: nat, src: nat, n: nat, q: nat, m: nat)
    requires Apart(q, q + m, dst, dst + n)
    ensures Kept(mem, q, Copied(mem, dst, src, n), q, m)
  {
  }

  lemma LinkedEnds(c: Chunk?, chunks: seq<Chunk>)
    requires Linked(c, chunks)
    ensures c == null <==> chunks == []
    ensures c != null ==> c == chunks[0]
  {
  }

  lemma Unmoved(mem: nat -> Byte, p: nat, n: nat)
    ensures Kept(mem, p, mem, p, n)
  {
  }

  lemma KeptLess(was: nat -> Byte, src: nat, now: nat -> Byte, dst: nat, n: nat, m: nat)
    requires Kept(was, src, now, dst, n) && m <= n
    ensures Kept(was, src, now, dst, m)
  {
  }

  lemma NothingMoved(live: map<nat, nat>, mem: nat -> Byte, p: nat)
    ensures OthersKept(live, mem, mem, p)
  {
  }

  lemma LinkedOne(c: Chunk?, chunks: seq<Chunk>)
    requires c == null <==> chunks == []
    requires c != null ==> c.next == null && chunks == [c]
    ensures Linked(c, chunks)
  {
  }
}
