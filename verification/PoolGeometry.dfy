/** The layout of a memory pool (lib/rapidjson/allocators.h): where chunks and blocks lie, as numbers. */
module PoolGeometry {
  import opened Bytes

  /** RAPIDJSON_ALIGN in 64-bit arithmetic: (x + 7) & ~7. */
  function Align(x: nat): nat
    requires x < TWO64
  {
    (x + 7) % TWO64 / 8 * 8
  }

  /** Rounding up works exactly for sizes that leave room for it; the last seven sizes wrap round to zero. */
  lemma AlignRoundsUpIff(x: nat)
    requires x < TWO64
    ensures x <= TWO64 - 8 <==> x <= Align(x)
    ensures x <= TWO64 - 8 ==> Align(x) % 8 == 0 && Align(x) < x + 8
    ensures x > TWO64 - 8 ==> Align(x) == 0
  {
  }

  /** The test for room is done in 64 bits.  It accepts a block that does not fit exactly when rounding the size up or
      adding it to what is in use wraps round. */
  lemma RoomTestWrongIff(used: nat, capacity: nat, size: nat)
    requires used <= capacity < TWO64 && used % 8 == 0 && 0 < size < TWO64
    ensures ((used + Align(size)) % TWO64 <= capacity && !(size <= Align(size) && used + Align(size) <= capacity))
              <==> (size > TWO64 - 8 || used + Align(size) >= TWO64)
  {
    AlignRoundsUpIff(size);
    hide Align;
    SumWraps(used, Align(size));
  }

  lemma SumWraps(a: nat, b: nat)
    requires a < TWO64 && b < TWO64
    ensures (a + b) % TWO64 == if a + b < TWO64 then a + b else a + b - TWO64
  {
  }

  /** The aligned size of a chunk header. */
  const HEADER: nat := 24

  /** The largest size that can be rounded up. */
  const MAX_SIZE: nat := TWO64 - 8

  lemma AlignSmall(x: nat)
    requires x <= MAX_SIZE
    ensures x <= Align(x) < x + 8 && Align(x) % 8 == 0 && Align(x) <= MAX_SIZE
    ensures x > 0 ==> Align(x) >= 8
  {
  }

  lemma AlignTwice(x: nat)
    requires x <= MAX_SIZE
    ensures Align(Align(x)) == Align(x)
  {
  }

  lemma AlignMonotoneInverse(x: nat, y: nat)
    requires x <= MAX_SIZE && y <= MAX_SIZE && Align(x) < Align(y)
    ensures x < y
  {
  }

  /** A chunk: HEADER bytes from addr on, then capacity bytes of payload, size of them in use. */
  datatype Shape = Shape(addr: nat, capacity: nat, size: nat) {
    function Start(): nat {
      addr + HEADER
    }

    function Used(): nat {
      addr + HEADER + size
    }

    function End(): nat {
      addr + HEADER + capacity
    }
  }

  /** Two address ranges have nothing in common. */
  predicate Apart(a: nat, aEnd: nat, b: nat, bEnd: nat) {
    aEnd <= b || bEnd <= a
  }

  predicate ShapesApart(s: Shape, t: Shape) {
    Apart(s.addr, s.End(), t.addr, t.End())
  }

  /** The n bytes at p lie in the used payload of a chunk, at a multiple of eight from its start. */
  predicate Inside(s: Shape, p: nat, n: nat) {
    s.Start() <= p && p + n <= s.Used() && (p - s.addr) % 8 == 0
  }

  predicate BlocksApart(live: map<nat, nat>, p: nat, q: nat)
    requires p in live && q in live && live[p] <= MAX_SIZE && live[q] <= MAX_SIZE
  {
    Apart(p, p + Align(live[p]), q, q + Align(live[q]))
  }

  /** Chunks lie in the address space, apart from each other, and use at most what they have. */
  predicate Regions(shapes: seq<Shape>) {
    && (forall i :: 0 <= i < |shapes| ==>
          shapes[i].size <= shapes[i].capacity && shapes[i].size % 8 == 0 && 0 < shapes[i].addr && shapes[i].End() <= TWO64)
    && (forall i, j :: 0 <= i < j < |shapes| ==> ShapesApart(shapes[i], shapes[j]))
  }

  /** The user's buffer is the last chunk, and the only one that need not be aligned. */
  predicate UserLast(shapes: seq<Shape>, user: nat) {
    && (user != 0 ==> shapes != [] && shapes[|shapes| - 1].addr == user)
    && (forall i :: 0 <= i < |shapes| && shapes[i].addr != user ==> shapes[i].addr % 8 == 0)
    && (forall i :: 0 <= i < |shapes| && shapes[i].addr == user ==> i == |shapes| - 1)
  }

  /** The block lies inside one chunk's used payload. */
  predicate Held(shapes: seq<Shape>, p: nat, n: nat) {
    exists i :: 0 <= i < |shapes| && Inside(shapes[i], p, n)
  }

  ghost predicate AllHeld(shapes: seq<Shape>, live: map<nat, nat>)
    requires Sizes(live)
  {
    forall p :: p in live ==> Held(shapes, p, Align(live[p]))
  }

  predicate Sizes(live: map<nat, nat>) {
    forall p :: p in live ==> 0 < live[p] <= MAX_SIZE
  }

  /** No two blocks overlap. */
  ghost predicate AllApart(live: map<nat, nat>)
    requires Sizes(live)
  {
    forall p, q :: p in live && q in live && p != q ==> BlocksApart(live, p, q)
  }

  /** The chunks, newest first; the address of the user's buffer, 0 for none; and the blocks handed out and not given
      back, with the sizes asked for. */
  datatype Pool = Pool(shapes: seq<Shape>, user: nat, live: map<nat, nat>) {
    ghost predicate Good() {
      Regions(shapes) && UserLast(shapes, user) && Sizes(live) && AllHeld(shapes, live) && AllApart(live)
    }

    /** n bytes of memory, aligned and apart from every chunk. */
    predicate FreshBytes(a: nat, n: nat) {
      && 0 < a && a + n <= TWO64 && n > 0 && a % 8 == 0 && a != user
      && forall i :: 0 <= i < |shapes| ==> Apart(a, a + n, shapes[i].addr, shapes[i].End())
    }

    function Pushed(a: nat, capacity: nat): Pool {
      this.(shapes := [Shape(a, capacity, 0)] + shapes)
    }

    /** The head chunk's use grows by n bytes. */
    function Bumped(n: nat): Pool
      requires shapes != []
    {
      this.(shapes := Grown(shapes, n))
    }

    /** The chunks that came from the base allocator. */
    function Owned(): seq<Shape> {
      if user != 0 && shapes != [] then shapes[..|shapes| - 1] else shapes
    }

    /** What is left once those are gone: the user's buffer, empty. */
    function Cleared(): seq<Shape> {
      if user != 0 && shapes != [] then [shapes[|shapes| - 1].(size := 0)] else []
    }

    predicate Room(n: nat) {
      shapes != [] && shapes[0].size + n <= shapes[0].capacity
    }
  }

  function Grown(shapes: seq<Shape>, n: nat): seq<Shape>
    requires shapes != []
  {
    shapes[0 := shapes[0].(size := shapes[0].size + n)]
  }

  /** The same in 64 bits. */
  function GrownWrapping(shapes: seq<Shape>, n: nat): seq<Shape>
    requires shapes != []
  {
    shapes[0 := shapes[0].(size := (shapes[0].size + n) % TWO64)]
  }

  lemma PushKeepsRegions(shapes: seq<Shape>, user: nat, s: Shape)
    requires Regions(shapes) && UserLast(shapes, user)
    requires s.size <= s.capacity && s.size % 8 == 0 && s.addr > 0 && s.End() <= TWO64
    requires s.addr % 8 == 0 && s.addr != user
    requires forall i :: 0 <= i < |shapes| ==> ShapesApart(s, shapes[i])
    ensures Regions([s] + shapes) && UserLast([s] + shapes, user)
  {
    var t := [s] + shapes;
    forall i | 1 <= i < |t|
      ensures t[i] == shapes[i - 1]
    {
    }
    forall i, j | 0 <= i < j < |t|
      ensures ShapesApart(t[i], t[j])
    {
      if i > 0 {
        assert ShapesApart(shapes[i - 1], shapes[j - 1]);
      }
    }
  }

  lemma HeldInLonger(shapes: seq<Shape>, s: Shape, p: nat, n: nat)
    requires Held(shapes, p, n)
    ensures Held([s] + shapes, p, n)
  {
    var i :| 0 <= i < |shapes| && Inside(shapes[i], p, n);
    assert ([s] + shapes)[i + 1] == shapes[i];
  }

  lemma PushKeeps(g: Pool, a: nat, capacity: nat)
    requires g.Good() && g.FreshBytes(a, HEADER + capacity)
    ensures g.Pushed(a, capacity).Good()
  {
    hide Align, Regions, UserLast, AllApart, Held;
    var s := Shape(a, capacity, 0);
    PushKeepsRegions(g.shapes, g.user, s);
    forall p | p in g.live
      ensures Held([s] + g.shapes, p, Align(g.live[p]))
    {
      HeldInLonger(g.shapes, s, p, Align(g.live[p]));
    }
  }

  lemma GrownKeepsRegions(shapes: seq<Shape>, user: nat, n: nat)
    requires Regions(shapes) && UserLast(shapes, user) && shapes != []
    requires shapes[0].size + n <= shapes[0].capacity && n % 8 == 0
    ensures Regions(Grown(shapes, n)) && UserLast(Grown(shapes, n), user)
  {
    var t := Grown(shapes, n);
    forall i, j | 0 <= i < j < |t|
      ensures ShapesApart(t[i], t[j])
    {
      assert ShapesApart(shapes[i], shapes[j]);
    }
  }

  lemma HeldInGrown(shapes: seq<Shape>, k: nat, p: nat, n: nat)
    requires shapes != [] && Held(shapes, p, n)
    ensures Held(Grown(shapes, k), p, n)
  {
    var i :| 0 <= i < |shapes| && Inside(shapes[i], p, n);
    assert Inside(Grown(shapes, k)[i], p, n);
  }

  lemma BumpKeeps(g: Pool, n: nat)
    requires g.Good() && g.Room(n) && n % 8 == 0
    ensures g.Bumped(n).Good()
  {
    hide Align, Regions, UserLast, AllApart, Held, Grown;
    GrownKeepsRegions(g.shapes, g.user, n);
    forall p | p in g.live
      ensures Held(Grown(g.shapes, n), p, Align(g.live[p]))
    {
      HeldInGrown(g.shapes, n, p, Align(g.live[p]));
    }
  }

  /** A block, being nonempty, lies in one chunk only. */
  lemma InOneChunk(g: Pool, i: nat, j: nat, p: nat, n: nat)
    requires g.Good() && i < |g.shapes| && j < |g.shapes| && n > 0
    requires Inside(g.shapes[i], p, n)
    requires g.shapes[j].addr < p + n <= g.shapes[j].End()
    ensures i == j
  {
    assert i < j ==> ShapesApart(g.shapes[i], g.shapes[j]);
    assert j < i ==> ShapesApart(g.shapes[j], g.shapes[i]);
  }

  /** Everything at and behind the used end of the head chunk is free. */
  lemma BehindHeadIsFree(g: Pool, p: nat, n: nat)
    requires g.Good() && g.Room(n) && p in g.live
    ensures Apart(p, p + Align(g.live[p]), g.shapes[0].Used(), g.shapes[0].Used() + n)
    ensures p != g.shapes[0].Used()
  {
    AlignSmall(g.live[p]);
    var m := Align(g.live[p]);
    var i :| 0 <= i < |g.shapes| && Inside(g.shapes[i], p, m);
    if i != 0 {
      assert ShapesApart(g.shapes[0], g.shapes[i]);
    }
  }

  /** Carving a new block off the head chunk. */
  lemma CarveKeeps(g: Pool, size: nat)
    requires g.Good() && 0 < size <= MAX_SIZE && g.Room(Align(size))
    ensures var p := g.shapes[0].Used();
            p !in g.live && g.Bumped(Align(size)).(live := g.live[p := size]).Good()
  {
    hide Regions, UserLast, Align, Held, Inside;
    var p, n := g.shapes[0].Used(), Align(size);
    AlignSmall(size);
    BumpKeeps(g, n);
    forall q | q in g.live
      ensures q != p && Apart(q, q + Align(g.live[q]), p, p + n)
    {
      BehindHeadIsFree(g, q, n);
    }
    HeadHolds(g.shapes, n);
    AddBlock(g.Bumped(n), p, size);
  }

  /** The newly used part of the head chunk holds a block. */
  lemma HeadHolds(shapes: seq<Shape>, n: nat)
    requires Regions(shapes) && shapes != []
    ensures Held(Grown(shapes, n), shapes[0].Used(), n)
  {
    assert Inside(Grown(shapes, n)[0], shapes[0].Used(), n);
  }

  lemma AddBlock(b: Pool, p: nat, size: nat)
    requires b.Good() && 0 < size <= MAX_SIZE && Held(b.shapes, p, Align(size))
    requires forall q :: q in b.live && q != p ==> Apart(q, q + Align(b.live[q]), p, p + Align(size))
    ensures b.(live := b.live[p := size]).Good()
  {
    hide Regions, UserLast, Align, Held;
    var live := b.live[p := size];
    forall q, r | q in live && r in live && q != r
      ensures BlocksApart(live, q, r)
    {
      if q != p && r != p {
        assert BlocksApart(b.live, q, r);
      }
    }
  }

  /** Forgetting a block. */
  lemma DropKeeps(g: Pool, p: nat)
    requires g.Good()
    ensures g.(live := g.live - {p}).Good()
  {
    hide Regions, UserLast, Align, Held;
    var live := g.live - {p};
    forall q, r | q in live && r in live && q != r
      ensures BlocksApart(live, q, r)
    {
      assert BlocksApart(g.live, q, r);
    }
  }

  lemma HeldShorter(shapes: seq<Shape>, p: nat, n: nat, m: nat)
    requires Held(shapes, p, n) && m <= n
    ensures Held(shapes, p, m)
  {
    var i :| 0 <= i < |shapes| && Inside(shapes[i], p, n);
    assert Inside(shapes[i], p, m);
  }

  /** A block that takes no more room than before stays where it is. */
  lemma ShrinkKeeps(g: Pool, p: nat, size: nat)
    requires g.Good() && p in g.live && 0 < size <= MAX_SIZE && Align(size) <= Align(g.live[p])
    ensures g.(live := g.live[p := size]).Good()
  {
    hide Regions, UserLast, Align, Held;
    HeldShorter(g.shapes, p, Align(g.live[p]), Align(size));
    forall q | q in g.live && q != p
      ensures Apart(q, q + Align(g.live[q]), p, p + Align(size))
    {
      assert BlocksApart(g.live, q, p);
    }
    AddBlock(g, p, size);
  }

  /** A block that ends where the used part of the head chunk ends is in the head chunk and can grow in place. */
  lemma ExtendKeeps(g: Pool, p: nat, size: nat)
    requires g.Good() && p in g.live && g.live[p] <= size <= MAX_SIZE && g.shapes != []
    requires p + Align(g.live[p]) == g.shapes[0].Used()
    requires Align(g.live[p]) <= Align(size) && g.Room(Align(size) - Align(g.live[p]))
    ensures g.Bumped(Align(size) - Align(g.live[p])).(live := g.live[p := size]).Good()
  {
    hide UserLast, Align, Held, Regions;
    AlignSmall(size);
    AlignSmall(g.live[p]);
    var k := Align(size) - Align(g.live[p]);
    BumpKeeps(g, k);
    LastBlockGrows(g, p, Align(g.live[p]), k);
    forall q | q in g.live && q != p
      ensures Apart(q, q + Align(g.live[q]), p, p + Align(size))
    {
      BehindHeadIsFree(g, q, k);
      assert BlocksApart(g.live, p, q);
      AlignSmall(g.live[q]);
    }
    AddBlock(g.Bumped(k), p, size);
  }

  lemma LastBlockGrows(g: Pool, p: nat, m: nat, k: nat)
    requires g.Good() && g.shapes != [] && Held(g.shapes, p, m) && m > 0 && p + m == g.shapes[0].Used()
    ensures Held(Grown(g.shapes, k), p, m + k)
  {
    hide Align, AllHeld, AllApart;
    var i :| 0 <= i < |g.shapes| && Inside(g.shapes[i], p, m);
    InOneChunk(g, i, 0, p, m);
    assert Inside(Grown(g.shapes, k)[0], p, m + k);
  }

  /** Blocks are aligned as the chunk they lie in: all of them when the user's buffer is. */
  lemma BlocksAligned(g: Pool, p: nat)
    requires g.Good() && p in g.live && g.user % 8 == 0
    ensures p % 8 == 0
  {
    hide Align, AllApart, UserLast;
    var i :| 0 <= i < |g.shapes| && Inside(g.shapes[i], p, Align(g.live[p]));
    ChunkAligned(g.shapes, g.user, i);
    SumAligned(g.shapes[i].addr, p - g.shapes[i].addr);
  }

  lemma ChunkAligned(shapes: seq<Shape>, user: nat, i: nat)
    requires UserLast(shapes, user) && user % 8 == 0 && i < |shapes|
    ensures shapes[i].addr % 8 == 0
  {
  }

  lemma SumAligned(a: nat, b: nat)
    requires a % 8 == 0 && b % 8 == 0
    ensures (a + b) % 8 == 0
  {
  }

  lemma SomeChunk(g: Pool, p: nat)
    requires g.Good() && p in g.live
    ensures g.shapes != []
  {
    assert Held(g.shapes, p, Align(g.live[p]));
  }

  function Addresses(shapes: seq<Shape>): (r: seq<nat>)
    ensures |r| == |shapes|
  {
    seq(|shapes|, i requires 0 <= i < |shapes| => shapes[i].addr)
  }

  lemma AddressesAppend(shapes: seq<Shape>, s: Shape)
    ensures Addresses(shapes + [s]) == Addresses(shapes) + [s.addr]
  {
  }

  /** Where a walk that frees chunks up to the user's buffer ends. */
  lemma ClearedEnd(g: Pool, k: nat, atEnd: bool)
    requires g.Good() && k <= |g.shapes|
    requires atEnd ==> k == |g.shapes|
    requires !atEnd ==> k < |g.shapes| && g.shapes[k].addr == g.user
    requires g.user !in Addresses(g.shapes[..k])
    ensures g.shapes[..k] == g.Owned()
    ensures !atEnd ==> g.user != 0 && k == |g.shapes| - 1
    ensures atEnd ==> g.Cleared() == []
    ensures Regions(g.Cleared()) && UserLast(g.Cleared(), g.user)
  {
    assert g.shapes[..|g.shapes|] == g.shapes;
    assert g.user != 0 ==> Addresses(g.shapes)[|g.shapes| - 1] == g.user;
  }

  lemma EmptyGood(shapes: seq<Shape>, user: nat)
    requires Regions(shapes) && UserLast(shapes, user)
    ensures Pool(shapes, user, map[]).Good()
  {
  }

  /** A block from the head chunk that reaches beyond its end lies in no chunk, whatever use the head chunk shows. */
  lemma BeyondTheEnd(g: Pool, p: nat, n: nat, k: nat)
    requires g.Good() && g.shapes != [] && k <= g.shapes[0].capacity && n > 0
    requires g.shapes[0].Start() <= p <= g.shapes[0].End() < p + n
    ensures !Held(g.shapes[0 := g.shapes[0].(size := k)], p, n)
  {
    var t := g.shapes[0 := g.shapes[0].(size := k)];
    forall i | 0 <= i < |t|
      ensures !Inside(t[i], p, n)
    {
      assert i > 0 ==> ShapesApart(g.shapes[0], g.shapes[i]);
    }
  }

  /** A block that Malloc hands out although it does not fit breaks the pool. */
  lemma MisfitBreaks(g: Pool, size: nat)
    requires g.shapes != [] && 0 < size < TWO64
    requires size > MAX_SIZE || g.shapes[0].End() > TWO64
             || (g.Good() && g.shapes[0].size + Align(size) >= TWO64)
    ensures !Pool(GrownWrapping(g.shapes, Align(size)), g.user, g.live[g.shapes[0].Used() := size]).Good()
  {
    hide Align, Held, AllApart;
    var t, p := GrownWrapping(g.shapes, Align(size)), g.shapes[0].Used();
    var live := g.live[p := size];
    assert t[0].End() == g.shapes[0].End();
    assert p in live && live[p] == size;
    if size <= MAX_SIZE && g.shapes[0].End() <= TWO64 {
      AlignSmall(size);
      SumWraps(g.shapes[0].size, Align(size));
      BeyondTheEnd(g, p, Align(size), t[0].size);
      assert !Held(t, p, Align(live[p]));
    }
  }

  /** So does a block that grows in place although there is no room for it. */
  lemma MisgrowthBreaks(g: Pool, p: nat, size: nat)
    requires g.Good() && p in g.live && g.shapes != [] && 0 < size <= MAX_SIZE
    requires p + Align(g.live[p]) == g.shapes[0].Used() && Align(g.live[p]) < Align(size)
    requires g.shapes[0].size + Align(size) - Align(g.live[p]) >= TWO64
    ensures var k := Align(size) - Align(g.live[p]);
            !Pool(GrownWrapping(g.shapes, k), g.user, g.live[p := size]).Good()
  {
    hide Align, Held, AllApart;
    AlignSmall(size);
    AlignSmall(g.live[p]);
    var k := Align(size) - Align(g.live[p]);
    LastBlockInHead(g, p);
    SumWraps(g.shapes[0].size, k);
    var t, live := GrownWrapping(g.shapes, k), g.live[p := size];
    BeyondTheEnd(g, p, Align(size), t[0].size);
    assert p in live && !Held(t, p, Align(live[p]));
  }

  lemma LastBlockInHead(g: Pool, p: nat)
    requires g.Good() && p in g.live && g.shapes != [] && p + Align(g.live[p]) == g.shapes[0].Used()
    ensures g.shapes[0].Start() <= p < g.shapes[0].Used()
  {
    hide Align, AllApart;
    AlignSmall(g.live[p]);
    var i :| 0 <= i < |g.shapes| && Inside(g.shapes[i], p, Align(g.live[p]));
    InOneChunk(g, i, 0, p, Align(g.live[p]));
  }
}
