/** The calls of the kernel's block allocator (proj-pregame/src/threads/malloc.c) and the bytes that they touch. The
    allocator keeps its links inside free blocks and its counts at the start of arenas, and fills freed memory with
    0xcc; none of that may reach a block that a caller holds. */
module Allocator {
  import opened Basics
  import opened Pigeonhole
  import opened Malloc

  /* ---- Where blocks are ---- */

  ghost predicate Known(st: State, b: Block) {
    b.page in st.arenas && (st.arenas[b.page].Small? ==> st.arenas[b.page].desc < DESCS)
  }

  /** The first byte of a block, and the first behind it. */
  function Begin(st: State, b: Block): nat
    requires Known(st, b)
  {
    match st.arenas[b.page]
    case Small(k, _) => Address(b, k)
    case Big(_) => b.page * PGSIZE + ARENA
  }

  function End(st: State, b: Block): nat
    requires Known(st, b)
  {
    match st.arenas[b.page]
    case Small(k, _) => Address(b, k) + BlockSize(k)
    case Big(pages) => (b.page + pages) * PGSIZE
  }

  /** The number of pages of an arena. */
  function Pages(arena: Arena): nat { if arena.Small? then 1 else arena.pages }

  /** There is such a block in its arena, free or not. */
  ghost predicate IsBlock(st: State, b: Block) {
    Known(st, b) &&
    match st.arenas[b.page]
    case Small(k, _) => b.idx < PerArena(k)
    case Big(pages) => b.idx == 0 && 0 < pages
  }

  /** A block lies on the pages of its arena, behind the header. */
  lemma BlockInside(st: State, b: Block)
    requires IsBlock(st, b)
    ensures b.page * PGSIZE + ARENA <= Begin(st, b) < End(st, b) <= (b.page + Pages(st.arenas[b.page])) * PGSIZE
  {
    match st.arenas[b.page]
    case Small(k, _) => BlockInPage(b.idx, k); SizePositive(k);
    case Big(_) =>
  }

  lemma SizePositive(k: nat)
    requires k < DESCS
    ensures 16 <= BlockSize(k)
  {
    BlockSizes();
  }

  lemma {:induction false} Multiples(i: nat, j: nat, s: nat)
    requires i < j
    ensures i * s + s <= j * s
  {
    if i < j - 1 {
      Multiples(i, j - 1, s);
    }
  }

  lemma LiveIsBlock(st: State, b: Block)
    requires Core(st) && b in st.live
    ensures IsBlock(st, b)
  {
    assert LiveOk(st, b) && ArenaOk(st, b.page);
  }

  lemma FreeIsBlock(st: State, k: nat, b: Block)
    requires Core(st) && k < DESCS && b in st.free[k]
    ensures IsBlock(st, b) && st.arenas[b.page].Small? && st.arenas[b.page].desc == k && b !in st.live
  {
    assert ListOk(st, k);
    var i :| 0 <= i < |st.free[k]| && st.free[k][i] == b;
    assert FreeOk(st, k, st.free[k][i]);
  }

  lemma ArenasApart(st: State, a: nat, c: nat)
    requires Core(st) && a in st.arenas && c in st.arenas && a < c
    ensures a + Pages(st.arenas[a]) <= c
  {
    assert Apart(st, a, c) && ArenaOk(st, c);
    assert InArena(c, st.arenas[c], c);
    assert !InArena(a, st.arenas[a], c);
  }

  /** Two blocks never overlap, whether callers hold them or not. */
  lemma BlocksAreDisjoint(st: State, b: Block, c: Block)
    requires Core(st) && IsBlock(st, b) && IsBlock(st, c) && b != c
    ensures End(st, b) <= Begin(st, c) || End(st, c) <= Begin(st, b)
  {
    BlockInside(st, b);
    BlockInside(st, c);
    if b.page == c.page {
      var k := st.arenas[b.page].desc;
      if b.idx < c.idx { Multiples(b.idx, c.idx, BlockSize(k)); } else { Multiples(c.idx, b.idx, BlockSize(k)); }
    } else if b.page < c.page {
      ArenasApart(st, b.page, c.page);
    } else {
      ArenasApart(st, c.page, b.page);
    }
  }

  /** A block that a caller holds is as big as was asked for, exactly if the request was below `TOO_BIG`. */
  lemma BlockFits(st: State, b: Block)
    requires Core(st) && b in st.live && st.live[b] < WRAP
    ensures IsBlock(st, b) && (st.live[b] <= End(st, b) - Begin(st, b) <==> st.live[b] < TOO_BIG)
  {
    assert LiveOk(st, b);
    LiveIsBlock(st, b);
    match st.arenas[b.page]
    case Small(k, _) => BlockInPage(b.idx, k);
    case Big(_) => BigFitsIff(st.live[b]);
  }

  /* ---- Stores ---- */

  /** The contents of memory. */
  type Memory = int -> int

  /** Memory after the bytes from `begin` to `end` were set to those of `v`. */
  function Put(m: Memory, begin: int, end: int, v: Memory): Memory {
    (x: int) => if begin <= x < end then v(x) else m(x)
  }

  /** Byte `x` belongs to block `b`, which a caller holds. */
  ghost predicate Holds(st: State, b: Block, x: int) {
    b in st.live && Known(st, b) && Begin(st, b) <= x < End(st, b)
  }

  /** No byte from `begin` to `end` belongs to a caller. */
  ghost predicate Misses(st: State, begin: int, end: int) {
    forall b, x :: Holds(st, b, x) ==> !(begin <= x < end)
  }

  /** Callers find their bytes unchanged. */
  ghost predicate Spares(st: State, m: Memory, m': Memory) {
    forall b, x :: Holds(st, b, x) ==> m(x) == m'(x)
  }

  lemma PutSpares(st: State, m: Memory, m': Memory, begin: int, end: int, v: Memory)
    requires Spares(st, m, m') && Misses(st, begin, end)
    ensures Spares(st, m, Put(m', begin, end, v))
  {
  }

  lemma HeaderMisses(st: State, a: nat)
    requires Core(st) && a in st.arenas
    ensures Misses(st, a * PGSIZE, a * PGSIZE + ARENA)
  {
    forall b, x | Holds(st, b, x) ensures !(a * PGSIZE <= x < a * PGSIZE + ARENA) {
      LiveIsBlock(st, b);
      BlockInside(st, b);
      if b.page < a {
        ArenasApart(st, b.page, a);
      }
    }
  }

  lemma FreeMisses(st: State, k: nat, f: Block)
    requires Core(st) && k < DESCS && f in st.free[k]
    ensures Misses(st, Address(f, k), Address(f, k) + BlockSize(k))
  {
    FreeIsBlock(st, k, f);
    forall b, x | Holds(st, b, x) ensures !(Address(f, k) <= x < Address(f, k) + BlockSize(k)) {
      LiveIsBlock(st, b);
      BlocksAreDisjoint(st, b, f);
    }
  }

  lemma UnusedMisses(st: State, page: nat, n: nat)
    requires Core(st) && (forall p: nat :: page <= p < page + n ==> p !in st.used)
    ensures Misses(st, page * PGSIZE, (page + n) * PGSIZE)
  {
    forall b, x | Holds(st, b, x) ensures !(page * PGSIZE <= x < (page + n) * PGSIZE) {
      LiveIsBlock(st, b);
      BlockInside(st, b);
      assert ArenaOk(st, b.page);
      PageOfByte(b.page, Pages(st.arenas[b.page]), x);
      assert InArena(b.page, st.arenas[b.page], x / PGSIZE);
      if page * PGSIZE <= x < (page + n) * PGSIZE {
        PageOfByte(page, n, x);
      }
    }
  }

  lemma PageOfByte(page: nat, n: nat, x: int)
    requires page * PGSIZE <= x < (page + n) * PGSIZE
    ensures page <= x / PGSIZE < page + n
  {
  }

  /* ---- Links in free blocks ---- */

  /** One of the two pointers of the `list_elem` at the start of a block: `prev` is field 0, `next` is field 1. */
  function Link(m: Memory, b: Block, k: nat, field: nat, v: Memory): Memory
    requires k < DESCS
  {
    Put(m, Address(b, k) + 4 * field, Address(b, k) + 4 * field + 4, v)
  }

  lemma LinkSpares(st: State, m: Memory, m': Memory, b: Block, k: nat, field: nat, v: Memory)
    requires Core(st) && k < DESCS && b in st.free[k] && field < 2 && Spares(st, m, m')
    ensures Spares(st, m, Link(m', b, k, field, v))
  {
    FreeMisses(st, k, b);
    SizePositive(k);
    PutSpares(st, m, m', Address(b, k) + 4 * field, Address(b, k) + 4 * field + 4, v);
  }

  /** `list_insert` of `b` before position `p`: its own links and those of its neighbours. (The ends of the list are not
      in blocks.) */
  ghost function Inserted(m: Memory, list: seq<Block>, p: nat, b: Block, k: nat, v: Memory): Memory
    requires k < DESCS && p <= |list|
  {
    var m1 := Link(Link(m, b, k, 0, v), b, k, 1, v);
    var m2 := if p > 0 then Link(m1, list[p - 1], k, 1, v) else m1;
    if p < |list| then Link(m2, list[p], k, 0, v) else m2
  }

  /** `list_remove` of the element at position `p`: the links of its neighbours. */
  ghost function Unlinked(m: Memory, list: seq<Block>, p: nat, k: nat, v: Memory): Memory
    requires k < DESCS && p < |list|
  {
    var m1 := if p > 0 then Link(m, list[p - 1], k, 1, v) else m;
    if p + 1 < |list| then Link(m1, list[p + 1], k, 0, v) else m1
  }

  ghost predicate OnList(st: State, list: seq<Block>, k: nat)
    requires k < DESCS == |st.free|
  {
    forall i :: 0 <= i < |list| ==> list[i] in st.free[k]
  }

  lemma InsertedSpares(st: State, m: Memory, m': Memory, list: seq<Block>, p: nat, b: Block, k: nat, v: Memory)
    requires Core(st) && k < DESCS && p <= |list| && OnList(st, list, k) && b in st.free[k] && Spares(st, m, m')
    ensures Spares(st, m, Inserted(m', list, p, b, k, v))
  {
    var m0 := Link(m', b, k, 0, v);
    LinkSpares(st, m, m', b, k, 0, v);
    LinkSpares(st, m, m0, b, k, 1, v);
    var m1 := Link(m0, b, k, 1, v);
    if p > 0 { LinkSpares(st, m, m1, list[p - 1], k, 1, v); }
    var m2 := if p > 0 then Link(m1, list[p - 1], k, 1, v) else m1;
    if p < |list| { LinkSpares(st, m, m2, list[p], k, 0, v); }
  }

  lemma UnlinkedSpares(st: State, m: Memory, m': Memory, list: seq<Block>, p: nat, k: nat, v: Memory)
    requires Core(st) && k < DESCS && p < |list| && OnList(st, list, k) && Spares(st, m, m')
    ensures Spares(st, m, Unlinked(m', list, p, k, v))
  {
    if p > 0 { LinkSpares(st, m, m', list[p - 1], k, 1, v); }
    var m1 := if p > 0 then Link(m', list[p - 1], k, 1, v) else m';
    if p + 1 < |list| { LinkSpares(st, m, m1, list[p + 1], k, 0, v); }
  }

  /** The header of an arena. */
  function Header(m: Memory, a: nat, v: Memory): Memory { Put(m, a * PGSIZE, a * PGSIZE + ARENA, v) }

  lemma HeaderSpares(st: State, m: Memory, m': Memory, a: nat, v: Memory)
    requires Core(st) && a in st.arenas && Spares(st, m, m')
    ensures Spares(st, m, Header(m', a, v))
  {
    HeaderMisses(st, a);
    PutSpares(st, m, m', a * PGSIZE, a * PGSIZE + ARENA, v);
  }

  /** What freed memory is filled with. */
  const POISON: Memory := (x: int) => 0xCC

  /** What `free` stores when it takes back block `b`: the fill, the links at the front of the list, the count. */
  ghost function Pushed(m: Memory, list: seq<Block>, b: Block, k: nat, v: Memory): Memory
    requires k < DESCS
  {
    Header(Inserted(Put(m, Address(b, k), Address(b, k) + BlockSize(k), POISON), list, 0, b, k, v), b.page, v)
  }

  lemma PushedSpares(st: State, m: Memory, list: seq<Block>, b: Block, k: nat, v: Memory)
    requires Core(st) && k < DESCS && OnList(st, list, k) && b in st.free[k]
    ensures Spares(st, m, Pushed(m, list, b, k, v))
  {
    var m1 := Put(m, Address(b, k), Address(b, k) + BlockSize(k), POISON);
    FreeMisses(st, k, b);
    PutSpares(st, m, m, Address(b, k), Address(b, k) + BlockSize(k), POISON);
    InsertedSpares(st, m, m1, list, 0, b, k, v);
    FreeIsBlock(st, k, b);
    HeaderSpares(st, m, Inserted(m1, list, 0, b, k, v), b.page, v);
  }

  /** Blocks that are held in both states are in the same place. */
  ghost predicate SamePlaces(st: State, st': State) {
    forall b :: b in st.live && b in st'.live ==>
      Known(st, b) && Known(st', b) && Begin(st, b) == Begin(st', b) && End(st, b) == End(st', b)
  }

  lemma SparesElsewhere(st: State, st': State, m: Memory, m': Memory)
    requires Spares(st, m, m') && SamePlaces(st, st') && (forall b :: b in st'.live ==> b in st.live)
    ensures Spares(st', m, m')
  {
    forall b, x | Holds(st', b, x) ensures m(x) == m'(x) { assert Holds(st, b, x); }
  }

  /** Two stretches in a row. */
  lemma SparesTwice(st: State, st1: State, st2: State, m: Memory, m1: Memory, m2: Memory)
    requires SamePlaces(st, st1) && SamePlaces(st1, st2) && st.live == st1.live
    requires Spares(st, m, m1) && Spares(st1, m1, m2)
    ensures SamePlaces(st, st2) && Spares(st, m, m2)
  {
    forall b, x | Holds(st, b, x) ensures m(x) == m2(x) { assert Holds(st1, b, x); }
  }

  lemma SparesAfter(st: State, st1: State, st2: State, m: Memory, m1: Memory, m2: Memory)
    requires SamePlaces(st, st1) && SamePlaces(st1, st2) && st1.live == st2.live
             && (forall b :: b in st1.live ==> b in st.live)
    requires Spares(st1, m, m1) && Spares(st2, m1, m2)
    ensures SamePlaces(st, st2) && Spares(st2, m, m2)
  {
    forall b, x | Holds(st2, b, x) ensures m(x) == m2(x) { assert Holds(st1, b, x); }
  }

  ghost predicate SameShape(a: Arena, b: Arena) {
    if a.Small? then b.Small? && a.desc == b.desc else b == a
  }

  lemma Places(st: State, st': State)
    requires Core(st) && Core(st')
             && (forall a :: a in st.arenas && a in st'.arenas ==> SameShape(st.arenas[a], st'.arenas[a]))
    ensures SamePlaces(st, st')
  {
    forall b | b in st.live && b in st'.live
      ensures Known(st, b) && Known(st', b) && Begin(st, b) == Begin(st', b) && End(st, b) == End(st', b)
    {
      LiveIsBlock(st, b);
      LiveIsBlock(st', b);
    }
  }

  lemma {:induction false} NotBelowIn(list: seq<Block>, a: nat, n: nat, b: Block)
    ensures b in NotBelow(list, a, n) <==> b in list && !(b.page == a && b.idx < n)
  {
    if list != [] {
      NotBelowIn(list[1..], a, n, b);
      assert list == [list[0]] + list[1..];
    }
  }

  lemma FrontInArena(st: State, k: nat)
    requires Core(st) && k < DESCS && st.free[k] != []
    ensures st.free[k][0].page in st.arenas
  {
    FreeIsBlock(st, k, st.free[k][0]);
  }

  lemma ReleasedSpares(st: State, a: nat, m: Memory, m': Memory)
    requires Core(st) && a in st.arenas && st.arenas[a].Small? && st.arenas[a].desc < DESCS && Core(Release(st, a))
    requires Spares(st, m, m')
    ensures SamePlaces(st, Release(st, a)) && Spares(Release(st, a), m, Put(m', a * PGSIZE, (a + 1) * PGSIZE, POISON))
  {
    var st1 := Release(st, a);
    Places(st, st1);
    SparesElsewhere(st, st1, m, m');
    UnusedMisses(st1, a, 1);
    PutSpares(st1, m, m', a * PGSIZE, (a + 1) * PGSIZE, POISON);
  }

  /* ---- Calls ---- */

  /** Memory is available: a free block of the descriptor that serves the size, a page for a new arena, or pages for a
      big block. */
  ghost predicate Available(st: State, size: nat, page: Option<nat>, pages: Option<nat>) {
    if size > 1024 then pages.Some? && BigPages(size) > 0
    else size > 0 && exists k: nat :: Serving(size, k) && (page.Some? || (k < |st.free| && st.free[k] != []))
  }

  lemma AvailableSmall(st: State, size: nat, k: nat, page: Option<nat>, pages: Option<nat>)
    requires size > 0 && Serving(size, k) && |st.free| == DESCS
    ensures Available(st, size, page, pages) <==> page.Some? || st.free[k] != []
  {
    ServingIsOne(size, k, k);
    if Available(st, size, page, pages) {
      var j: nat :| Serving(size, j) && (page.Some? || (j < |st.free| && st.free[j] != []));
      ServingIsOne(size, k, j);
    }
  }


  class Heap {
    var free: seq<seq<Block>>
    var arenas: map<nat, Arena>
    var used: set<nat>
    /** Auxiliary: who holds what, and the bytes of memory. */
    ghost var live: map<Block, nat>
    ghost var mem: Memory

    ghost function St(): State
      reads this
    {
      State(free, arenas, used, live)
    }

    constructor (used: set<nat>)
      ensures Inv(St()) && live == map[]
    {
      this.used := used;
      free := [[], [], [], [], [], [], []];
      arenas := map[];
      live := map[];
      new;
      EmptyInv(used);
    }

    /** `malloc`. `page` and `pages` are what `palloc_get_page` and `palloc_get_multiple` would return, and `v`
        gives the bytes of the links and headers that are stored. Exactly if memory is available, a caller gets a
        block that nobody holds, and no byte of a block that somebody holds changes; otherwise nothing changes. */
    method Malloc(size: nat, page: Option<nat>, pages: Option<nat>, ghost v: Memory) returns (r: Option<Block>)
      requires Inv(St()) && size < WRAP && (page.Some? ==> page.value !in used)
      requires pages.Some? ==> PageRange(pages.value, BigPages(size)) !! used
      modifies this
      ensures Inv(St()) && SamePlaces(old(St()), St()) && Spares(old(St()), old(mem), mem)
      ensures r.None? ==> St() == old(St()) && mem == old(mem)
      ensures r.Some? ==> r.value !in old(live) && live == old(live)[r.value := size]
      ensures r.Some? ==> r.value.page in arenas
      ensures r.Some? ==> used == if r.value.page in old(arenas) then old(used)
                                  else old(used) + ArenaPages(r.value.page, arenas[r.value.page])
      ensures r.Some? <==> Available(old(St()), size, page, pages)
    {
      ghost var st := St();
      if size == 0 {
        Places(st, st);
        return None;
      }
      var k := FindDesc(size);
      if k < DESCS {
        AvailableSmall(st, size, k, page, pages);
      }
      if k == DESCS {
        r := MallocBig(size, pages, v);
      } else {
        r := MallocSmall(k, size, page, v);
      }
    }

    /** Lines 115-141. */
    method MallocSmall(k: nat, size: nat, page: Option<nat>, ghost v: Memory) returns (r: Option<Block>)
      requires Inv(St()) && k < DESCS && size <= BlockSize(k) && (page.Some? ==> page.value !in used)
      modifies this
      ensures Inv(St()) && SamePlaces(old(St()), St()) && Spares(old(St()), old(mem), mem)
      ensures r.None? ==> St() == old(St()) && mem == old(mem)
      ensures r.Some? ==> r.value !in old(live) && live == old(live)[r.value := size] && r.value.page in arenas
      ensures r.Some? ==> used == if r.value.page in old(arenas) then old(used) else old(used) + {r.value.page}
      ensures r.Some? ==> arenas[r.value.page].Small?
      ensures r.None? <==> old(free)[k] == [] && page.None?
    {
      if free[k] != [] {
        FrontInArena(St(), k);
        r := TakeFront(k, size, v);
      } else if page.None? {
        Places(St(), St());
        r := None;
      } else {
        UnusedPage(St(), page.value);
        InitArena(k, page.value, v);
        ghost var st1, m1 := St(), mem;
        r := TakeFront(k, size, v);
        SparesTwice(old(St()), st1, St(), old(mem), m1, mem);
      }
    }

    /** Lines 126-133: the header of a new arena, and its blocks one by one. */
    method InitArena(k: nat, page: nat, ghost v: Memory)
      requires Inv(St()) && k < DESCS && free[k] == [] && page !in used
      modifies this
      ensures St() == NewArena(old(St()), k, page) && Core(St()) && SamePlaces(old(St()), St())
      ensures free[k] != [] && free[k][0] == Block(page, 0) && (forall a :: a in arenas && a != page ==> Busy(St(), a))
      ensures Spares(old(St()), old(mem), mem)
    {
      ghost var st, st1 := St(), NewArena(St(), k, page);
      NewArenaCore(st, k, page);
      NewArenaFront(st, k, page);
      UnusedPage(st, page);
      Places(st, st1);
      HeaderSpares(st1, mem, mem, page, v);
      mem := Header(mem, page, v);
      var list := FillList(k, page, v, st1, old(mem));
      free := free[k := list];
      arenas := arenas[page := Small(k, PerArena(k))];
      used := used + {page};
      assert SamePlaces(st1, st);
      SparesElsewhere(st1, st, old(mem), mem);
    }

    /** Lines 130-133. */
    method FillList(k: nat, page: nat, ghost v: Memory, ghost st: State, ghost m: Memory) returns (list: seq<Block>)
      requires Core(st) && k < DESCS && st.free[k] == Blocks(page, PerArena(k)) && Spares(st, m, mem)
      modifies this`mem
      ensures list == Blocks(page, PerArena(k)) && Spares(st, m, mem)
    {
      list := [];
      var n := PerArena(k);
      for i := 0 to n
        invariant list == Blocks(page, i) && Spares(st, m, mem)
      {
        forall j: nat | j < n ensures Block(page, j) in st.free[k] { BlocksAt(page, n, j); }
        forall j: nat | j < i ensures list[j] == Block(page, j) { BlocksAt(page, i, j); }
        InsertedSpares(st, m, mem, list, i, Block(page, i), k, v);
        mem := Inserted(mem, list, i, Block(page, i), k, v);
        list := list + [Block(page, i)];
      }
    }

    /** Lines 137-141. */
    method TakeFront(k: nat, size: nat, ghost v: Memory) returns (r: Option<Block>)
      requires Core(St()) && k < DESCS && free[k] != [] && size <= BlockSize(k)
      requires forall a :: a in arenas && a != free[k][0].page ==> Busy(St(), a)
      modifies this
      ensures Inv(St()) && SamePlaces(old(St()), St()) && Spares(old(St()), old(mem), mem)
      ensures r.Some? && r.value !in old(live) && live == old(live)[r.value := size]
      ensures r.value == old(free)[k][0] && used == old(used) && arenas.Keys == old(arenas).Keys
      ensures r.value.page in arenas && arenas[r.value.page].Small?
    {
      ghost var st := St();
      PopReady(st, k);
      PopBusy(st, k, size);
      FrontIsFresh(st, k);
      var b := free[k][0];
      UnlinkedSpares(st, mem, mem, free[k], 0, k, v);
      mem := Unlinked(mem, free[k], 0, k, v);
      HeaderSpares(st, old(mem), mem, b.page, v);
      mem := Header(mem, b.page, v);
      free := free[k := free[k][1..]];
      arenas := arenas[b.page := arenas[b.page].(freeCnt := arenas[b.page].freeCnt - 1)];
      live := live[b := size];
      assert St() == Pop(st, k, size);
      Places(st, St());
      r := Some(b);
    }

    /** Lines 98-110. No pages are allocated for a page count of zero. */
    method MallocBig(size: nat, pages: Option<nat>, ghost v: Memory) returns (r: Option<Block>)
      requires Inv(St()) && (pages.Some? ==> PageRange(pages.value, BigPages(size)) !! used)
      modifies this
      ensures Inv(St()) && SamePlaces(old(St()), St()) && Spares(old(St()), old(mem), mem)
      ensures r.None? ==> St() == old(St()) && mem == old(mem)
      ensures r.Some? <==> pages.Some? && BigPages(size) > 0
      ensures r.Some? ==> r.value !in old(live) && live == old(live)[r.value := size] && r.value.page !in old(arenas)
      ensures r.Some? ==> r.value.page in arenas && used == old(used) + ArenaPages(r.value.page, arenas[r.value.page])
    {
      ghost var st := St();
      Places(st, st);
      if pages.None? || BigPages(size) == 0 {
        return None;
      }
      var a, n := pages.value, BigPages(size);
      NewBigInv(st, a, n, size);
      forall p: nat ensures p in PageRange(a, n) <==> a <= p < a + n { PageRangeHas(a, n, p); }
      UnusedPage(st, a);
      UnusedMisses(st, a, n);
      PutSpares(st, mem, mem, a * PGSIZE, a * PGSIZE + ARENA, v);
      mem := Header(mem, a, v);
      arenas := arenas[a := Big(n)];
      used := used + PageRange(a, n);
      live := live[Block(a, 0) := size];
      assert St() == NewBig(st, a, n, size);
      Places(st, St());
      r := Some(Block(a, 0));
    }

    /** `free`, for a block that some caller holds. Its bytes and what the allocator stores are lost; the bytes of every
        other block stay. The ASSERT on the count of an arena that becomes entirely free holds, and so do those of the
        page allocator. */
    method Free(b: Block, ghost v: Memory)
      requires Inv(St()) && b in live
      modifies this
      ensures Inv(St()) && live == old(live) - {b} && b.page in old(arenas)
      ensures SamePlaces(old(St()), St()) && Spares(St(), old(mem), mem)
      ensures used == if b.page in arenas then old(used) else old(used) - ArenaPages(b.page, old(arenas)[b.page])
      ensures b.page in arenas <==> (exists c :: c in live && c.page == b.page)
    {
      assert LiveOk(St(), b) && ArenaOk(St(), b.page);
      if arenas[b.page].Small? {
        FreeSmall(b, v);
      } else {
        FreeBig(b.page);
      }
    }

    /** Line 230. */
    method FreeBig(a: nat)
      requires Inv(St()) && a in arenas && arenas[a].Big?
      modifies this
      ensures Inv(St()) && live == old(live) - {Block(a, 0)}
      ensures SamePlaces(old(St()), St()) && Spares(St(), old(mem), mem)
      ensures a !in arenas && used == old(used) - PageRange(a, old(arenas)[a].pages)
      ensures forall c :: c in live ==> c.page != a
    {
      ghost var st := St();
      var n := arenas[a].pages;
      ReleaseBigInv(st, a);
      used := used - PageRange(a, n);
      arenas := arenas - {a};
      live := live - {Block(a, 0)};
      assert St() == ReleaseBig(st, a);
      Places(st, St());
      forall p: nat ensures p in PageRange(a, n) <==> a <= p < a + n { PageRangeHas(a, n, p); }
      UnusedMisses(St(), a, n);
      PutSpares(St(), mem, mem, a * PGSIZE, (a + n) * PGSIZE, POISON);
      mem := Put(mem, a * PGSIZE, (a + n) * PGSIZE, POISON);
      forall c | c in live ensures c.page != a { assert LiveOk(St(), c); }
    }

    /** Lines 205-225. */
    method FreeSmall(b: Block, ghost v: Memory)
      requires Inv(St()) && b in live && b.page in arenas && arenas[b.page].Small? && arenas[b.page].desc < DESCS
      modifies this
      ensures Inv(St()) && live == old(live) - {b}
      ensures SamePlaces(old(St()), St()) && Spares(St(), old(mem), mem)
      ensures used == if b.page in arenas then old(used) else old(used) - {b.page}
      ensures b.page in arenas <==> (exists c :: c in live && c.page == b.page)
    {
      var k := arenas[b.page].desc;
      FillAndPush(b, v);
      ghost var st, m1 := St(), mem;
      if arenas[b.page].freeCnt >= PerArena(k) {
        assert arenas[b.page].freeCnt == PerArena(k);
        forall c | c in live ensures c.page != b.page { NobodyHolds(st, b.page, c); }
        ReleaseArenaOf(b.page, v);
        SparesAfter(old(St()), st, St(), old(mem), m1, mem);
      } else {
        forall a | a in arenas ensures Busy(St(), a) {}
        var c := SomebodyHolds(st, b.page);
      }
    }

    /** Lines 205-216: the block is filled, put on its list and counted. */
    method FillAndPush(b: Block, ghost v: Memory)
      requires Inv(St()) && b in live && b.page in arenas && arenas[b.page].Small? && arenas[b.page].desc < DESCS
      modifies this
      ensures St() == Push(old(St()), b) && Core(St()) && (forall a :: a in arenas && a != b.page ==> Busy(St(), a))
      ensures arenas[b.page].freeCnt <= PerArena(arenas[b.page].desc)
      ensures SamePlaces(old(St()), St()) && Spares(St(), old(mem), mem)
    {
      ghost var st, st1 := St(), Push(St(), b);
      var k := arenas[b.page].desc;
      PushBusy(st, b);
      Places(st, st1);
      assert st1.free[k] == [b] + st.free[k];
      PushedSpares(st1, mem, free[k], b, k, v);
      mem := Pushed(mem, free[k], b, k, v);
      free := free[k := [b] + free[k]];
      arenas := arenas[b.page := arenas[b.page].(freeCnt := arenas[b.page].freeCnt + 1)];
      live := live - {b};
      assert St() == st1;
    }

    /** Lines 217-224: all blocks of the arena leave their list, and its page is filled and given back. */
    method ReleaseArenaOf(a: nat, ghost v: Memory)
      requires Core(St()) && a in arenas && arenas[a].Small? && arenas[a].desc < DESCS
      requires arenas[a].freeCnt == PerArena(arenas[a].desc) && (forall c :: c in arenas && c != a ==> Busy(St(), c))
      modifies this
      ensures Inv(St()) && live == old(live) && used == old(used) - {a} && arenas == old(arenas) - {a}
      ensures SamePlaces(old(St()), St()) && Spares(St(), old(mem), mem)
    {
      ghost var st := St();
      var k := arenas[a].desc;
      ReleaseInv(st, a);
      forall i: nat | i < PerArena(k) ensures Block(a, i) in free[k] { AllFree(st, a, i); }
      var list := RemoveBlocks(k, a, v, st, old(mem));
      free := free[k := list];
      arenas := arenas - {a};
      used := used - {a};
      assert St() == Release(st, a);
      ReleasedSpares(st, a, old(mem), mem);
      mem := Put(mem, a * PGSIZE, (a + 1) * PGSIZE, POISON);
    }

    /** Lines 220-223: the blocks of an arena are taken off their list one by one. */
    method RemoveBlocks(k: nat, a: nat, ghost v: Memory, ghost st: State, ghost m: Memory) returns (r: seq<Block>)
      requires Core(st) && k < DESCS && |free| == DESCS && free[k] == st.free[k] && Spares(st, m, mem)
      requires forall i: nat :: i < PerArena(k) ==> Block(a, i) in free[k]
      modifies this`mem
      ensures r == NotOf(free[k], a) && Spares(st, m, mem)
    {
      var list, n := free[k], PerArena(k);
      assert ListOk(st, k);
      forall i | 0 <= i < |list| && list[i].page == a ensures list[i].idx < n { assert FreeOk(st, k, st.free[k][i]); }
      NotBelowAll(list, a, n);
      r := list;
      for i := 0 to n
        invariant r == NotBelow(list, a, i) && Spares(st, m, mem)
      {
        NotBelowIn(list, a, i, Block(a, i));
        ghost var p :| 0 <= p < |r| && r[p] == Block(a, i);
        forall j | 0 <= j < |r| ensures r[j] in st.free[k] { NotBelowIn(list, a, i, r[j]); }
        UnlinkedSpares(st, m, mem, r, p, k, v);
        mem := Unlinked(mem, r, p, k, v);
        NotBelowStep(list, a, i);
        r := Removed(r, Block(a, i));
      }
    }

    /** `realloc`. With a null block it is `malloc`, and with size zero it is `free`. When no memory can be had, nothing
        changes. Otherwise the new block starts with the bytes of the old one, as many as both have, and no byte of any
        other block changes, provided that the copy fits (see `CopyFitsIff`). */
    method Realloc(prior: Option<Block>, size: nat, page: Option<nat>, pages: Option<nat>, ghost v: Memory)
      returns (r: Option<Block>)
      requires Inv(St()) && size < WRAP && (prior.Some? ==> prior.value in live)
      requires page.Some? ==> page.value !in used
      requires pages.Some? ==> PageRange(pages.value, BigPages(size)) !! used
      modifies this
      ensures size == 0 ==> r.None? && Inv(St()) && Spares(St(), old(mem), mem)
      ensures size == 0 ==> live == if prior.Some? then old(live) - {prior.value} else old(live)
      ensures r.Some? <==> Available(old(St()), size, page, pages)
      ensures size > 0 && r.None? ==> St() == old(St()) && mem == old(mem)
      ensures r.Some? && prior.None? ==>
                Inv(St()) && r.value !in old(live) && live == old(live)[r.value := size]
                && Spares(old(St()), old(mem), mem)
      ensures r.Some? && prior.Some? && CopyFits(size, old(Size(St(), prior.value))) ==>
                Inv(St()) && r.value !in old(live) && Moved(old(St()), old(mem), St(), mem, prior.value, r.value, size)
    {
      if size == 0 {
        if prior.Some? {
          Free(prior.value, v);
        }
        return None;
      }
      r := Malloc(size, page, pages, v);
      if prior.None? || r.None? {
        return;
      }
      MoveBlock(prior.value, r.value, size, v, old(St()), old(mem));
    }

    /** Lines 185-188: the bytes are copied and the old block is freed. `st0` and `m0` are as before the call. */
    method MoveBlock(prior: Block, next: Block, size: nat, ghost v: Memory, ghost st0: State, ghost m0: Memory)
      requires Inv(St()) && Core(st0) && prior in st0.live && next !in st0.live && live == st0.live[next := size]
               && size < WRAP
      requires SamePlaces(st0, St()) && Spares(st0, m0, mem)
      modifies this
      ensures CopyFits(size, Size(st0, prior)) ==> Inv(St()) && Moved(st0, m0, St(), mem, prior, next, size)
    {
      ghost var st1, m1 := St(), mem;
      LiveIsBlock(st0, prior);
      LiveIsBlock(st1, prior);
      LiveIsBlock(st1, next);
      mem := Copied(mem, Begin(st1, next), Begin(st1, prior), MinSize(size, Size(st1, prior)));
      Free(prior, v);
      if CopyFits(size, Size(st0, prior)) {
        MoveDone(st0, st1, St(), prior, next, size, m0, m1, mem);
      }
    }
  }

  /* ---- realloc ---- */

  /** `block_size`, and the address of a block. */
  ghost function Size(st: State, b: Block): nat {
    if IsBlock(st, b) then BlockInside(st, b); End(st, b) - Begin(st, b) else 0
  }

  ghost function Where(st: State, b: Block): nat {
    if Known(st, b) then Begin(st, b) else 0
  }

  function MinSize(a: nat, b: nat): nat { if a < b then a else b }

  /** The copy stays inside the new block. */
  predicate CopyFits(size: nat, priorSize: nat) { size < TOO_BIG || priorSize <= PGSIZE - ARENA }

  /** `realloc` copies as many bytes as the request and the old block have; they fit into the new block exactly if the
      request is below `TOO_BIG` or the old block is no bigger than one page can hold. */
  lemma CopyFitsIff(st: State, next: Block, priorSize: nat)
    requires Core(st) && next in st.live && st.live[next] < WRAP
    ensures MinSize(st.live[next], priorSize) <= Size(st, next) <==> CopyFits(st.live[next], priorSize)
  {
    LiveIsBlock(st, next);
    BlockInside(st, next);
    BlockFits(st, next);
    assert LiveOk(st, next);
    match st.arenas[next.page]
    case Small(k, _) => BlockSizes();
    case Big(_) => if st.live[next] >= TOO_BIG { BigWrapped(st.live[next]); }
  }

  lemma BigWrapped(size: nat)
    requires TOO_BIG <= size < WRAP
    ensures BigPages(size) == 1
  {
  }

  /** `memcpy`, byte by byte. */
  function Copied(m: Memory, dst: nat, src: nat, n: nat): Memory {
    if n == 0 then m else CopyByte(Copied(m, dst, src, n - 1), dst + n - 1, src + n - 1)
  }

  function CopyByte(m: Memory, dst: int, src: int): Memory {
    (x: int) => if x == dst then m(src) else m(x)
  }

  lemma CopyByteAt(m: Memory, dst: int, src: int, x: int)
    ensures CopyByte(m, dst, src)(x) == if x == dst then m(src) else m(x)
  {
  }

  /** When source and target do not overlap, the target becomes the source and everything else stays. */
  lemma {:induction false} CopiedAt(m: Memory, dst: nat, src: nat, n: nat, x: int)
    requires dst + n <= src || src + n <= dst
    ensures Copied(m, dst, src, n)(x) == if dst <= x < dst + n then m(src + (x - dst)) else m(x)
  {
    if n > 0 {
      CopiedAt(m, dst, src, n - 1, x);
      CopiedAt(m, dst, src, n - 1, src + n - 1);
      CopyByteAt(Copied(m, dst, src, n - 1), dst + n - 1, src + n - 1, x);
    }
  }

  /** The first bytes of block `next` are those that block `prior` had, as many as both have; no byte of any other block
      has changed; and `next` is held instead of `prior`. */
  ghost predicate Moved(st: State, m: Memory, st': State, m': Memory, prior: Block, next: Block, size: nat) {
    && st'.live == (st.live - {prior})[next := size]
    && (forall i :: 0 <= i < MinSize(size, Size(st, prior)) ==> ByteMoved(st, m, st', m', prior, next, i))
    && (forall b, x :: b != prior && Holds(st, b, x) ==> m'(x) == m(x))
  }

  ghost predicate ByteMoved(st: State, m: Memory, st': State, m': Memory, prior: Block, next: Block, i: int) {
    m'(Where(st', next) + i) == m(Where(st, prior) + i)
  }

  /** Block `b` is at the same place in all three states of a move: before the call, with both blocks held, and after
      the old one was freed. */
  ghost predicate Stays(st: State, st': State, b: Block) {
    b in st.live && b in st'.live && Known(st, b) && Known(st', b) && Begin(st, b) == Begin(st', b)
    && End(st, b) == End(st', b)
  }

  /** The bytes of the old block reach the new one: the memories are those before the call, after `malloc`, and after
      `memcpy` and `free`. */
  lemma PrefixByte(st0: State, st1: State, st2: State, prior: Block, next: Block, m0: Memory, m1: Memory, m3: Memory,
                   n: nat, i: nat)
    requires Stays(st0, st1, prior) && Stays(st1, st2, next) && i < n
    requires Begin(st1, next) + n <= End(st1, next) && Begin(st1, prior) + n <= End(st1, prior)
    requires End(st1, prior) <= Begin(st1, next) || End(st1, next) <= Begin(st1, prior)
    requires Spares(st0, m0, m1) && Spares(st2, Copied(m1, Begin(st1, next), Begin(st1, prior), n), m3)
    ensures ByteMoved(st0, m0, st2, m3, prior, next, i)
  {
    var dst, src := Begin(st1, next), Begin(st1, prior);
    assert Holds(st2, next, dst + i) && Holds(st0, prior, src + i);
    CopiedAt(m1, dst, src, n, dst + i);
  }

  /** The bytes of a third block are not touched. */
  lemma OtherByte(st0: State, st1: State, st2: State, b: Block, m0: Memory, m1: Memory, m3: Memory, dst: nat, src: nat,
                  n: nat, x: int)
    requires Stays(st0, st1, b) && Stays(st1, st2, b) && Holds(st0, b, x)
    requires (dst + n <= src || src + n <= dst) && (End(st1, b) <= dst || dst + n <= Begin(st1, b))
    requires Spares(st0, m0, m1) && Spares(st2, Copied(m1, dst, src, n), m3)
    ensures m3(x) == m0(x)
  {
    assert Holds(st2, b, x);
    CopiedAt(m1, dst, src, n, x);
  }

  /** No other block that is held overlaps block `b`. */
  ghost predicate Clear(st: State, b: Block)
    requires Known(st, b)
  {
    forall c :: c in st.live && c != b ==> Known(st, c) && (End(st, c) <= Begin(st, b) || End(st, b) <= Begin(st, c))
  }

  lemma ClearOf(st: State, b: Block)
    requires Core(st) && b in st.live
    ensures IsBlock(st, b) && Clear(st, b)
  {
    LiveIsBlock(st, b);
    forall c | c in st.live && c != b
      ensures Known(st, c) && (End(st, c) <= Begin(st, b) || End(st, b) <= Begin(st, c)) {
      LiveIsBlock(st, c);
      BlocksAreDisjoint(st, b, c);
    }
  }

  lemma MoveDone(st0: State, st1: State, st2: State, prior: Block, next: Block, size: nat,
                 m0: Memory, m1: Memory, m3: Memory)
    requires Core(st1) && IsBlock(st1, prior) && IsBlock(st0, prior) && prior in st0.live && size < WRAP
    requires SamePlaces(st0, st1) && SamePlaces(st1, st2) && next !in st0.live
    requires st1.live == st0.live[next := size] && st2.live == st1.live - {prior}
    requires Spares(st0, m0, m1) && CopyFits(size, Size(st0, prior)) && IsBlock(st1, next)
    requires Spares(st2, Copied(m1, Begin(st1, next), Begin(st1, prior), MinSize(size, Size(st1, prior))), m3)
    ensures Moved(st0, m0, st2, m3, prior, next, size)
  {
    CopyFitsIff(st1, next, Size(st1, prior));
    ClearOf(st1, next);
    MoveBytes(st0, st1, st2, prior, next, size, m0, m1, m3, MinSize(size, Size(st1, prior)));
  }

  lemma MoveBytes(st0: State, st1: State, st2: State, prior: Block, next: Block, size: nat,
                  m0: Memory, m1: Memory, m3: Memory, n: nat)
    requires IsBlock(st1, prior) && IsBlock(st0, prior) && prior in st0.live && IsBlock(st1, next) && Clear(st1, next)
    requires SamePlaces(st0, st1) && SamePlaces(st1, st2) && next !in st0.live
    requires st1.live == st0.live[next := size] && st2.live == st1.live - {prior}
    requires Spares(st0, m0, m1) && n == MinSize(size, Size(st1, prior)) <= Size(st1, next)
    requires Spares(st2, Copied(m1, Begin(st1, next), Begin(st1, prior), n), m3)
    ensures Moved(st0, m0, st2, m3, prior, next, size)
  {
    assert Stays(st0, st1, prior) && Stays(st1, st2, next);
    assert Size(st0, prior) == Size(st1, prior);
    forall i | 0 <= i < n ensures ByteMoved(st0, m0, st2, m3, prior, next, i) {
      PrefixByte(st0, st1, st2, prior, next, m0, m1, m3, n, i);
    }
    MoveSpares(st0, st1, st2, prior, next, size, m0, m1, m3, Begin(st1, prior), n);
    assert st2.live == (st0.live - {prior})[next := size];
  }

  lemma MoveSpares(st0: State, st1: State, st2: State, prior: Block, next: Block, size: nat,
                   m0: Memory, m1: Memory, m3: Memory, src: nat, n: nat)
    requires Known(st1, next) && Clear(st1, next) && SamePlaces(st0, st1) && SamePlaces(st1, st2) && next !in st0.live
    requires st1.live == st0.live[next := size] && st2.live == st1.live - {prior}
    requires Begin(st1, next) + n <= End(st1, next) && (src + n <= Begin(st1, next) || End(st1, next) <= src)
    requires Spares(st0, m0, m1) && Spares(st2, Copied(m1, Begin(st1, next), src, n), m3)
    ensures forall b, x :: b != prior && Holds(st0, b, x) ==> m3(x) == m0(x)
  {
    forall b, x | b != prior && Holds(st0, b, x) ensures m3(x) == m0(x) {
      assert Stays(st0, st1, b) && Stays(st1, st2, b);
      OtherByte(st0, st1, st2, b, m0, m1, m3, Begin(st1, next), src, n, x);
    }
  }
}
