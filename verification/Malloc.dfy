/** The kernel's block allocator (proj-pregame/src/threads/malloc.c) on top of the page allocator
    (proj-pregame/src/threads/palloc.c).

    A block is named by its page and its index there; `Address` gives its place. The state is a value, and every
    allocation of pages has its outcome among the parameters. */
module Malloc {
  import opened Basics
  import opened Pigeonhole

  const PGSIZE: int := 4096
  /** sizeof(struct arena) on the target: three words. */
  const ARENA: int := 12
  const DESCS: int := 7
  const WRAP: int := 0x1_0000_0000

  /** The descriptors that `malloc_init` makes: block sizes from 16 to 1024. */
  function BlockSize(k: nat): nat
    requires k < DESCS
  {
    if k == 0 then 16 else 2 * BlockSize(k - 1)
  }

  function PerArena(k: nat): nat
    requires k < DESCS
  {
    BlocksIn(BlockSize(k))
  }

  /** `(PGSIZE - sizeof (struct arena)) / block_size`, by the sizes that occur. */
  function BlocksIn(size: nat): nat {
    if size == 16 then (PGSIZE - ARENA) / 16
    else if size == 32 then (PGSIZE - ARENA) / 32
    else if size == 64 then (PGSIZE - ARENA) / 64
    else if size == 128 then (PGSIZE - ARENA) / 128
    else if size == 256 then (PGSIZE - ARENA) / 256
    else if size == 512 then (PGSIZE - ARENA) / 512
    else if size == 1024 then (PGSIZE - ARENA) / 1024
    else 0
  }

  /** An arena has as many blocks as its page holds behind the header. */
  lemma ArenaIsFull(k: nat)
    requires k < DESCS
    ensures 12 + PerArena(k) * BlockSize(k) <= 4096 < 12 + (PerArena(k) + 1) * BlockSize(k)
  {
    BlockSizes();
    assert k == 0 || k == 1 || k == 2 || k == 3 || k == 4 || k == 5 || k == 6;
  }

  /** The loop of `malloc_init`: it makes exactly these descriptors, which fit the array of ten. */
  method MallocInit() returns (sizes: seq<nat>)
    ensures |sizes| == DESCS <= 10 && (forall k :: 0 <= k < DESCS ==> sizes[k] == BlockSize(k))
  {
    sizes := [];
    var size := 16;
    BlockSizes();
    while size < PGSIZE / 2
      invariant |sizes| <= DESCS && (forall k :: 0 <= k < |sizes| ==> sizes[k] == BlockSize(k))
      invariant size == if |sizes| < DESCS then BlockSize(|sizes|) else 2048
      decreases DESCS - |sizes|
    {
      sizes := sizes + [size];
      size := size * 2;
    }
  }

  lemma BlockSizes()
    ensures BlockSize(0) == 16 && BlockSize(1) == 32 && BlockSize(2) == 64 && BlockSize(3) == 128
    ensures BlockSize(4) == 256 && BlockSize(5) == 512 && BlockSize(6) == 1024
  {
    assert BlockSize(2) == 64 && BlockSize(4) == 256;
  }

  /** A block: the page of its arena, and its index there. */
  datatype Block = Block(page: nat, idx: nat)

  /** `arena_to_block`. */
  function Address(b: Block, k: nat): nat
    requires k < DESCS
  {
    b.page * PGSIZE + ARENA + b.idx * BlockSize(k)
  }

  /** A block lies inside its page, behind the header. */
  lemma BlockInPage(idx: nat, k: nat)
    requires k < DESCS && idx < PerArena(k)
    ensures idx * BlockSize(k) + BlockSize(k) <= PGSIZE - ARENA
  {
    BlockSizes();
    if k == 0 {
    } else if k == 1 {
    } else if k == 2 {
    } else if k == 3 {
    } else if k == 4 {
    } else if k == 5 {
    } else {
      assert k == 6;
    }
  }

  /** `block_to_arena` undoes `arena_to_block`, and its ASSERTs hold. */
  lemma BlockToArena(b: Block, k: nat)
    requires k < DESCS && b.idx < PerArena(k)
    ensures Address(b, k) / PGSIZE == b.page && Address(b, k) % PGSIZE == ARENA + b.idx * BlockSize(k)
  {
    BlockInPage(b.idx, k);
  }

  /** The pages for a big block of `size` bytes: line 100, in 32-bit arithmetic that wraps around. */
  function BigPages(size: nat): nat {
    (size + ARENA + PGSIZE - 1) % WRAP / PGSIZE
  }

  /** Sizes from here on wrap around and yet get a page. */
  const TOO_BIG: int := 0xFFFF_FFF5

  /** With pages available, a big block is big enough or there is none, exactly for sizes below `TOO_BIG`. (Just below,
      from 2^32 - 4107 on, the page count is 0 and the request is refused.) */
  lemma BigFitsIff(size: nat)
    requires size < WRAP
    ensures BigPages(size) == 0 || size + ARENA <= BigPages(size) * PGSIZE <==> size < TOO_BIG
    ensures BigPages(size) == 0 <==> WRAP - 4107 <= size < TOO_BIG
  {
  }

  /** No page too many is taken for a big block. */
  lemma BigIsTight(size: nat)
    requires size < WRAP - 4107
    ensures (BigPages(size) - 1) * 4096 < size + 12 <= BigPages(size) * 4096
  {
  }

  /** The largest request gets one page. */
  lemma WrappedRequest()
    ensures BigPages(0xFFFF_FFFF) == 1 && 1 * PGSIZE - ARENA < 0xFFFF_FFFF
  {
  }

  /* ---- State ---- */

  /** `struct arena`: for blocks of descriptor `desc`, or for a big block of some pages. */
  datatype Arena = Small(desc: nat, freeCnt: nat) | Big(pages: nat)

  /** The free lists, the arenas by their page, the pages in use, and the blocks that callers hold with the sizes they
      asked for. */
  datatype State = State(free: seq<seq<Block>>, arenas: map<nat, Arena>, used: set<nat>, live: map<Block, nat>)

  /** The indices of the blocks of arena `a` on a free list. */
  function Idxs(list: seq<Block>, a: nat): seq<nat> {
    if list == [] then [] else (if list[0].page == a then [list[0].idx] else []) + Idxs(list[1..], a)
  }

  lemma {:induction false} IdxsIn(list: seq<Block>, a: nat, i: nat)
    ensures i in Idxs(list, a) <==> Block(a, i) in list
  {
    if list != [] {
      IdxsIn(list[1..], a, i);
      assert list == [list[0]] + list[1..];
    }
  }

  lemma {:induction false} IdxsDistinct(list: seq<Block>, a: nat)
    requires Distinct(list)
    ensures Distinct(Idxs(list, a))
  {
    if list != [] {
      IdxsDistinct(list[1..], a);
      IdxsIn(list[1..], a, list[0].idx);
    }
  }

  /** The pages of an arena. */
  ghost predicate InArena(a: nat, arena: Arena, page: nat) {
    a <= page < a + if arena.Small? then 1 else arena.pages
  }

  /** A free list holds blocks of its own arenas, each once and none that a caller holds. */
  ghost predicate ListOk(st: State, k: nat)
    requires k < DESCS == |st.free|
  {
    && Distinct(st.free[k])
    && (forall i :: 0 <= i < |st.free[k]| ==> FreeOk(st, k, st.free[k][i]))
  }

  ghost predicate FreeOk(st: State, k: nat, b: Block)
    requires k < DESCS
  {
    b.page in st.arenas && st.arenas[b.page].Small? && st.arenas[b.page].desc == k && b.idx < PerArena(k)
    && b !in st.live
  }

  /** `free_cnt` is the number of the arena's blocks on the free list. */
  ghost predicate ArenaOk(st: State, a: nat)
    requires a in st.arenas && |st.free| == DESCS
  {
    && (forall page: nat :: InArena(a, st.arenas[a], page) ==> page in st.used)
    && match st.arenas[a]
       case Small(k, freeCnt) => k < DESCS && freeCnt == |Idxs(st.free[k], a)|
       case Big(pages) => 0 < pages && Block(a, 0) in st.live
  }

  ghost predicate LiveOk(st: State, b: Block)
    requires b in st.live
  {
    b.page in st.arenas &&
    match st.arenas[b.page]
    case Small(k, _) => k < DESCS && b.idx < PerArena(k) && st.live[b] <= BlockSize(k)
    case Big(pages) => b.idx == 0 && pages == BigPages(st.live[b])
  }

  /** No block is forgotten: it is free or some caller holds it. */
  ghost predicate Accounted(st: State, a: nat, i: nat)
    requires a in st.arenas && |st.free| == DESCS
  {
    st.arenas[a].Small? && st.arenas[a].desc < DESCS && i < PerArena(st.arenas[a].desc) ==>
      Block(a, i) in st.free[st.arenas[a].desc] || Block(a, i) in st.live
  }

  ghost predicate Apart(st: State, a: nat, b: nat)
    requires a in st.arenas && b in st.arenas
  {
    a != b ==> forall page :: !(InArena(a, st.arenas[a], page) && InArena(b, st.arenas[b], page))
  }

  ghost predicate Core(st: State) {
    && |st.free| == DESCS && (forall k: nat :: k < DESCS ==> ListOk(st, k))
    && (forall a :: a in st.arenas ==> ArenaOk(st, a))
    && (forall a, b :: a in st.arenas && b in st.arenas ==> Apart(st, a, b))
    && (forall b :: b in st.live ==> LiveOk(st, b))
    && (forall a, i :: a in st.arenas ==> Accounted(st, a, i))
  }

  /** Between calls no arena is entirely free. */
  ghost predicate Busy(st: State, a: nat)
    requires a in st.arenas
  {
    st.arenas[a].Small? && st.arenas[a].desc < DESCS ==> st.arenas[a].freeCnt < PerArena(st.arenas[a].desc)
  }

  ghost predicate Inv(st: State) {
    Core(st) && (forall a :: a in st.arenas ==> Busy(st, a))
  }

  function Empty(used: set<nat>): State { State([[], [], [], [], [], [], []], map[], used, map[]) }

  lemma EmptyInv(used: set<nat>)
    ensures Inv(Empty(used))
  {
    var st := Empty(used);
    forall k: nat | k < DESCS ensures ListOk(st, k) { assert st.free[k] == []; }
  }

  /* ---- malloc ---- */

  /** The front block of list `k` goes to a caller. */
  function Pop(st: State, k: nat, size: nat): State
    requires k < |st.free| && st.free[k] != [] && st.free[k][0].page in st.arenas
             && st.arenas[st.free[k][0].page].Small?
    requires st.arenas[st.free[k][0].page].freeCnt > 0
  {
    var b := st.free[k][0];
    var a := st.arenas[b.page];
    State(st.free[k := st.free[k][1..]], st.arenas[b.page := a.(freeCnt := a.freeCnt - 1)], st.used, st.live[b := size])
  }

  lemma PopReady(st: State, k: nat)
    requires Core(st) && k < DESCS && st.free[k] != []
    ensures FrontOk(st, k)
  {
    var b := st.free[k][0];
    assert ListOk(st, k);
    assert FreeOk(st, k, st.free[k][0]);
    assert ArenaOk(st, b.page);
    IdxsIn(st.free[k], b.page, b.idx);
  }

  lemma PopList(st: State, k: nat, size: nat, j: nat)
    requires Core(st) && k < DESCS && st.free[k] != [] && j < DESCS && size <= BlockSize(k)
    requires FrontOk(st, k)
    ensures ListOk(Pop(st, k, size), j)
  {
    var b, st1 := st.free[k][0], Pop(st, k, size);
    assert ListOk(st, j) && ListOk(st, k);
    assert FreeOk(st, k, b);
    if j == k {
      assert st1.free[k] == st.free[k][1..];
    }
    forall i | 0 <= i < |st1.free[j]| ensures FreeOk(st1, j, st1.free[j][i]) {
      assert st1.free[j][i] == if j == k then st.free[k][i + 1] else st.free[j][i];
      assert FreeOk(st, j, st1.free[j][i]);
    }
  }

  lemma PopArena(st: State, k: nat, size: nat, a: nat)
    requires Core(st) && k < DESCS && st.free[k] != [] && a in st.arenas
    requires FrontOk(st, k)
    ensures ArenaOk(Pop(st, k, size), a)
  {
    var b, st1 := st.free[k][0], Pop(st, k, size);
    assert ArenaOk(st, a) && ListOk(st, k);
    assert FreeOk(st, k, b);
    assert Idxs(st.free[k], a) == (if b.page == a then [b.idx] else []) + Idxs(st.free[k][1..], a);
  }

  ghost predicate FrontOk(st: State, k: nat)
    requires k < |st.free| && st.free[k] != []
  {
    var b := st.free[k][0];
    b.page in st.arenas && st.arenas[b.page].Small? && st.arenas[b.page].desc == k && st.arenas[b.page].freeCnt > 0
  }

  lemma PopCore(st: State, k: nat, size: nat)
    requires Core(st) && k < DESCS && st.free[k] != [] && size <= BlockSize(k)
    requires FrontOk(st, k)
    ensures Core(Pop(st, k, size))
  {
    var b, st1 := st.free[k][0], Pop(st, k, size);
    assert ListOk(st, k);
    assert FreeOk(st, k, b);
    forall j: nat | j < DESCS ensures ListOk(st1, j) { PopList(st, k, size, j); }
    forall a | a in st1.arenas ensures ArenaOk(st1, a) { PopArena(st, k, size, a); }
    forall a, c | a in st1.arenas && c in st1.arenas ensures Apart(st1, a, c) { assert Apart(st, a, c); }
    forall x | x in st1.live ensures LiveOk(st1, x) { assert x != b ==> LiveOk(st, x); }
    forall a, i | a in st1.arenas ensures Accounted(st1, a, i) {
      assert Accounted(st, a, i);
      assert st.free[k] == [b] + st.free[k][1..];
    }
  }

  /** The blocks of a new arena, in order. */
  function Blocks(page: nat, n: nat): (r: seq<Block>)
    ensures |r| == n
  {
    if n == 0 then [] else Blocks(page, n - 1) + [Block(page, n - 1)]
  }

  lemma {:induction false} BlocksAt(page: nat, n: nat, i: nat)
    requires i < n
    ensures Blocks(page, n)[i] == Block(page, i)
  {
    if i < n - 1 {
      BlocksAt(page, n - 1, i);
    }
  }

  lemma {:induction false} IdxsAppend(list: seq<Block>, b: Block, a: nat)
    ensures Idxs(list + [b], a) == Idxs(list, a) + if b.page == a then [b.idx] else []
  {
    if list == [] {
      assert list + [b] == [b];
    } else {
      IdxsAppend(list[1..], b, a);
      assert (list + [b])[1..] == list[1..] + [b];
    }
  }

  lemma {:induction false} IdxsOfBlocks(page: nat, n: nat, a: nat)
    ensures |Idxs(Blocks(page, n), a)| == if a == page then n else 0
  {
    if n > 0 {
      IdxsOfBlocks(page, n - 1, a);
      IdxsAppend(Blocks(page, n - 1), Block(page, n - 1), a);
    }
  }

  /** Lines 119-133: a new page becomes an arena whose blocks are all free. */
  function NewArena(st: State, k: nat, page: nat): State
    requires k < DESCS == |st.free|
  {
    State(st.free[k := Blocks(page, PerArena(k))], st.arenas[page := Small(k, PerArena(k))], st.used + {page}, st.live)
  }

  lemma UnusedPage(st: State, page: nat)
    requires Core(st) && page !in st.used
    ensures page !in st.arenas && (forall b :: b in st.live ==> b.page != page)
    ensures forall a :: a in st.arenas ==> !InArena(a, st.arenas[a], page)
  {
    forall a | a in st.arenas ensures !InArena(a, st.arenas[a], page) && a != page {
      assert ArenaOk(st, a);
      assert InArena(a, st.arenas[a], a);
    }
    forall b | b in st.live ensures b.page != page { assert LiveOk(st, b); }
  }

  lemma NewList(st: State, k: nat, page: nat, j: nat)
    requires Core(st) && k < DESCS && st.free[k] == [] && page !in st.used && j < DESCS
    ensures ListOk(NewArena(st, k, page), j)
  {
    var st1, n := NewArena(st, k, page), PerArena(k);
    UnusedPage(st, page);
    if j == k {
      forall i: nat | i < n ensures st1.free[k][i] == Block(page, i) { BlocksAt(page, n, i); }
    } else {
      assert ListOk(st, j);
      forall i | 0 <= i < |st1.free[j]| ensures FreeOk(st1, j, st1.free[j][i]) { assert FreeOk(st, j, st.free[j][i]); }
    }
  }

  lemma NewArenaOk(st: State, k: nat, page: nat, a: nat)
    requires Core(st) && k < DESCS && st.free[k] == [] && page !in st.used && a in NewArena(st, k, page).arenas
    ensures ArenaOk(NewArena(st, k, page), a)
  {
    IdxsOfBlocks(page, PerArena(k), a);
    if a != page {
      assert ArenaOk(st, a);
    }
  }

  lemma NewArenaCore(st: State, k: nat, page: nat)
    requires Core(st) && k < DESCS && st.free[k] == [] && page !in st.used
    ensures Core(NewArena(st, k, page))
  {
    var st1 := NewArena(st, k, page);
    UnusedPage(st, page);
    forall j: nat | j < DESCS ensures ListOk(st1, j) { NewList(st, k, page, j); }
    forall a | a in st1.arenas ensures ArenaOk(st1, a) { NewArenaOk(st, k, page, a); }
    forall a, c | a in st1.arenas && c in st1.arenas ensures Apart(st1, a, c) {
      assert a != page && c != page ==> Apart(st, a, c);
    }
    forall x | x in st1.live ensures LiveOk(st1, x) { assert LiveOk(st, x); }
    forall a, i: nat | a in st1.arenas ensures Accounted(st1, a, i) {
      if a == page {
        if i < PerArena(k) { BlocksAt(page, PerArena(k), i); }
      } else {
        assert Accounted(st, a, i);
      }
    }
  }

  /** A big block on fresh pages. */
  function NewBig(st: State, page: nat, pages: nat, size: nat): State {
    st.(arenas := st.arenas[page := Big(pages)], used := st.used + PageRange(page, pages),
        live := st.live[Block(page, 0) := size])
  }

  function PageRange(page: nat, n: nat): set<nat> {
    if n == 0 then {} else PageRange(page, n - 1) + {page + n - 1}
  }

  lemma {:induction false} PageRangeHas(page: nat, n: nat, p: nat)
    ensures p in PageRange(page, n) <==> page <= p < page + n
  {
    if n > 0 {
      PageRangeHas(page, n - 1, p);
    }
  }

  lemma NewBigInv(st: State, page: nat, pages: nat, size: nat)
    requires Inv(st) && 0 < pages == BigPages(size) && PageRange(page, pages) !! st.used
    ensures Inv(NewBig(st, page, pages, size))
  {
    var st1 := NewBig(st, page, pages, size);
    forall p: nat ensures p in PageRange(page, pages) <==> page <= p < page + pages { PageRangeHas(page, pages, p); }
    UnusedPage(st, page);
    forall k: nat | k < DESCS ensures ListOk(st1, k) {
      assert ListOk(st, k);
      forall i | 0 <= i < |st1.free[k]| ensures FreeOk(st1, k, st1.free[k][i]) { assert FreeOk(st, k, st.free[k][i]); }
    }
    forall a | a in st1.arenas ensures ArenaOk(st1, a) && Busy(st1, a) {
      assert a != page ==> ArenaOk(st, a) && Busy(st, a);
    }
    forall a, c | a in st1.arenas && c in st1.arenas ensures Apart(st1, a, c) {
      assert a != page ==> ArenaOk(st, a);
      assert c != page ==> ArenaOk(st, c);
      assert a != page && c != page ==> Apart(st, a, c);
    }
    forall x | x in st1.live ensures LiveOk(st1, x) { assert x != Block(page, 0) ==> LiveOk(st, x); }
    forall a, i | a in st1.arenas ensures Accounted(st1, a, i) { assert a != page ==> Accounted(st, a, i); }
  }

  /* ---- free ---- */

  /** The block goes back to the front of its list. */
  function Push(st: State, b: Block): State
    requires b.page in st.arenas && st.arenas[b.page].Small? && st.arenas[b.page].desc < |st.free|
  {
    var a := st.arenas[b.page];
    State(st.free[a.desc := [b] + st.free[a.desc]], st.arenas[b.page := a.(freeCnt := a.freeCnt + 1)], st.used,
          st.live - {b})
  }

  lemma PushList(st: State, b: Block, j: nat)
    requires Core(st) && b in st.live && b.page in st.arenas && st.arenas[b.page].Small?
             && st.arenas[b.page].desc < DESCS && j < DESCS
    ensures ListOk(Push(st, b), j)
  {
    var st1, k := Push(st, b), st.arenas[b.page].desc;
    assert ListOk(st, j) && LiveOk(st, b);
    forall i | 0 <= i < |st.free[j]| ensures FreeOk(st1, j, st.free[j][i]) && st.free[j][i] != b {
      assert FreeOk(st, j, st.free[j][i]);
    }
    if j == k {
      assert st1.free[k] == [b] + st.free[k];
      assert forall i :: 0 < i < |st1.free[k]| ==> st1.free[k][i] == st.free[k][i - 1];
    }
  }

  lemma PushArena(st: State, b: Block, a: nat)
    requires Core(st) && b in st.live && b.page in st.arenas && st.arenas[b.page].Small?
             && st.arenas[b.page].desc < DESCS && a in st.arenas
    ensures ArenaOk(Push(st, b), a)
  {
    var k := st.arenas[b.page].desc;
    assert ArenaOk(st, a) && LiveOk(st, b);
    var list := [b] + st.free[k];
    assert list[1..] == st.free[k];
    assert Idxs(list, a) == (if b.page == a then [b.idx] else []) + Idxs(st.free[k], a);
  }

  lemma PushCore(st: State, b: Block)
    requires Core(st) && b in st.live && b.page in st.arenas && st.arenas[b.page].Small?
             && st.arenas[b.page].desc < DESCS
    ensures Core(Push(st, b))
  {
    var st1 := Push(st, b);
    forall j: nat | j < DESCS ensures ListOk(st1, j) { PushList(st, b, j); }
    forall a | a in st1.arenas ensures ArenaOk(st1, a) { PushArena(st, b, a); }
    forall a, c | a in st1.arenas && c in st1.arenas ensures Apart(st1, a, c) { assert Apart(st, a, c); }
    forall x | x in st1.live ensures LiveOk(st1, x) { assert LiveOk(st, x); }
    forall a, i | a in st1.arenas ensures Accounted(st1, a, i) { assert Accounted(st, a, i); }
  }

  /** A list without the blocks of arena `a`. */
  function NotOf(list: seq<Block>, a: nat): seq<Block> {
    if list == [] then [] else if list[0].page == a then NotOf(list[1..], a) else [list[0]] + NotOf(list[1..], a)
  }

  lemma {:induction false} NotOfIn(list: seq<Block>, a: nat, b: Block)
    ensures b in NotOf(list, a) <==> b in list && b.page != a
  {
    if list != [] {
      NotOfIn(list[1..], a, b);
      assert list == [list[0]] + list[1..];
    }
  }

  lemma {:induction false} NotOfDistinct(list: seq<Block>, a: nat)
    requires Distinct(list)
    ensures Distinct(NotOf(list, a))
  {
    if list != [] {
      NotOfDistinct(list[1..], a);
      NotOfIn(list[1..], a, list[0]);
    }
  }

  lemma {:induction false} IdxsNotOf(list: seq<Block>, a: nat, c: nat)
    ensures Idxs(NotOf(list, a), c) == if c == a then [] else Idxs(list, c)
  {
    if list != [] {
      var rest := NotOf(list[1..], a);
      IdxsNotOf(list[1..], a, c);
      if list[0].page != a {
        assert ([list[0]] + rest)[1..] == rest;
      }
    }
  }

  /** `list_remove`. */
  function Removed(list: seq<Block>, b: Block): seq<Block> {
    if list == [] then [] else if list[0] == b then list[1..] else [list[0]] + Removed(list[1..], b)
  }

  /** A list without the blocks of arena `a` with indices below `n`. */
  function NotBelow(list: seq<Block>, a: nat, n: nat): seq<Block> {
    if list == [] then []
    else if list[0].page == a && list[0].idx < n then NotBelow(list[1..], a, n)
    else [list[0]] + NotBelow(list[1..], a, n)
  }

  lemma {:induction false} NotBelowAll(list: seq<Block>, a: nat, n: nat)
    requires forall i :: 0 <= i < |list| && list[i].page == a ==> list[i].idx < n
    ensures NotBelow(list, a, 0) == list && NotBelow(list, a, n) == NotOf(list, a)
  {
    if list != [] {
      NotBelowAll(list[1..], a, n);
    }
  }

  lemma {:induction false} NotBelowSame(list: seq<Block>, a: nat, n: nat)
    requires Block(a, n) !in list
    ensures NotBelow(list, a, n + 1) == NotBelow(list, a, n)
            && Removed(NotBelow(list, a, n), Block(a, n)) == NotBelow(list, a, n)
  {
    if list != [] {
      NotBelowSame(list[1..], a, n);
      assert list[0] != Block(a, n);
      assert ([list[0]] + NotBelow(list[1..], a, n))[1..] == NotBelow(list[1..], a, n);
    }
  }

  lemma {:induction false} NotBelowStep(list: seq<Block>, a: nat, n: nat)
    requires Distinct(list)
    ensures Removed(NotBelow(list, a, n), Block(a, n)) == NotBelow(list, a, n + 1)
  {
    if list != [] {
      var rest := NotBelow(list[1..], a, n);
      NotBelowStep(list[1..], a, n);
      if list[0] == Block(a, n) {
        NotBelowSame(list[1..], a, n);
      }
      assert ([list[0]] + rest)[1..] == rest;
    }
  }

  /** An arena that is entirely free goes back to the page allocator. */
  function Release(st: State, a: nat): State
    requires a in st.arenas && st.arenas[a].Small? && st.arenas[a].desc < |st.free|
  {
    var k := st.arenas[a].desc;
    State(st.free[k := NotOf(st.free[k], a)], st.arenas - {a}, st.used - {a}, st.live)
  }

  /** In an arena whose count has reached the top, every block is on the free list. */
  lemma AllFree(st: State, a: nat, i: nat)
    requires Core(st) && a in st.arenas && st.arenas[a].Small? && st.arenas[a].desc < DESCS
    requires st.arenas[a].freeCnt == PerArena(st.arenas[a].desc) && i < st.arenas[a].freeCnt
    ensures Block(a, i) in st.free[st.arenas[a].desc]
  {
    var k := st.arenas[a].desc;
    var s := Idxs(st.free[k], a);
    assert ArenaOk(st, a) && ListOk(st, k);
    IdxsDistinct(st.free[k], a);
    IdxsBelow(st, k, a);
    AllBelow(s, PerArena(k), i);
    IdxsIn(st.free[k], a, i);
  }

  lemma IdxsBelow(st: State, k: nat, a: nat)
    requires |st.free| == DESCS && k < DESCS && ListOk(st, k)
    ensures Below(Idxs(st.free[k], a), PerArena(k))
  {
    var s := Idxs(st.free[k], a);
    forall i | 0 <= i < |s| ensures s[i] < PerArena(k) {
      IdxsIn(st.free[k], a, s[i]);
      assert s[i] in s;
      var j :| 0 <= j < |st.free[k]| && st.free[k][j] == Block(a, s[i]);
      assert FreeOk(st, k, st.free[k][j]);
    }
  }

  lemma CountBound(st: State, a: nat)
    requires Core(st) && a in st.arenas && st.arenas[a].Small? && st.arenas[a].desc < DESCS
    ensures st.arenas[a].freeCnt <= PerArena(st.arenas[a].desc)
  {
    var k := st.arenas[a].desc;
    assert ArenaOk(st, a) && ListOk(st, k);
    IdxsDistinct(st.free[k], a);
    IdxsBelow(st, k, a);
    DistinctBound(Idxs(st.free[k], a), PerArena(k));
  }

  lemma LiveNotFree(st: State, k: nat, b: Block)
    requires Core(st) && k < DESCS && b in st.live
    ensures b !in st.free[k]
  {
    assert ListOk(st, k);
    forall i | 0 <= i < |st.free[k]| ensures st.free[k][i] != b { assert FreeOk(st, k, st.free[k][i]); }
  }

  /** No caller holds a block of an arena that is entirely free. */
  lemma NobodyHolds(st: State, a: nat, b: Block)
    requires Core(st) && a in st.arenas && st.arenas[a].Small? && st.arenas[a].desc < DESCS
    requires st.arenas[a].freeCnt == PerArena(st.arenas[a].desc) && b in st.live
    ensures b.page != a
  {
    LiveNotFree(st, st.arenas[a].desc, b);
    assert LiveOk(st, b);
    if b.page == a {
      AllFree(st, a, b.idx);
    }
  }

  lemma ReleaseList(st: State, a: nat, j: nat)
    requires Core(st) && a in st.arenas && st.arenas[a].Small? && st.arenas[a].desc < DESCS && j < DESCS
    ensures ListOk(Release(st, a), j)
  {
    var k, st1 := st.arenas[a].desc, Release(st, a);
    assert ListOk(st, j);
    if j == k {
      NotOfDistinct(st.free[k], a);
    }
    forall i | 0 <= i < |st1.free[j]| ensures FreeOk(st1, j, st1.free[j][i]) {
      var b := st1.free[j][i];
      assert b in st1.free[j];
      NotOfIn(st.free[k], a, b);
      var m :| 0 <= m < |st.free[j]| && st.free[j][m] == b;
      assert FreeOk(st, j, st.free[j][m]);
    }
  }

  lemma ReleaseArena(st: State, a: nat, c: nat)
    requires Core(st) && a in st.arenas && st.arenas[a].Small? && st.arenas[a].desc < DESCS && c in st.arenas && c != a
    ensures ArenaOk(Release(st, a), c)
  {
    assert ArenaOk(st, c) && Apart(st, a, c);
    assert InArena(a, st.arenas[a], a);
    IdxsNotOf(st.free[st.arenas[a].desc], a, c);
  }

  lemma ReleaseCore(st: State, a: nat)
    requires Core(st) && a in st.arenas && st.arenas[a].Small? && st.arenas[a].desc < DESCS
    requires st.arenas[a].freeCnt == PerArena(st.arenas[a].desc)
    ensures Core(Release(st, a))
  {
    var st1 := Release(st, a);
    forall j: nat | j < DESCS ensures ListOk(st1, j) { ReleaseList(st, a, j); }
    forall c | c in st1.arenas ensures ArenaOk(st1, c) { ReleaseArena(st, a, c); }
    forall c, e | c in st1.arenas && e in st1.arenas ensures Apart(st1, c, e) { assert Apart(st, c, e); }
    forall x | x in st1.live ensures LiveOk(st1, x) {
      NobodyHolds(st, a, x);
      assert LiveOk(st, x);
    }
    forall c, i: nat | c in st1.arenas ensures Accounted(st1, c, i) {
      assert Accounted(st, c, i);
      NotOfIn(st.free[st.arenas[a].desc], a, Block(c, i));
    }
  }

  /* ---- Calls ---- */

  /** Descriptor `k` is the smallest with blocks of at least `size` bytes. */
  ghost predicate Serving(size: nat, k: nat) {
    k < DESCS && size <= BlockSize(k) && (forall j: nat :: j < k ==> BlockSize(j) < size)
  }

  /** The descriptor that serves `size`; `DESCS` if none does, because the size is over a kilobyte. */
  method FindDesc(size: nat) returns (k: nat)
    ensures k <= DESCS && (k == DESCS <==> size > 1024) && (k < DESCS ==> Serving(size, k))
  {
    BlockSizes();
    k := 0;
    while k < DESCS
      invariant k <= DESCS && (forall j: nat :: j < k ==> BlockSize(j) < size)
    {
      if BlockSize(k) >= size {
        assert k == 0 || k == 1 || k == 2 || k == 3 || k == 4 || k == 5 || k == 6;
        return;
      }
      k := k + 1;
    }
  }

  /** Only one descriptor serves a size, and it serves none over a kilobyte. */
  lemma ServingIsOne(size: nat, k: nat, j: nat)
    requires Serving(size, k) && Serving(size, j)
    ensures k == j && size <= 1024
  {
    BlockSizes();
    assert k == 0 || k == 1 || k == 2 || k == 3 || k == 4 || k == 5 || k == 6;
  }

  lemma PopBusy(st: State, k: nat, size: nat)
    requires Core(st) && k < DESCS && st.free[k] != [] && size <= BlockSize(k) && FrontOk(st, k)
    requires forall a :: a in st.arenas && a != st.free[k][0].page ==> Busy(st, a)
    ensures Inv(Pop(st, k, size))
  {
    var st1 := Pop(st, k, size);
    PopCore(st, k, size);
    CountBound(st, st.free[k][0].page);
    forall a | a in st1.arenas ensures Busy(st1, a) { assert a != st.free[k][0].page ==> Busy(st, a); }
  }

  lemma NewArenaFront(st: State, k: nat, page: nat)
    requires Inv(st) && k < DESCS && st.free[k] == [] && page !in st.used
    ensures var st1 := NewArena(st, k, page);
            st1.free[k] != [] && st1.free[k][0] == Block(page, 0)
            && (forall a :: a in st1.arenas && a != page ==> Busy(st1, a))
  {
    BlockSizes();
    assert PerArena(k) > 0;
    BlocksAt(page, PerArena(k), 0);
    forall a | a in st.arenas && a != page ensures Busy(NewArena(st, k, page), a) { assert Busy(st, a); }
  }

  lemma FrontIsFresh(st: State, k: nat)
    requires Core(st) && k < DESCS && st.free[k] != []
    ensures st.free[k][0] !in st.live
  {
    assert ListOk(st, k);
    assert FreeOk(st, k, st.free[k][0]);
  }

  lemma PushBusy(st: State, b: Block)
    requires Inv(st) && b in st.live && b.page in st.arenas && st.arenas[b.page].Small?
             && st.arenas[b.page].desc < DESCS
    ensures Core(Push(st, b)) && (forall a :: a in st.arenas && a != b.page ==> Busy(Push(st, b), a))
    ensures Push(st, b).arenas[b.page].freeCnt <= PerArena(st.arenas[b.page].desc)
  {
    PushCore(st, b);
    CountBound(Push(st, b), b.page);
    forall a | a in st.arenas && a != b.page ensures Busy(Push(st, b), a) { assert Busy(st, a); }
  }

  lemma ReleaseInv(st: State, a: nat)
    requires Core(st) && a in st.arenas && st.arenas[a].Small? && st.arenas[a].desc < DESCS
    requires st.arenas[a].freeCnt == PerArena(st.arenas[a].desc)
             && (forall c :: c in st.arenas && c != a ==> Busy(st, c))
    ensures Inv(Release(st, a))
  {
    ReleaseCore(st, a);
    forall c | c in st.arenas && c != a ensures Busy(Release(st, a), c) { assert Busy(st, c); }
  }

  /** Freeing the pages of a big block. */
  function ReleaseBig(st: State, a: nat): State
    requires a in st.arenas && st.arenas[a].Big?
  {
    State(st.free, st.arenas - {a}, st.used - PageRange(a, st.arenas[a].pages), st.live - {Block(a, 0)})
  }

  lemma ReleaseBigInv(st: State, a: nat)
    requires Inv(st) && a in st.arenas && st.arenas[a].Big?
    ensures Inv(ReleaseBig(st, a))
  {
    var st1, n := ReleaseBig(st, a), st.arenas[a].pages;
    forall p: nat ensures p in PageRange(a, n) <==> InArena(a, st.arenas[a], p) { PageRangeHas(a, n, p); }
    forall k: nat | k < DESCS ensures ListOk(st1, k) {
      assert ListOk(st, k);
      forall i | 0 <= i < |st1.free[k]| ensures FreeOk(st1, k, st1.free[k][i]) { assert FreeOk(st, k, st.free[k][i]); }
    }
    forall c | c in st1.arenas ensures ArenaOk(st1, c) && Busy(st1, c) {
      assert ArenaOk(st, c) && Busy(st, c) && Apart(st, a, c);
    }
    forall c, e | c in st1.arenas && e in st1.arenas ensures Apart(st1, c, e) { assert Apart(st, c, e); }
    forall x | x in st1.live ensures LiveOk(st1, x) { assert LiveOk(st, x); }
    forall c, i: nat | c in st1.arenas ensures Accounted(st1, c, i) { assert Accounted(st, c, i); }
  }

  /** The pages of an arena, as a set. */
  function ArenaPages(a: nat, arena: Arena): set<nat> {
    if arena.Small? then {a} else PageRange(a, arena.pages)
  }

  /** In an arena that is not entirely free, some caller holds a block. */
  lemma SomebodyHolds(st: State, a: nat) returns (c: Block)
    requires Core(st) && a in st.arenas && st.arenas[a].Small? && st.arenas[a].desc < DESCS && Busy(st, a)
    ensures c in st.live && c.page == a
  {
    var k := st.arenas[a].desc;
    assert ArenaOk(st, a);
    var i := Missing(Idxs(st.free[k], a), PerArena(k));
    IdxsIn(st.free[k], a, i);
    assert Accounted(st, a, i);
    c := Block(a, i);
  }
}
