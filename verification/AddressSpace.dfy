/** User memory as page tables and frames, and the loading of segments into it (`load_segment` and `install_page`,
    proj-pregame/src/userprog/process.c:324-346, 426-500, on top of proj-pregame/src/userprog/pagedir.c). To the
    process it is a finite map from page numbers to pages. */
module AddressSpace {
  import opened Basics
  import PT = PageTable
  import L = Loader

  const USER_PAGES: int := L.PHYS_BASE / L.PGSIZE

  /** Page `q` of the tables is page `q` of the map: mapped or not, its bytes and its permission. */
  ghost predicate PageAgrees(mem: PT.Memory, pd: nat, frames: map<nat, seq<Byte>>, space: L.Space, q: nat) {
    var f := PT.Translate(mem, pd, q / PT.ENTRIES, q % PT.ENTRIES);
    && (q in space <==> f.Some?)
    && (f.Some? && q in space ==>
          && f.value in frames && frames[f.value] == space[q].data
          && PT.Writable(PT.Entry(mem, pd, q / PT.ENTRIES, q % PT.ENTRIES).value) == space[q].writable)
  }

  ghost predicate Agrees(mem: PT.Memory, pd: nat, frames: map<nat, seq<Byte>>, space: L.Space) {
    && (forall q: nat :: q < USER_PAGES ==> PageAgrees(mem, pd, frames, space, q))
    && (forall q :: q in space ==> q < USER_PAGES)
  }

  lemma PageIndices(q: nat)
    requires q < USER_PAGES
    ensures PT.PdNo(q * PT.PGSIZE) == q / PT.ENTRIES < PT.USER_DIRS
            && PT.PtNo(q * PT.PGSIZE) == q % PT.ENTRIES < PT.ENTRIES
  {
  }

  /** The pages that the page allocator will hand out, in this order: for users and for the kernel. */
  ghost predicate PoolsOk(users: seq<nat>, kernels: seq<nat>, frames: set<nat>, tables: set<nat>) {
    && (forall i :: 0 <= i < |users| ==> PT.KernelPage(users[i]) && users[i] !in frames && users[i] !in tables)
    && (forall i :: 0 <= i < |kernels| ==> PT.KernelPage(kernels[i]) && kernels[i] !in frames && kernels[i] !in tables)
    && Distinct(users) && Distinct(kernels) && (forall i, j :: 0 <= i < |users| && 0 <= j < |kernels| ==>
          users[i] != kernels[j])
    && frames !! tables
  }

  /** Page `j` of a segment is the first in its directory entry, which has no table. */
  predicate NeedsTable(mem: PT.Memory, pd: nat, first: nat, j: nat) {
    (j == 0 || (first + j) % PT.ENTRIES == 0) && !PT.HasTable(mem, pd, (first + j) / PT.ENTRIES)
  }

  /** How many tables are missing for the `k` pages from `first` on. */
  function Missing(mem: PT.Memory, pd: nat, first: nat, k: nat): nat {
    if k == 0 then 0 else Missing(mem, pd, first, k - 1) + if NeedsTable(mem, pd, first, k - 1) then 1 else 0
  }

  lemma {:induction false} MissingGrows(mem: PT.Memory, pd: nat, first: nat, k: nat, n: nat)
    requires k <= n
    ensures Missing(mem, pd, first, k) <= Missing(mem, pd, first, n)
  {
    if k < n {
      MissingGrows(mem, pd, first, k, n - 1);
    }
  }

  /** After `k` pages, exactly the tables of their directory entries have been added. */
  ghost predicate TablesAdded(was: PT.Memory, mem: PT.Memory, pd: nat, first: nat, k: nat) {
    forall d: nat :: d < PT.ENTRIES ==>
      (PT.HasTable(mem, pd, d) <==>
         PT.HasTable(was, pd, d) || (k > 0 && first / PT.ENTRIES <= d <= (first + k - 1) / PT.ENTRIES))
  }

  lemma NextTable(was: PT.Memory, mem: PT.Memory, pd: nat, first: nat, j: nat)
    requires TablesAdded(was, mem, pd, first, j) && first + j < USER_PAGES
    ensures PT.HasTable(mem, pd, (first + j) / PT.ENTRIES) <==> !NeedsTable(was, pd, first, j)
  {
  }

  lemma TablesNext(was: PT.Memory, mem: PT.Memory, mem': PT.Memory, pd: nat, first: nat, j: nat)
    requires TablesAdded(was, mem, pd, first, j)
    requires forall d: nat :: d < PT.ENTRIES ==>
               (PT.HasTable(mem', pd, d) <==> PT.HasTable(mem, pd, d) || d == (first + j) / PT.ENTRIES)
    ensures TablesAdded(was, mem', pd, first, j + 1)
  {
  }

  /** One page more, in tables and map. */
  lemma AgreesNext(was: PT.Memory, mem: PT.Memory, pd: nat, frames: map<nat, seq<Byte>>, space: L.Space,
                   q: nat, kpage: nat, data: seq<Byte>, writable: bool)
    requires Agrees(was, pd, frames, space) && q < USER_PAGES && kpage !in frames
    requires PT.Translate(mem, pd, q / PT.ENTRIES, q % PT.ENTRIES) == Some(kpage)
    requires PT.Entry(mem, pd, q / PT.ENTRIES, q % PT.ENTRIES).Some?
    requires PT.Writable(PT.Entry(mem, pd, q / PT.ENTRIES, q % PT.ENTRIES).value) == writable
    requires forall d: nat, t: nat ::
               d < PT.ENTRIES && t < PT.ENTRIES && !(d == q / PT.ENTRIES && t == q % PT.ENTRIES) ==>
               && PT.Translate(mem, pd, d, t) == PT.Translate(was, pd, d, t)
               && (PT.Entry(was, pd, d, t).Some? ==> PT.Entry(mem, pd, d, t) == PT.Entry(was, pd, d, t))
    ensures Agrees(mem, pd, frames[kpage := data], space[q := L.Page(data, writable)])
  {
    var frames', space' := frames[kpage := data], space[q := L.Page(data, writable)];
    forall u: nat | u < USER_PAGES ensures PageAgrees(mem, pd, frames', space', u) {
      assert PageAgrees(was, pd, frames, space, u);
      PageIndices(u);
      assert u == u / PT.ENTRIES * PT.ENTRIES + u % PT.ENTRIES && q == q / PT.ENTRIES * PT.ENTRIES + q % PT.ENTRIES;
    }
  }

  /** A frame is in use now, and a kernel page is a table, if one was needed. */
  lemma PoolsNext(users: seq<nat>, kernels: seq<nat>, frames: set<nat>, tables: set<nat>, kpage: nat, had: bool)
    requires PoolsOk(users, kernels, frames, tables) && (had || kernels != [])
    requires kpage !in users && kpage !in kernels && kpage !in tables
    ensures PoolsOk(users, if had then kernels else kernels[1..], frames + {kpage},
                    if had then tables else tables + {kernels[0]})
  {
  }

  /** What loading depends on: the memory of the process, its tables, and the pages that are left. */
  datatype Stock = Stock(space: L.Space, mem: PT.Memory, users: seq<nat>, kernels: seq<nat>)

  /** A segment to be loaded. */
  datatype Segment = Segment(file: seq<Byte>, ofs: nat, first: nat, read: nat, writable: bool)

  /** The first `k` pages of a segment can be loaded: they are vacant, the file has their bytes, and there are pages
      for their frames and for the tables that are missing. */
  ghost predicate Loadable(was: Stock, pd: nat, g: Segment, k: nat) {
    && L.Vacant(was.space, g.first, k) && L.Enough(g.file, g.ofs, g.read, k)
    && k <= |was.users| && Missing(was.mem, pd, g.first, k) <= |was.kernels|
  }

  lemma NotLoadable(was: Stock, pd: nat, g: Segment, j: nat, n: nat)
    requires j < n && !Loadable(was, pd, g, j + 1)
    ensures !Loadable(was, pd, g, n)
  {
    MissingGrows(was.mem, pd, g.first, j + 1, n);
    if L.Enough(g.file, g.ofs, g.read, n) {
      L.EnoughBefore(g.file, g.ofs, g.read, j + 1, n);
    }
  }

  /** Memory after `k` pages of a segment. */
  ghost function LoadedPages(space: L.Space, g: Segment, k: nat): L.Space {
    L.Loaded(space, g.file, g.ofs, g.first, g.read, g.writable, k)
  }

  /** The first `k` pages have been loaded, and nothing else has happened. */
  ghost predicate Progress(was: Stock, now: Stock, pd: nat, g: Segment, k: nat) {
    && Loadable(was, pd, g, k) && now.space == LoadedPages(was.space, g, k)
    && |now.users| == |was.users| - k && |now.kernels| == |was.kernels| - Missing(was.mem, pd, g.first, k)
    && TablesAdded(was.mem, now.mem, pd, g.first, k)
  }

  /** Page `j` can be loaded now exactly if the first `j + 1` pages could be loaded at the start. */
  ghost predicate CanLoad(now: Stock, pd: nat, g: Segment, j: nat) {
    && now.users != [] && g.first + j !in now.space && HasBytes(g, j)
    && (PT.HasTable(now.mem, pd, (g.first + j) / PT.ENTRIES) || now.kernels != [])
  }

  lemma CanLoadIff(was: Stock, now: Stock, pd: nat, g: Segment, j: nat)
    requires Progress(was, now, pd, g, j) && g.first + j < USER_PAGES
    ensures CanLoad(now, pd, g, j) <==> Loadable(was, pd, g, j + 1)
  {
    BytesNext(g, j);
    SpaceNext(was, now, g, j);
    NextTable(was.mem, now.mem, pd, g.first, j);
    MissingNext(was.mem, pd, g.first, j);
  }

  /** The file has the bytes of page `j`. */
  ghost predicate HasBytes(g: Segment, j: nat) {
    L.ReadInPage(g.read, j) > 0 ==> g.ofs + j * L.PGSIZE + L.ReadInPage(g.read, j) <= |g.file|
  }

  lemma BytesNext(g: Segment, j: nat)
    ensures L.Enough(g.file, g.ofs, g.read, j + 1) <==> L.Enough(g.file, g.ofs, g.read, j) && HasBytes(g, j)
  {
    L.EnoughForPage(g.file, g.ofs, g.read, j);
  }

  lemma SpaceNext(was: Stock, now: Stock, g: Segment, j: nat)
    requires now.space == LoadedPages(was.space, g, j)
    ensures L.Vacant(was.space, g.first, j + 1) <==> L.Vacant(was.space, g.first, j) && g.first + j !in now.space
  {
    VacantNext(was.space, g.first, j);
    L.LoadedElsewhere(was.space, g.file, g.ofs, g.first, g.read, g.writable, j, g.first + j);
  }

  lemma VacantNext(space: L.Space, first: nat, j: nat)
    ensures L.Vacant(space, first, j + 1) <==> L.Vacant(space, first, j) && first + j !in space
  {
  }

  lemma MissingNext(mem: PT.Memory, pd: nat, first: nat, j: nat)
    ensures Missing(mem, pd, first, j + 1)
              == Missing(mem, pd, first, j) + if NeedsTable(mem, pd, first, j) then 1 else 0
  {
  }

  /** What loading page `j` does. */
  ghost predicate PageLoaded(now: Stock, next: Stock, pd: nat, g: Segment, j: nat) {
    var had := PT.HasTable(now.mem, pd, (g.first + j) / PT.ENTRIES);
    && next.space == now.space[g.first + j := L.Page(L.PageData(g.file, g.ofs, g.read, j), g.writable)]
    && |next.users| == |now.users| - 1 && |next.kernels| == |now.kernels| - (if had then 0 else 1)
    && forall d: nat :: d < PT.ENTRIES ==>
         (PT.HasTable(next.mem, pd, d) <==> PT.HasTable(now.mem, pd, d) || d == (g.first + j) / PT.ENTRIES)
  }

  lemma ProgressNext(was: Stock, now: Stock, next: Stock, pd: nat, g: Segment, j: nat)
    requires Progress(was, now, pd, g, j) && g.first + j < USER_PAGES && Loadable(was, pd, g, j + 1)
    requires PageLoaded(now, next, pd, g, j)
    ensures Progress(was, next, pd, g, j + 1)
  {
    NextTable(was.mem, now.mem, pd, g.first, j);
    TablesNext(was.mem, now.mem, next.mem, pd, g.first, j);
  }

  /** The byte counters never go below zero. */
  lemma PageOfBytes(readLeft: nat, zeroLeft: nat, pages: int)
    requires readLeft + zeroLeft == pages * L.PGSIZE > 0
    ensures pages > 0 && (readLeft < L.PGSIZE ==> L.PGSIZE - readLeft <= zeroLeft)
    ensures readLeft + zeroLeft - L.PGSIZE == (pages - 1) * L.PGSIZE
  {
  }

  /** The segment of a program header. */
  ghost function SegmentOf(p: L.Phdr, file: seq<Byte>): Segment {
    var pl := L.PlanOf(p);
    Segment(file, pl.filePage, pl.memPage / L.PGSIZE, pl.readBytes, p.writable)
  }

  /** There is room for the segment of `p`: nothing is mapped in the pages that it touches, its bytes are in the file,
      and there are pages for them and for the page tables that are missing. */
  ghost predicate CanHold(was: Stock, pd: nat, p: L.Phdr, fileLength: nat) {
    && p.memsz > 0 && (p.filesz > 0 ==> p.offset + p.filesz <= fileLength)
    && (forall q :: L.FirstPage(p) <= q < L.FirstPage(p) + L.PagesTouched(p) ==> q !in was.space)
    && L.PagesTouched(p) <= |was.users|
    && Missing(was.mem, pd, L.FirstPage(p), L.PagesTouched(p)) <= |was.kernels|
  }

  lemma CanHoldIff(was: Stock, pd: nat, p: L.Phdr, file: seq<Byte>)
    requires L.Is32Bit(p) && L.ValidateSegment(p, |file|)
    ensures CanHold(was, pd, p, |file|) <==> Loadable(was, pd, SegmentOf(p, file), L.PlanPages(p))
  {
    L.PlanIsExact(p, file);
  }

  class UserSpace {
    const mmu: PT.Mmu
    const pd: nat
    /** The contents of frames, by their kernel address. */
    var frames: map<nat, seq<Byte>>
    var users: seq<nat>
    var kernels: seq<nat>
    ghost var space: L.Space

    ghost predicate Valid()
      reads this, mmu
    {
      && PT.Valid(mmu.mem, pd) && Agrees(mmu.mem, pd, frames, space)
      && PoolsOk(users, kernels, frames.Keys, mmu.mem.Keys)
    }

    ghost function Now(): Stock
      reads this, mmu
    {
      Stock(space, mmu.mem, users, kernels)
    }

    constructor (mmu: PT.Mmu, pd: nat, users: seq<nat>, kernels: seq<nat>)
      requires PT.Valid(mmu.mem, pd) && (forall d: nat :: d < PT.USER_DIRS ==> mmu.mem[pd][d] == 0)
      requires PoolsOk(users, kernels, {}, mmu.mem.Keys)
      ensures Valid() && this.mmu == mmu && this.pd == pd && space == map[]
    {
      this.mmu, this.pd, this.users, this.kernels, frames, space := mmu, pd, users, kernels, map[], map[];
    }

    /** `install_page` for a frame that is not in use yet: the map gains the page, exactly if there was none and a page
        table exists or can be had; otherwise everything stays as it is. */
    method InstallPage(q: nat, kpage: nat, data: seq<Byte>, writable: bool) returns (ok: bool)
      requires Valid() && q < USER_PAGES && PT.KernelPage(kpage)
      requires kpage !in frames && kpage !in users && kpage !in kernels && kpage !in mmu.mem
      modifies this, mmu
      ensures Valid() && users == old(users) && kpage !in kernels && kpage !in mmu.mem
      ensures ok <==> q !in old(space) && (PT.HasTable(old(mmu.mem), pd, q / PT.ENTRIES) || old(kernels) != [])
      ensures space == if ok then old(space)[q := L.Page(data, writable)] else old(space)
      ensures !ok ==> frames == old(frames) && kernels == old(kernels) && mmu.mem == old(mmu.mem)
      ensures ok ==>
                && kernels == old(kernels)[if PT.HasTable(old(mmu.mem), pd, q / PT.ENTRIES) then 0 else 1..]
                && forall d: nat :: d < PT.ENTRIES ==>
                     (PT.HasTable(mmu.mem, pd, d) <==> PT.HasTable(old(mmu.mem), pd, d) || d == q / PT.ENTRIES)
    {
      PageIndices(q);
      assert PageAgrees(mmu.mem, pd, frames, space, q);
      var there := mmu.GetPage(pd, q * PT.PGSIZE);
      if there.Some? {
        return false;
      }
      var table := if kernels == [] then None else Some(kernels[0]);
      var had := PT.HasTable(mmu.mem, pd, q / PT.ENTRIES);
      ok := mmu.SetPage(pd, q * PT.PGSIZE, kpage, writable, table);
      if ok {
        if !had {
          kernels := kernels[1..];
        }
        PT.WritableIsExact(kpage, writable);
        AgreesNext(old(mmu.mem), mmu.mem, pd, frames, space, q, kpage, data, writable);
        PoolsNext(users, old(kernels), frames.Keys, old(mmu.mem).Keys, kpage, had);
        frames := frames[kpage := data];
        space := space[q := L.Page(data, writable)];
        assert frames.Keys == old(frames).Keys + {kpage};
      }
    }

    /** The body of the loop of `load_segment`: page number `j` of the segment gets a frame, is read and installed;
        when that fails, the frame goes back. `pageRead` bytes of the page come from the file. */
    method LoadPage(g: Segment, j: nat, pageRead: nat) returns (ok: bool)
      requires Valid() && g.first + j < USER_PAGES && pageRead == L.ReadInPage(g.read, j)
      modifies this, mmu
      ensures Valid() && (ok <==> CanLoad(old(Now()), pd, g, j))
      ensures if ok then PageLoaded(old(Now()), Now(), pd, g, j) else Now() == old(Now())
    {
      if users == [] {
        return false;
      }
      var kpage := users[0];
      var pos := g.ofs + j * L.PGSIZE;
      if pageRead > 0 && pos + pageRead > |g.file| {
        return false;
      }
      var data := (if pageRead == 0 then [] else g.file[pos..pos + pageRead]) + L.Zeros(L.PGSIZE - pageRead);
      assert pageRead == 0 ==> data == L.Zeros(L.PGSIZE);
      users := users[1..];
      ok := InstallPage(g.first + j, kpage, data, g.writable);
      if !ok {
        users := [kpage] + users;
        assert users == old(users);
      }
    }

    /** The same, seen from the start of the segment. */
    method LoadNext(g: Segment, j: nat, pageRead: nat, ghost was: Stock, ghost n: nat) returns (ok: bool)
      requires Valid() && j < n && g.first + n <= USER_PAGES && Progress(was, Now(), pd, g, j)
      requires pageRead == L.ReadInPage(g.read, j)
      modifies this, mmu
      ensures Valid() && Progress(was, Now(), pd, g, if ok then j + 1 else j) && (!ok ==> !Loadable(was, pd, g, n))
    {
      ghost var now := Now();
      CanLoadIff(was, now, pd, g, j);
      ok := LoadPage(g, j, pageRead);
      if ok {
        ProgressNext(was, now, Now(), pd, g, j);
      } else {
        NotLoadable(was, pd, g, j, n);
      }
    }

    /** `load_segment`, for `zero` bytes behind those of the file, `n` pages in all. It succeeds exactly when nothing
        is mapped there, the file has all bytes to be read, and there are pages for the frames and for the tables that
        are missing; then memory holds the file's bytes and zeros. When it fails, it has loaded the first `k` pages
        and touched nothing else. */
    method LoadSegment(g: Segment, zero: nat, ghost n: nat) returns (ok: bool, ghost k: nat)
      requires Valid() && g.read + zero == n * L.PGSIZE && g.first + n <= USER_PAGES
      modifies this, mmu
      ensures Valid() && (ok <==> Loadable(old(Now()), pd, g, n))
      ensures k <= n && (ok ==> k == n) && Progress(old(Now()), Now(), pd, g, k)
    {
      ghost var was := Now();
      var j, readLeft, zeroLeft := 0, g.read, zero;
      while readLeft > 0 || zeroLeft > 0
        invariant Valid() && 0 <= j <= n && 0 <= readLeft && 0 <= zeroLeft && readLeft + zeroLeft == (n - j) * L.PGSIZE
        invariant readLeft == if g.read <= j * L.PGSIZE then 0 else g.read - j * L.PGSIZE
        invariant Progress(was, Now(), pd, g, j)
        decreases n - j
      {
        var pageRead := if readLeft < L.PGSIZE then readLeft else L.PGSIZE;
        var pageZero := L.PGSIZE - pageRead;
        PageOfBytes(readLeft, zeroLeft, n - j);
        var done := LoadNext(g, j, pageRead, was, n);
        if !done {
          return false, j;
        }
        readLeft := readLeft - pageRead;
        zeroLeft := zeroLeft - pageZero;
        j := j + 1;
      }
      ok, k := true, j;
    }

    /** The PT_LOAD case of `load`. It succeeds exactly when the header is valid and its segment can be loaded; then
        memory at the segment is the file's bytes followed by zeros. Whether it succeeds or not, nothing that was
        mapped has changed, and every page that was added is a user page other than page 0, with the permissions of
        the segment. */
    method LoadHeader(p: L.Phdr, file: seq<Byte>) returns (ok: bool)
      requires Valid() && L.Is32Bit(p)
      modifies this, mmu
      ensures Valid()
      ensures ok <==> L.Acceptable(p, |file|) && CanHold(old(Now()), pd, p, |file|)
      ensures ok ==> p.offset + p.filesz <= |file|
      ensures ok ==> forall v :: p.vaddr <= v < p.vaddr + p.memsz ==>
                L.ByteOf(space, v) == if v - p.vaddr < p.filesz then file[p.offset + (v - p.vaddr)] as int else 0
      ensures forall q :: q in old(space) ==> q in space && space[q] == old(space)[q]
      ensures forall q :: q in space && q !in old(space) ==>
                1 <= q < L.PHYS_BASE / L.PGSIZE && space[q].writable == p.writable
    {
      L.ValidIff(p, |file|);
      if !L.ValidateSegment(p, |file|) {
        return false;
      }
      CanHoldIff(Now(), pd, p, file);
      L.PlanIsSound(p, |file|);
      var pl := L.PlanOf(p);
      ghost var n, k := L.PlanPages(p), 0;
      var g := Segment(file, pl.filePage, pl.memPage / L.PGSIZE, pl.readBytes, p.writable);
      ok, k := LoadSegment(g, pl.zeroBytes, n);
      forall q: nat
        ensures q in old(space) ==> q in space && space[q] == old(space)[q]
        ensures q in space && q !in old(space) ==> 1 <= q < L.PHYS_BASE / L.PGSIZE && space[q].writable == p.writable
      {
        L.PageChanged(p, file, old(space), n, k, q);
      }
      if ok {
        L.EndsInFile(p, file, n);
        forall v | p.vaddr <= v < p.vaddr + p.memsz
          ensures L.ByteOf(space, v) == if v - p.vaddr < p.filesz then file[p.offset + (v - p.vaddr)] as int else 0
        {
          L.SegmentIsLoaded(p, file, old(space), n, v);
        }
      }
    }
  }
}
