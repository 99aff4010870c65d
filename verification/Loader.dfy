/** Loading an ELF segment into user memory (proj-pregame/src/userprog/process.c:324-346, 371-464 and 493-500). The
    fields of a program header are those of section 2-2 of the ELF specification; numbers are 32 bits wide. */
module Loader {
  import opened Basics

  const PGSIZE: int := 4096
  const PHYS_BASE: int := 0xC000_0000
  const WRAP: int := 0x1_0000_0000

  datatype Phdr = Phdr(offset: nat, vaddr: nat, filesz: nat, memsz: nat, writable: bool)

  ghost predicate Is32Bit(p: Phdr) {
    p.offset < WRAP && p.vaddr < WRAP && p.filesz < WRAP && p.memsz < WRAP
  }

  /** `validate_segment`; sums wrap around. */
  predicate ValidateSegment(p: Phdr, fileLength: nat) {
    && p.offset % PGSIZE == p.vaddr % PGSIZE
    && p.offset <= fileLength
    && p.memsz >= p.filesz
    && p.memsz != 0
    && p.vaddr < PHYS_BASE
    && (p.vaddr + p.memsz) % WRAP < PHYS_BASE
    && (p.vaddr + p.memsz) % WRAP >= p.vaddr
    && p.vaddr >= PGSIZE
  }

  /** What makes a segment acceptable, in numbers that do not wrap around: it is not empty and not smaller than its part
      in the file, which starts within the file; it lies above page 0 and below the kernel; and its place in memory and
      in the file differ by whole pages. */
  ghost predicate Acceptable(p: Phdr, fileLength: nat) {
    && 0 < p.memsz && p.filesz <= p.memsz && p.offset <= fileLength
    && 0x1000 <= p.vaddr && p.vaddr + p.memsz < 0xC000_0000 && (p.vaddr - p.offset) % 0x1000 == 0
  }

  lemma ValidIff(p: Phdr, fileLength: nat)
    requires Is32Bit(p)
    ensures ValidateSegment(p, fileLength) <==> Acceptable(p, fileLength)
  {
    SamePlace(p.vaddr, p.offset);
    if p.vaddr + p.memsz < WRAP {
      NoWrap(p.vaddr + p.memsz);
    } else {
      NoWrap(p.vaddr + p.memsz - WRAP);
      assert (p.vaddr + p.memsz) % WRAP == p.vaddr + p.memsz - WRAP;
    }
  }

  lemma SamePlace(a: nat, b: nat)
    ensures a % PGSIZE == b % PGSIZE <==> (a - b) % PGSIZE == 0
  {
  }

  /** A valid segment lies in user memory above page 0, without wrapping around. */
  lemma ValidIsInside(p: Phdr, fileLength: nat)
    requires Is32Bit(p) && ValidateSegment(p, fileLength)
    ensures PGSIZE <= p.vaddr && p.vaddr + p.memsz < PHYS_BASE
  {
  }

  function RoundDown(n: nat): nat { n / PGSIZE * PGSIZE }

  function RoundUp(n: nat): nat { (n + PGSIZE - 1) / PGSIZE * PGSIZE }

  lemma RoundDownIs(n: nat)
    ensures RoundDown(n) + n % PGSIZE == n && RoundDown(n) % PGSIZE == 0
  {
  }

  lemma RoundUpIs(n: nat)
    ensures n <= RoundUp(n) < n + PGSIZE && RoundUp(n) % PGSIZE == 0
  {
  }

  lemma NoWrap(n: nat)
    requires n < WRAP
    ensures n % WRAP == n
  {
  }

  /** How a segment is loaded: lines 327-341 of process.c. */
  datatype Plan = Plan(filePage: nat, memPage: nat, readBytes: nat, zeroBytes: int)

  function PlanOf(p: Phdr): Plan {
    var pageOffset := p.vaddr % PGSIZE;
    var end := RoundUp((pageOffset + p.memsz) % WRAP) % WRAP;
    if p.filesz > 0 then
      var read := (pageOffset + p.filesz) % WRAP;
      Plan(RoundDown(p.offset), RoundDown(p.vaddr), read, (end - read) % WRAP)
    else
      Plan(RoundDown(p.offset), RoundDown(p.vaddr), 0, end)
  }

  /** For a valid segment nothing wraps, the ASSERTs of `load_segment` hold, and the pages cover the segment. */
  lemma PlanIsSound(p: Phdr, fileLength: nat)
    requires Is32Bit(p) && ValidateSegment(p, fileLength)
    ensures var pl := PlanOf(p);
            && pl.readBytes == (if p.filesz > 0 then p.vaddr % PGSIZE + p.filesz else 0)
            && 0 <= pl.zeroBytes && (pl.readBytes + pl.zeroBytes) % PGSIZE == 0
            && pl.memPage % PGSIZE == 0 && pl.filePage % PGSIZE == 0 && pl.filePage <= fileLength
            && PGSIZE <= pl.memPage && p.vaddr + p.memsz <= pl.memPage + pl.readBytes + pl.zeroBytes <= PHYS_BASE
            && pl.memPage + pl.readBytes + pl.zeroBytes < p.vaddr + p.memsz + PGSIZE
            && p.vaddr - pl.memPage == p.offset - pl.filePage == p.vaddr % PGSIZE
  {
    ValidIsInside(p, fileLength);
    RoundDownIs(p.vaddr);
    RoundDownIs(p.offset);
    var size := p.vaddr % PGSIZE + p.memsz;
    assert size <= p.vaddr + p.memsz < PHYS_BASE;
    NoWrap(size);
    RoundUpIs(size);
    NoWrap(RoundUp(size));
    NoWrap(p.vaddr % PGSIZE + p.filesz);
    var end := RoundUp(size);
    if p.filesz > 0 {
      NoWrap(end - (p.vaddr % PGSIZE + p.filesz));
    }
    PageBound(RoundDown(p.vaddr), p.vaddr, p.memsz, end);
  }

  /** Whole pages that start below PHYS_BASE and hold something below PHYS_BASE end there at the latest. */
  lemma PageBound(memPage: nat, vaddr: nat, memsz: nat, end: nat)
    requires memPage % PGSIZE == 0 && end % PGSIZE == 0 && PGSIZE <= vaddr
    requires memPage <= vaddr < memPage + PGSIZE && vaddr + memsz < PHYS_BASE && memPage + end < vaddr + memsz + PGSIZE
    ensures memPage + end <= PHYS_BASE && PGSIZE <= memPage
  {
  }

  /* ---- Loading pages ---- */

  datatype Page = Page(data: seq<Byte>, writable: bool)

  /** User memory: page numbers to pages. */
  type Space = map<nat, Page>

  function Zeros(n: nat): (z: seq<Byte>)
    ensures |z| == n && (forall i :: 0 <= i < n ==> z[i] == 0)
  {
    if n == 0 then [] else Zeros(n - 1) + [0]
  }

  /** How many of `read` bytes fall into page `j`. */
  function ReadInPage(read: nat, j: nat): nat {
    if read <= j * PGSIZE then 0 else if read < j * PGSIZE + PGSIZE then read - j * PGSIZE else PGSIZE
  }

  /** The contents of page `j`: bytes of the file, as long as it has them, then zeros. */
  function PageData(file: seq<Byte>, ofs: nat, read: nat, j: nat): (d: seq<Byte>)
    ensures |d| == PGSIZE
  {
    var n, pos := ReadInPage(read, j), ofs + j * PGSIZE;
    if n == 0 || pos + n > |file| then Zeros(PGSIZE) else file[pos..pos + n] + Zeros(PGSIZE - n)
  }

  /** The file has all bytes that go into the first `k` pages. */
  predicate Enough(file: seq<Byte>, ofs: nat, read: nat, k: nat) {
    var n := if read < k * PGSIZE then read else k * PGSIZE;
    n > 0 ==> ofs + n <= |file|
  }

  lemma EnoughForPage(file: seq<Byte>, ofs: nat, read: nat, j: nat)
    ensures Enough(file, ofs, read, j + 1) <==>
              Enough(file, ofs, read, j)
              && (ReadInPage(read, j) > 0 ==> ofs + j * PGSIZE + ReadInPage(read, j) <= |file|)
  {
  }

  /** Byte `b` of page `j` is a byte of the file or zero, as its place in the segment says. */
  lemma PageByte(file: seq<Byte>, ofs: nat, read: nat, j: nat, b: nat)
    requires b < PGSIZE && Enough(file, ofs, read, j + 1)
    ensures j * PGSIZE + b < read ==> ofs + j * PGSIZE + b < |file|
    ensures PageData(file, ofs, read, j)[b] == if j * PGSIZE + b < read then file[ofs + j * PGSIZE + b] else 0
  {
    EnoughForPage(file, ofs, read, j);
  }

  /** Memory after `k` pages from page `first` on. */
  function Loaded(space: Space, file: seq<Byte>, ofs: nat, first: nat, read: nat, writable: bool, k: nat): Space {
    if k == 0 then space
    else
      Loaded(space, file, ofs, first, read, writable, k - 1)
        [first + k - 1 := Page(PageData(file, ofs, read, k - 1), writable)]
  }

  lemma EnoughBefore(file: seq<Byte>, ofs: nat, read: nat, j: nat, k: nat)
    requires Enough(file, ofs, read, k) && j <= k
    ensures Enough(file, ofs, read, j)
  {
  }

  /** Outside the loaded pages nothing changes. */
  lemma {:induction false} LoadedElsewhere(space: Space, file: seq<Byte>, ofs: nat, first: nat, read: nat,
                                           writable: bool, k: nat, q: nat)
    requires !(first <= q < first + k)
    ensures var r := Loaded(space, file, ofs, first, read, writable, k);
            (q in r <==> q in space) && (q in space ==> r[q] == space[q])
  {
    if k > 0 {
      LoadedElsewhere(space, file, ofs, first, read, writable, k - 1, q);
    }
  }

  lemma {:induction false} LoadedAt(space: Space, file: seq<Byte>, ofs: nat, first: nat, read: nat, writable: bool,
                                    k: nat, j: nat)
    requires j < k
    ensures var r := Loaded(space, file, ofs, first, read, writable, k);
            first + j in r && r[first + j] == Page(PageData(file, ofs, read, j), writable)
  {
    if j < k - 1 {
      LoadedAt(space, file, ofs, first, read, writable, k - 1, j);
    }
  }

  /** The byte at address `v`, or -1 if nothing is mapped there. */
  function ByteOf(space: Space, v: nat): int {
    if v / PGSIZE in space && |space[v / PGSIZE].data| == PGSIZE then space[v / PGSIZE].data[v % PGSIZE] else -1
  }

  /** Nothing is mapped in the `k` pages from `first` on. */
  ghost predicate Vacant(space: Space, first: nat, k: nat) {
    forall q :: first <= q < first + k ==> q !in space
  }

  /** The number of pages of a segment. */
  function PlanPages(p: Phdr): nat {
    var pl := PlanOf(p);
    (pl.readBytes + pl.zeroBytes) / PGSIZE
  }

  /** The pages that a segment touches: the first, and how many. */
  function FirstPage(p: Phdr): nat { p.vaddr / 0x1000 }

  function PagesTouched(p: Phdr): nat
    requires p.memsz > 0
  {
    (p.vaddr + p.memsz - 1) / 0x1000 - p.vaddr / 0x1000 + 1
  }

  /** A valid segment is loaded into exactly the pages that it touches, and needs exactly its bytes of the file. */
  lemma PlanIsExact(p: Phdr, file: seq<Byte>)
    requires Is32Bit(p) && ValidateSegment(p, |file|)
    ensures PlanOf(p).memPage / PGSIZE == FirstPage(p) && PlanPages(p) == PagesTouched(p)
    ensures Enough(file, PlanOf(p).filePage, PlanOf(p).readBytes, PlanPages(p)) <==>
              (p.filesz > 0 ==> p.offset + p.filesz <= |file|)
  {
    PlanIsSound(p, |file|);
    var pl := PlanOf(p);
    RoundDownIs(p.vaddr);
    PagesBetween(pl.memPage, p.vaddr + p.memsz - 1, (pl.readBytes + pl.zeroBytes) / PGSIZE);
  }

  lemma PagesBetween(memPage: nat, last: nat, n: nat)
    requires memPage % PGSIZE == 0 && n > 0 && memPage + (n - 1) * PGSIZE <= last < memPage + n * PGSIZE
    ensures last / PGSIZE == memPage / PGSIZE + n - 1
  {
  }

  lemma PlaceInPages(memPage: nat, n: nat, v: nat)
    requires memPage % PGSIZE == 0 && memPage <= v < memPage + n * PGSIZE
    ensures var j := v / PGSIZE - memPage / PGSIZE; 0 <= j < n && j * PGSIZE + v % PGSIZE == v - memPage
  {
  }

  /** The whole way from a program header to memory: for a valid header whose segment was loaded, memory at the segment
      is the file's bytes followed by zeros; every page that was added lies in user memory above page 0. */
  lemma SegmentIsLoaded(p: Phdr, file: seq<Byte>, space: Space, n: nat, v: nat)
    requires Is32Bit(p) && ValidateSegment(p, |file|) && p.vaddr <= v < p.vaddr + p.memsz
    requires var pl := PlanOf(p);
             pl.readBytes + pl.zeroBytes == n * PGSIZE && Enough(file, pl.filePage, pl.readBytes, n)
    ensures var pl := PlanOf(p);
            var r := Loaded(space, file, pl.filePage, pl.memPage / PGSIZE, pl.readBytes, p.writable, n);
            && v / PGSIZE in r && r[v / PGSIZE].writable == p.writable && |r[v / PGSIZE].data| == PGSIZE
            && (v - p.vaddr < p.filesz ==> p.offset + (v - p.vaddr) < |file|)
            && r[v / PGSIZE].data[v % PGSIZE] == if v - p.vaddr < p.filesz then file[p.offset + (v - p.vaddr)] else 0
  {
    var pl := PlanOf(p);
    PlanIsSound(p, |file|);
    var first, j := pl.memPage / PGSIZE, v / PGSIZE - pl.memPage / PGSIZE;
    PlaceInPages(pl.memPage, n, v);
    EnoughBefore(file, pl.filePage, pl.readBytes, j + 1, n);
    PageByte(file, pl.filePage, pl.readBytes, j, v % PGSIZE);
    LoadedAt(space, file, pl.filePage, first, pl.readBytes, p.writable, n, j);
  }

  lemma PagesAreInside(p: Phdr, fileLength: nat, n: nat, j: nat)
    requires Is32Bit(p) && ValidateSegment(p, fileLength)
    requires var pl := PlanOf(p); pl.readBytes + pl.zeroBytes == n * PGSIZE && j < n
    ensures 1 <= PlanOf(p).memPage / PGSIZE + j < PHYS_BASE / PGSIZE
  {
    PlanIsSound(p, fileLength);
  }

  lemma EndsInFile(p: Phdr, file: seq<Byte>, n: nat)
    requires Is32Bit(p) && ValidateSegment(p, |file|)
    requires var pl := PlanOf(p);
             pl.readBytes + pl.zeroBytes == n * PGSIZE && Enough(file, pl.filePage, pl.readBytes, n)
    ensures p.offset + p.filesz <= |file|
  {
    PlanIsSound(p, |file|);
  }

  lemma PageChanged(p: Phdr, file: seq<Byte>, space: Space, n: nat, k: nat, q: nat)
    requires Is32Bit(p) && ValidateSegment(p, |file|) && k <= n
    requires var pl := PlanOf(p); pl.readBytes + pl.zeroBytes == n * PGSIZE
    requires Vacant(space, PlanOf(p).memPage / PGSIZE, k)
    ensures var pl := PlanOf(p);
            var r := Loaded(space, file, pl.filePage, pl.memPage / PGSIZE, pl.readBytes, p.writable, k);
            && (q in space ==> q in r && r[q] == space[q])
            && (q in r && q !in space ==> 1 <= q < PHYS_BASE / PGSIZE && r[q].writable == p.writable)
  {
    var pl := PlanOf(p);
    var first := pl.memPage / PGSIZE;
    if first <= q < first + k {
      LoadedAt(space, file, pl.filePage, first, pl.readBytes, p.writable, k, q - first);
      PagesAreInside(p, |file|, n, q - first);
    } else {
      LoadedElsewhere(space, file, pl.filePage, first, pl.readBytes, p.writable, k, q);
    }
  }
}
