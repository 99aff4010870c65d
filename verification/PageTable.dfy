/** Two-level page tables (proj-pregame/src/userprog/pagedir.c and proj-pregame/src/threads/pte.h). Entries are 32-bit
    words in the format of section 3.7.6 of the IA-32 manual, volume 3A; user memory is what lies below PHYS_BASE. */
module PageTable {
  import opened Basics

  const PGSIZE: int := 4096
  const PHYS_BASE: int := 0xC000_0000
  const ENTRIES: int := 1024
  const WRAP: int := 0x1_0000_0000
  /** `pd_no(PHYS_BASE)`. */
  const USER_DIRS: int := 768

  /* ---- Entries ---- */

  predicate Present(e: nat) { e % 2 == 1 }
  predicate Writable(e: nat) { e / 2 % 2 == 1 }
  predicate Accessed(e: nat) { e / 32 % 2 == 1 }
  predicate Dirty(e: nat) { e / 64 % 2 == 1 }

  /** `ptov(e & PTE_ADDR)`: `pde_get_pt` and `pte_get_page`. */
  function PageOf(e: nat): nat { e / PGSIZE * PGSIZE + PHYS_BASE }

  /** `pde_create`: user, writable, present. */
  function PdeCreate(pt: nat): nat
    requires PHYS_BASE <= pt
  {
    pt - PHYS_BASE + 7
  }

  /** `pte_create_user`. */
  function PteCreateUser(page: nat, writable: bool): nat
    requires PHYS_BASE <= page
  {
    page - PHYS_BASE + 1 + (if writable then 2 else 0) + 4
  }

  /** User code may use the page. */
  predicate User(e: nat) { e / 4 % 2 == 1 }

  function SetDirtyBit(e: nat, dirty: bool): nat {
    if Dirty(e) == dirty then e else if dirty then e + 64 else e - 64
  }

  function SetAccessedBit(e: nat, accessed: bool): nat {
    if Accessed(e) == accessed then e else if accessed then e + 32 else e - 32
  }

  function ClearPresent(e: nat): nat { if Present(e) then e - 1 else e }

  ghost predicate KernelPage(p: nat) { PHYS_BASE <= p && p % PGSIZE == 0 }

  /** A word by its bits: above the dirty bit, dirty, accessed, below. */
  function Bits(h: nat, d: nat, a: nat, r: nat): nat { h * 128 + d * 64 + a * 32 + r }

  lemma FlagsRead(h: nat, d: nat, a: nat, r: nat)
    requires d < 2 && a < 2 && r < 32
    ensures var e := Bits(h, d, a, r); (Dirty(e) <==> d == 1) && (Accessed(e) <==> a == 1) && Present(e) == Present(r)
  {
    var e := Bits(h, d, a, r);
    Over64(e, h * 2 + d, a * 32 + r);
    Over32(e, h * 4 + d * 2 + a, r);
    Odd(h, d);
    Odd(h * 2 + d, a);
  }

  lemma Over64(e: nat, q: nat, r: nat)
    requires e == q * 64 + r && r < 64
    ensures e / 64 == q
  {
  }

  lemma Over32(e: nat, q: nat, r: nat)
    requires e == q * 32 + r && r < 32
    ensures e / 32 == q && e % 2 == r % 2
  {
  }

  lemma Odd(h: nat, d: nat)
    requires d < 2
    ensures (h * 2 + d) % 2 == d
  {
  }

  lemma FrameRead(h: nat, d: nat, a: nat, r: nat)
    requires d < 2 && a < 2 && r < 32
    ensures PageOf(Bits(h, d, a, r)) == h / 32 * PGSIZE + PHYS_BASE
  {
  }

  lemma BitsOf(e: nat)
    ensures e == Bits(e / 128, e / 64 % 2, e / 32 % 2, e % 32)
  {
    var a := e / 32;
    var d := a / 2;
    assert e == a * 32 + e % 32 && a == d * 2 + a % 2 && d == d / 2 * 2 + d % 2;
    Halved(e);
  }

  lemma Halved(e: nat)
    ensures e / 64 == e / 32 / 2 && e / 128 == e / 32 / 2 / 2
  {
  }

  ghost function Digit(b: bool): nat { if b then 1 else 0 }

  lemma EntryIsExact(page: nat, writable: bool)
    requires KernelPage(page)
    ensures var e := PteCreateUser(page, writable); Present(e) && !Dirty(e) && !Accessed(e) && PageOf(e) == page
    ensures Present(PdeCreate(page)) && PageOf(PdeCreate(page)) == page && PdeCreate(page) != 0
  {
    var k := page / PGSIZE - PHYS_BASE / PGSIZE;
    assert page - PHYS_BASE == k * PGSIZE;
    var f := if writable then 7 else 5;
    assert PteCreateUser(page, writable) == Bits(k * 32, 0, 0, f) && PdeCreate(page) == Bits(k * 32, 0, 0, 7);
    FlagsRead(k * 32, 0, 0, f);
    FrameRead(k * 32, 0, 0, f);
    FlagsRead(k * 32, 0, 0, 7);
    FrameRead(k * 32, 0, 0, 7);
  }

  lemma WritableIsExact(page: nat, writable: bool)
    requires KernelPage(page)
    ensures Writable(PteCreateUser(page, writable)) == writable && User(PteCreateUser(page, writable))
    ensures Writable(PdeCreate(page)) && User(PdeCreate(page))
  {
    var k := (page - PHYS_BASE) / PGSIZE;
    assert page - PHYS_BASE == k * PGSIZE;
    LowBits(k, 7);
    LowBits(k, 5);
  }

  lemma LowBits(k: nat, r: nat)
    requires r < 8
    ensures (k * PGSIZE + r) / 2 % 2 == r / 2 % 2 && (k * PGSIZE + r) / 4 % 2 == r / 4 % 2
  {
    Quotient2(k * 2048 + r / 2, r % 2);
    Quotient4(k * 1024 + r / 4, r % 4);
    Even(k * 1024, r / 2);
    Even(k * 512, r / 4);
  }

  lemma Quotient2(a: nat, b: nat)
    requires b < 2
    ensures (2 * a + b) / 2 == a
  {
  }

  lemma Quotient4(a: nat, b: nat)
    requires b < 4
    ensures (4 * a + b) / 4 == a
  {
  }

  lemma Even(a: nat, b: nat)
    ensures (2 * a + b) % 2 == b % 2
  {
  }

  lemma DirtyIsExact(e: nat, b: bool)
    ensures var d := SetDirtyBit(e, b);
            Dirty(d) == b && Accessed(d) == Accessed(e) && Present(d) == Present(e) && PageOf(d) == PageOf(e)
  {
    var h, a, r := e / 128, e / 32 % 2, e % 32;
    BitsOf(e);
    FlagsRead(h, e / 64 % 2, a, r);
    FrameRead(h, e / 64 % 2, a, r);
    assert SetDirtyBit(e, b) == Bits(h, Digit(b), a, r);
    FlagsRead(h, Digit(b), a, r);
    FrameRead(h, Digit(b), a, r);
  }

  lemma AccessedIsExact(e: nat, b: bool)
    ensures var d := SetAccessedBit(e, b);
            Accessed(d) == b && Dirty(d) == Dirty(e) && Present(d) == Present(e) && PageOf(d) == PageOf(e)
  {
    var h, d, r := e / 128, e / 64 % 2, e % 32;
    BitsOf(e);
    FlagsRead(h, d, e / 32 % 2, r);
    FrameRead(h, d, e / 32 % 2, r);
    assert SetAccessedBit(e, b) == Bits(h, d, Digit(b), r);
    FlagsRead(h, d, Digit(b), r);
    FrameRead(h, d, Digit(b), r);
  }

  lemma ClearIsExact(e: nat)
    ensures var c := ClearPresent(e);
            !Present(c) && Dirty(c) == Dirty(e) && Accessed(c) == Accessed(e) && PageOf(c) == PageOf(e)
  {
    var h, d, a, r := e / 128, e / 64 % 2, e / 32 % 2, e % 32;
    BitsOf(e);
    FlagsRead(h, d, a, r);
    FrameRead(h, d, a, r);
    assert ClearPresent(e) == Bits(h, d, a, ClearPresent(r));
    FlagsRead(h, d, a, ClearPresent(r));
    FrameRead(h, d, a, ClearPresent(r));
  }

  /* ---- Tables in memory ---- */

  /** Pages that hold a directory or a table: kernel addresses to their words. */
  type Memory = map<nat, seq<nat>>

  /** `pd_no` and `pt_no`. */
  function PdNo(v: nat): nat { v / 0x40_0000 }

  function PtNo(v: nat): nat { v / PGSIZE % ENTRIES }

  lemma IndexIsExact(v: nat, w: nat)
    requires v < WRAP && w < WRAP
    ensures PdNo(v) < ENTRIES && PtNo(v) < ENTRIES && (v < PHYS_BASE ==> PdNo(v) < USER_DIRS)
    ensures PdNo(v) == PdNo(w) && PtNo(v) == PtNo(w) <==> v / PGSIZE == w / PGSIZE
  {
    assert PdNo(v) == v / PGSIZE / ENTRIES && PdNo(w) == w / PGSIZE / ENTRIES;
  }

  ghost predicate TableAt(mem: Memory, a: nat) { a in mem && |mem[a]| == ENTRIES && KernelPage(a) }

  /** Entry `d` of the directory is empty or leads to a table. */
  ghost predicate EntryOk(mem: Memory, pd: nat, d: nat)
    requires TableAt(mem, pd) && d < ENTRIES
  {
    mem[pd][d] != 0 ==> Present(mem[pd][d]) && TableAt(mem, PageOf(mem[pd][d])) && PageOf(mem[pd][d]) != pd
  }

  /** Each entry of the directory has a table of its own. */
  ghost predicate Valid(mem: Memory, pd: nat) {
    && TableAt(mem, pd)
    && (forall d: nat :: d < ENTRIES ==> EntryOk(mem, pd, d))
    && (forall d: nat, c: nat ::
          d < ENTRIES && c < ENTRIES && d != c && mem[pd][d] != 0 && mem[pd][c] != 0 ==>
            PageOf(mem[pd][d]) != PageOf(mem[pd][c]))
  }

  /** Entry `d` of the directory leads to a table. */
  predicate HasTable(mem: Memory, pd: nat, d: nat) { pd in mem && d < |mem[pd]| && mem[pd][d] != 0 }

  /** The word for entry `t` of table `d`, if there is such a table. */
  function Entry(mem: Memory, pd: nat, d: nat, t: nat): Option<nat> {
    if pd in mem && d < |mem[pd]| && mem[pd][d] != 0 && PageOf(mem[pd][d]) in mem && t < |mem[PageOf(mem[pd][d])]|
    then Some(mem[PageOf(mem[pd][d])][t]) else None
  }

  /** What a directory means: a partial map from user pages to frames. */
  function Translate(mem: Memory, pd: nat, d: nat, t: nat): Option<nat> {
    match Entry(mem, pd, d, t)
    case None => None
    case Some(e) => if Present(e) then Some(PageOf(e)) else None
  }

  function Put(s: seq<nat>, i: nat, e: nat): seq<nat>
    requires i < |s|
  {
    s[i := e]
  }

  /** Memory with one word of a table replaced. */
  function Poke(mem: Memory, pt: nat, t: nat, e: nat): Memory
    requires pt in mem && t < |mem[pt]|
  {
    mem[pt := Put(mem[pt], t, e)]
  }

  /** Writing an entry changes that entry only. */
  lemma PokeEntry(mem: Memory, pd: nat, d: nat, t: nat, e: nat, d': nat, t': nat)
    requires Valid(mem, pd) && d < ENTRIES && t < ENTRIES && mem[pd][d] != 0 && d' < ENTRIES && t' < ENTRIES
    ensures TableAt(mem, PageOf(mem[pd][d]))
    ensures Entry(Poke(mem, PageOf(mem[pd][d]), t, e), pd, d', t')
              == if d' == d && t' == t then Some(e) else Entry(mem, pd, d', t')
  {
    assert EntryOk(mem, pd, d) && EntryOk(mem, pd, d');
  }

  lemma PokeValid(mem: Memory, pd: nat, d: nat, t: nat, e: nat)
    requires Valid(mem, pd) && d < ENTRIES && t < ENTRIES && mem[pd][d] != 0
    ensures TableAt(mem, PageOf(mem[pd][d])) && Valid(Poke(mem, PageOf(mem[pd][d]), t, e), pd)
  {
    assert EntryOk(mem, pd, d);
    var mem' := Poke(mem, PageOf(mem[pd][d]), t, e);
    forall c: nat | c < ENTRIES ensures EntryOk(mem', pd, c) { assert EntryOk(mem, pd, c); }
  }

  function ZeroTable(): (s: seq<nat>)
    ensures |s| == ENTRIES && (forall i :: 0 <= i < ENTRIES ==> s[i] == 0)
  {
    seq(ENTRIES, _ => 0)
  }

  /** Memory with a new, empty table for directory entry `d`. */
  function Grown(mem: Memory, pd: nat, d: nat, pt: nat): Memory
    requires TableAt(mem, pd) && d < USER_DIRS && KernelPage(pt)
  {
    mem[pd := Put(mem[pd], d, PdeCreate(pt))][pt := ZeroTable()]
  }

  lemma GrownValid(mem: Memory, pd: nat, d: nat, pt: nat)
    requires Valid(mem, pd) && d < USER_DIRS && KernelPage(pt) && pt !in mem && mem[pd][d] == 0
    ensures Valid(Grown(mem, pd, d, pt), pd)
  {
    var mem' := Grown(mem, pd, d, pt);
    EntryIsExact(pt, true);
    forall c: nat | c < ENTRIES
      ensures EntryOk(mem', pd, c) && (c != d && mem[pd][c] != 0 ==> PageOf(mem[pd][c]) != pt) {
      assert EntryOk(mem, pd, c);
    }
  }

  /** A new table maps nothing. */
  lemma GrownSame(mem: Memory, pd: nat, d: nat, pt: nat, d': nat, t': nat)
    requires Valid(mem, pd) && d < USER_DIRS && KernelPage(pt) && pt !in mem && mem[pd][d] == 0 && d' < ENTRIES
             && t' < ENTRIES
    ensures Translate(Grown(mem, pd, d, pt), pd, d', t') == Translate(mem, pd, d', t')
    ensures Entry(mem, pd, d', t').Some? ==> Entry(Grown(mem, pd, d, pt), pd, d', t') == Entry(mem, pd, d', t')
  {
    EntryIsExact(pt, true);
    assert EntryOk(mem, pd, d');
  }

  /* ---- The operations ---- */

  class Mmu {
    var mem: Memory

    /** `pagedir_create`: `pd` is a copy of the initial directory, which has no user entries. */
    constructor (pd: nat, mem: Memory)
      requires Valid(mem, pd) && (forall d: nat :: d < USER_DIRS ==> mem[pd][d] == 0)
      ensures this.mem == mem
              && (forall d: nat, t: nat :: d < USER_DIRS && t < ENTRIES ==> Translate(mem, pd, d, t) == None)
    {
      this.mem := mem;
    }

    /** `lookup_page`: the table and index for an address; tables are created for user addresses only. `page` is what
        `palloc_get_page` would return. */
    method LookupPage(pd: nat, v: nat, create: bool, page: Option<nat>) returns (r: Option<nat>)
      requires Valid(mem, pd) && v < WRAP && (create ==> v < PHYS_BASE)
      requires page.Some? ==> KernelPage(page.value) && page.value !in mem
      modifies this
      ensures Valid(mem, pd) && PdNo(v) < ENTRIES && PtNo(v) < ENTRIES
      ensures forall d: nat, t: nat :: d < ENTRIES && t < ENTRIES && Entry(old(mem), pd, d, t).Some? ==>
                Entry(mem, pd, d, t) == Entry(old(mem), pd, d, t)
      ensures forall d: nat, t: nat ::
                d < ENTRIES && t < ENTRIES ==> Translate(mem, pd, d, t) == Translate(old(mem), pd, d, t)
      ensures r.Some? ==> mem[pd][PdNo(v)] != 0 && r.value == PageOf(mem[pd][PdNo(v)])
      ensures !create ==> mem == old(mem) && (r.None? <==> mem[pd][PdNo(v)] == 0)
      ensures create ==> (r.None? <==> old(mem)[pd][PdNo(v)] == 0 && page.None?)
      ensures r.None? ==> mem == old(mem)
      ensures var grown := create && page.Some? && !HasTable(old(mem), pd, PdNo(v));
              && mem.Keys == old(mem).Keys + (if grown then {page.value} else {})
              && forall d: nat :: d < ENTRIES ==>
                   (HasTable(mem, pd, d) <==> HasTable(old(mem), pd, d) || (grown && d == PdNo(v)))
    {
      IndexIsExact(v, v);
      var d := PdNo(v);
      if mem[pd][d] == 0 {
        if !create || page.None? {
          return None;
        }
        GrownValid(mem, pd, d, page.value);
        forall d': nat, t': nat | d' < ENTRIES && t' < ENTRIES
          ensures Translate(Grown(mem, pd, d, page.value), pd, d', t') == Translate(mem, pd, d', t')
          ensures Entry(mem, pd, d', t').Some? ==>
                    Entry(Grown(mem, pd, d, page.value), pd, d', t') == Entry(mem, pd, d', t')
        {
          GrownSame(mem, pd, d, page.value, d', t');
        }
        EntryIsExact(page.value, true);
        mem := Grown(mem, pd, d, page.value);
      }
      r := Some(PageOf(mem[pd][d]));
    }

    /** `pagedir_set_page`: the map gains one page, or stays as it is when no table can be had. */
    method SetPage(pd: nat, upage: nat, kpage: nat, writable: bool, page: Option<nat>) returns (ok: bool)
      requires Valid(mem, pd) && upage < PHYS_BASE && KernelPage(kpage)
               && (page.Some? ==> KernelPage(page.value) && page.value !in mem)
      requires Translate(mem, pd, PdNo(upage), PtNo(upage)) == None
      modifies this
      ensures Valid(mem, pd) && (ok <==> page.Some? || (PdNo(upage) < ENTRIES && old(mem)[pd][PdNo(upage)] != 0))
      ensures ok ==> Entry(mem, pd, PdNo(upage), PtNo(upage)) == Some(PteCreateUser(kpage, writable))
      ensures forall d: nat, t: nat ::
                d < ENTRIES && t < ENTRIES && !(d == PdNo(upage) && t == PtNo(upage))
                && Entry(old(mem), pd, d, t).Some? ==>
                  Entry(mem, pd, d, t) == Entry(old(mem), pd, d, t)
      ensures forall d: nat, t: nat :: d < ENTRIES && t < ENTRIES ==>
                Translate(mem, pd, d, t)
                  == if ok && d == PdNo(upage) && t == PtNo(upage) then Some(kpage) else Translate(old(mem), pd, d, t)
      ensures !ok ==> mem == old(mem)
      ensures var grown := page.Some? && !HasTable(old(mem), pd, PdNo(upage));
              && mem.Keys == old(mem).Keys + (if grown then {page.value} else {})
              && forall d: nat :: d < ENTRIES ==>
                   (HasTable(mem, pd, d) <==> HasTable(old(mem), pd, d) || (grown && d == PdNo(upage)))
    {
      var pt := LookupPage(pd, upage, true, page);
      ok := pt.Some?;
      if ok {
        var d, t, e := PdNo(upage), PtNo(upage), PteCreateUser(kpage, writable);
        EntryIsExact(kpage, writable);
        PokeTranslates(mem, pd, d, t, e);
        assert EntryOk(mem, pd, d);
        mem := Poke(mem, pt.value, t, e);
      }
    }

    /** `pagedir_get_page`: the kernel address for a user address. */
    method GetPage(pd: nat, uaddr: nat) returns (r: Option<nat>)
      requires Valid(mem, pd) && uaddr < PHYS_BASE
      modifies this
      ensures mem == old(mem)
      ensures r == match Translate(mem, pd, PdNo(uaddr), PtNo(uaddr))
                   case None => None
                   case Some(k) => Some(k + uaddr % PGSIZE)
    {
      var pt := LookupPage(pd, uaddr, false, None);
      if pt.Some? {
        assert EntryOk(mem, pd, PdNo(uaddr));
        var e := mem[pt.value][PtNo(uaddr)];
        if Present(e) {
          return Some(PageOf(e) + uaddr % PGSIZE);
        }
      }
      r := None;
    }

    /** `pagedir_clear_page`: the map loses one page, if it has it. */
    method ClearPage(pd: nat, upage: nat)
      requires Valid(mem, pd) && upage < PHYS_BASE
      modifies this
      ensures Valid(mem, pd)
      ensures forall d: nat, t: nat :: d < ENTRIES && t < ENTRIES ==>
                Translate(mem, pd, d, t)
                  == if d == PdNo(upage) && t == PtNo(upage) then None else Translate(old(mem), pd, d, t)
    {
      var pt := LookupPage(pd, upage, false, None);
      if pt.Some? {
        var d, t := PdNo(upage), PtNo(upage);
        assert EntryOk(mem, pd, d);
        var e := mem[pt.value][t];
        if Present(e) {
          ClearIsExact(e);
          PokeTranslates(mem, pd, d, t, ClearPresent(e));
          mem := Poke(mem, pt.value, t, ClearPresent(e));
        }
      }
    }

    /** `pagedir_is_dirty`. */
    method IsDirty(pd: nat, v: nat) returns (dirty: bool)
      requires Valid(mem, pd) && v < WRAP
      modifies this
      ensures mem == old(mem)
      ensures dirty <==> Entry(mem, pd, PdNo(v), PtNo(v)).Some? && Dirty(Entry(mem, pd, PdNo(v), PtNo(v)).value)
    {
      var pt := LookupPage(pd, v, false, None);
      if pt.Some? {
        assert EntryOk(mem, pd, PdNo(v));
        return Dirty(mem[pt.value][PtNo(v)]);
      }
      dirty := false;
    }

    /** `pagedir_set_dirty`: no translation changes, and no other bit of any entry. */
    method SetDirty(pd: nat, v: nat, dirty: bool)
      requires Valid(mem, pd) && v < WRAP
      modifies this
      ensures Valid(mem, pd)
      ensures forall d: nat, t: nat ::
                d < ENTRIES && t < ENTRIES ==> Translate(mem, pd, d, t) == Translate(old(mem), pd, d, t)
      ensures forall d: nat, t: nat ::
                d < ENTRIES && t < ENTRIES && !(d == PdNo(v) && t == PtNo(v)) ==>
                  Entry(mem, pd, d, t) == Entry(old(mem), pd, d, t)
      ensures var o, e := Entry(old(mem), pd, PdNo(v), PtNo(v)), Entry(mem, pd, PdNo(v), PtNo(v));
              e.Some? == o.Some? && (e.Some? ==> Dirty(e.value) == dirty && Accessed(e.value) == Accessed(o.value))
    {
      var pt := LookupPage(pd, v, false, None);
      if pt.Some? {
        var d, t := PdNo(v), PtNo(v);
        assert EntryOk(mem, pd, d);
        var e := mem[pt.value][t];
        DirtyIsExact(e, dirty);
        PokeTranslates(mem, pd, d, t, SetDirtyBit(e, dirty));
        mem := Poke(mem, pt.value, t, SetDirtyBit(e, dirty));
      }
    }

    /** `pagedir_is_accessed`. */
    method IsAccessed(pd: nat, v: nat) returns (accessed: bool)
      requires Valid(mem, pd) && v < WRAP
      modifies this
      ensures mem == old(mem)
      ensures accessed <==> Entry(mem, pd, PdNo(v), PtNo(v)).Some? && Accessed(Entry(mem, pd, PdNo(v), PtNo(v)).value)
    {
      var pt := LookupPage(pd, v, false, None);
      if pt.Some? {
        assert EntryOk(mem, pd, PdNo(v));
        return Accessed(mem[pt.value][PtNo(v)]);
      }
      accessed := false;
    }

    /** `pagedir_set_accessed`. */
    method SetAccessed(pd: nat, v: nat, accessed: bool)
      requires Valid(mem, pd) && v < WRAP
      modifies this
      ensures Valid(mem, pd)
      ensures forall d: nat, t: nat ::
                d < ENTRIES && t < ENTRIES ==> Translate(mem, pd, d, t) == Translate(old(mem), pd, d, t)
      ensures forall d: nat, t: nat ::
                d < ENTRIES && t < ENTRIES && !(d == PdNo(v) && t == PtNo(v)) ==>
                  Entry(mem, pd, d, t) == Entry(old(mem), pd, d, t)
      ensures var o, e := Entry(old(mem), pd, PdNo(v), PtNo(v)), Entry(mem, pd, PdNo(v), PtNo(v));
              e.Some? == o.Some? && (e.Some? ==> Accessed(e.value) == accessed && Dirty(e.value) == Dirty(o.value))
    {
      var pt := LookupPage(pd, v, false, None);
      if pt.Some? {
        var d, t := PdNo(v), PtNo(v);
        assert EntryOk(mem, pd, d);
        var e := mem[pt.value][t];
        AccessedIsExact(e, accessed);
        PokeTranslates(mem, pd, d, t, SetAccessedBit(e, accessed));
        mem := Poke(mem, pt.value, t, SetAccessedBit(e, accessed));
      }
    }

    /** `palloc_free_page`: the page is filled with 0xcc. */
    method FreePage(page: nat)
      modifies this
      ensures mem == if page in old(mem) then old(mem)[page := Poisoned()] else old(mem)
    {
      if page in mem {
        mem := mem[page := Poisoned()];
      }
    }

    /** `pagedir_destroy`, for pages that are all in use: the pages that it frees, in order, up to a page that was freed
        before, where an ASSERT of the page allocator fails. A page that is freed is overwritten, also when it is a
        table that has not been read yet. It runs to its end exactly if no frame is mapped twice or is itself a table
        or the directory; then it frees frames, tables and directory, each once. */
    method Destroy(pd: nat) returns (freed: seq<nat>, ok: bool)
      requires Valid(mem, pd)
      modifies this
      ensures ok <==> Exclusive(old(mem), pd)
      ensures ok ==> freed == FreedTables(old(mem), pd, USER_DIRS) + [pd]
    {
      ghost var was := mem;
      ExclusiveIff(was, pd);
      freed := [];
      var d := 0;
      while d < USER_DIRS
        invariant 0 <= d <= USER_DIRS && Destroying(was, mem, pd, d, freed)
      {
        freed, ok := FreeEntry(pd, d, freed, was);
        if !ok {
          return;
        }
        d := d + 1;
      }
      DestroyEnds(was, mem, pd, freed);
      ok := pd !in freed;
      if ok {
        freed := freed + [pd];
        FreePage(pd);
      }
    }

    /** One round of the outer loop of `pagedir_destroy`. */
    method FreeEntry(pd: nat, d: nat, done: seq<nat>, ghost was: Memory) returns (freed: seq<nat>, ok: bool)
      requires Valid(was, pd) && d < USER_DIRS && Destroying(was, mem, pd, d, done)
      modifies this
      ensures ok ==> Destroying(was, mem, pd, d + 1, freed)
      ensures !ok ==> !Distinct(FreedTables(was, pd, USER_DIRS) + [pd])
    {
      assert EntryOk(was, pd, d);
      TablesPrefix(was, pd, d + 1, USER_DIRS);
      var e := mem[pd][d];
      if Present(e) {
        freed, ok := FreeTable(PageOf(e), done, was, pd, d);
      } else {
        freed, ok := done, true;
      }
    }

    /** The frames of table `pt`, and the table. */
    method FreeTable(pt: nat, done: seq<nat>, ghost was: Memory, ghost pd: nat, ghost d: nat)
      returns (freed: seq<nat>, ok: bool)
      requires Valid(was, pd) && d < USER_DIRS && was[pd][d] != 0 && pt == PageOf(was[pd][d]) && Poison(was, mem, done)
      requires done == FreedTables(was, pd, d) && Distinct(done)
      modifies this
      ensures ok ==> Poison(was, mem, freed) && freed == FreedTables(was, pd, d + 1) && Distinct(freed)
      ensures !ok ==> !Distinct(FreedTables(was, pd, USER_DIRS) + [pd])
    {
      assert EntryOk(was, pd, d);
      ghost var k;
      freed, ok, k := FreeFrames(pt, done, was);
      if !ok {
        FrameTwice(was, pd, d, k);
        return;
      }
      if pt in freed {
        TableTwice(was, pd, d, k);
        return freed, false;
      }
      PoisonNext(was, mem, freed, pt);
      freed := freed + [pt];
      FreePage(pt);
    }

    /** The inner loop of `pagedir_destroy`: `k` entries of the table were read before it was itself freed, or all; or
        the frame of entry `k` had been freed before. */
    method FreeFrames(pt: nat, done: seq<nat>, ghost was: Memory) returns (freed: seq<nat>, ok: bool, ghost k: nat)
      requires TableAt(was, pt) && Poison(was, mem, done) && Distinct(done)
      modifies this
      ensures ok ==> Freeing(was, mem, pt, done, freed, ENTRIES, k)
      ensures !ok ==> k < ENTRIES && Present(was[pt][k]) && PageOf(was[pt][k]) in done + FreedFrames(was[pt], k)
    {
      freed, k, ok := done, 0, true;
      var t := 0;
      while t < ENTRIES
        invariant 0 <= t <= ENTRIES && Freeing(was, mem, pt, done, freed, t, k)
      {
        FreeingNext(was, mem, pt, done, freed, t, k);
        var e := mem[pt][t];
        if Present(e) {
          if PageOf(e) in freed {
            ok := false;
            return;
          }
          FreePage(PageOf(e));
          freed := freed + [PageOf(e)];
        }
        k := if pt in freed && !Present(e) then k else k + 1;
        t := t + 1;
      }
    }
  }

  /** The loop has read `t` entries of table `pt`, the first `k` of them before the table was itself freed. */
  ghost predicate Freeing(was: Memory, mem: Memory, pt: nat, done: seq<nat>, freed: seq<nat>, t: nat, k: nat) {
    && TableAt(was, pt) && Poison(was, mem, freed) && Distinct(freed)
    && k <= t <= ENTRIES && (pt !in freed ==> k == t) && freed == done + FreedFrames(was[pt], k)
  }

  lemma PoisonNext(was: Memory, mem: Memory, freed: seq<nat>, x: nat)
    requires Poison(was, mem, freed) && Distinct(freed) && x !in freed
    ensures Poison(was, if x in mem then mem[x := Poisoned()] else mem, freed + [x]) && Distinct(freed + [x])
  {
    DistinctAppend(freed, [x]);
  }

  lemma FreeingNext(was: Memory, mem: Memory, pt: nat, done: seq<nat>, freed: seq<nat>, t: nat, k: nat)
    requires Freeing(was, mem, pt, done, freed, t, k) && t < ENTRIES
    ensures pt in mem && |mem[pt]| == ENTRIES
    ensures var e := mem[pt][t];
            if Present(e) then
              && k == t && e == was[pt][t]
              && (PageOf(e) !in freed ==>
                    Freeing(was, if PageOf(e) in mem then mem[PageOf(e) := Poisoned()] else mem, pt, done,
                            freed + [PageOf(e)], t + 1, k + 1))
            else Freeing(was, mem, pt, done, freed, t + 1, if pt in freed then k else k + 1)
  {
    var e := mem[pt][t];
    if Present(e) && PageOf(e) !in freed {
      PoisonNext(was, mem, freed, PageOf(e));
    }
  }

  /** What `memset (page, 0xcc, PGSIZE)` leaves: words that are not present. */
  function Poisoned(): (s: seq<nat>)
    ensures |s| == ENTRIES && (forall i :: 0 <= i < ENTRIES ==> s[i] == 0xCCCC_CCCC && !Present(s[i]))
  {
    seq(ENTRIES, _ => 0xCCCC_CCCC)
  }

  /** The first `d` entries of the directory have been read, unless the directory was freed on the way; then nothing
      more is freed. */
  ghost predicate Destroying(was: Memory, mem: Memory, pd: nat, d: nat, freed: seq<nat>)
    requires Valid(was, pd) && d <= USER_DIRS
  {
    && Poison(was, mem, freed) && Distinct(freed) && freed <= FreedTables(was, pd, USER_DIRS)
    && (pd !in freed ==> freed == FreedTables(was, pd, d))
  }

  lemma DestroyEnds(was: Memory, mem: Memory, pd: nat, freed: seq<nat>)
    requires Valid(was, pd) && Destroying(was, mem, pd, USER_DIRS, freed)
    ensures pd in freed <==> !Distinct(FreedTables(was, pd, USER_DIRS) + [pd])
  {
    if pd in freed {
      FreedTwice(FreedTables(was, pd, USER_DIRS), pd, []);
      assert FreedTables(was, pd, USER_DIRS) + [pd] + [] == FreedTables(was, pd, USER_DIRS) + [pd];
    } else {
      DistinctAppend(freed, [pd]);
    }
  }

  /** Exactly the pages that were freed are overwritten. */
  ghost predicate Poison(was: Memory, mem: Memory, freed: seq<nat>) {
    mem.Keys == was.Keys && forall p :: p in was ==> mem[p] == if p in freed then Poisoned() else was[p]
  }

  /** The whole effect of writing one entry. */
  lemma PokeTranslates(mem: Memory, pd: nat, d: nat, t: nat, e: nat)
    requires Valid(mem, pd) && d < ENTRIES && t < ENTRIES && mem[pd][d] != 0
    ensures TableAt(mem, PageOf(mem[pd][d])) && Valid(Poke(mem, PageOf(mem[pd][d]), t, e), pd)
    ensures forall d': nat, t': nat :: d' < ENTRIES && t' < ENTRIES ==>
              Entry(Poke(mem, PageOf(mem[pd][d]), t, e), pd, d', t')
                == if d' == d && t' == t then Some(e) else Entry(mem, pd, d', t')
  {
    PokeValid(mem, pd, d, t, e);
    forall d': nat, t': nat | d' < ENTRIES && t' < ENTRIES
      ensures Entry(Poke(mem, PageOf(mem[pd][d]), t, e), pd, d', t')
                == if d' == d && t' == t then Some(e) else Entry(mem, pd, d', t')
    {
      PokeEntry(mem, pd, d, t, e, d', t');
    }
  }

  /* ---- Destroying a directory ---- */

  /** The frames of the first `n` entries of a table. */
  function FreedFrames(table: seq<nat>, n: nat): seq<nat>
    requires n <= |table|
  {
    if n == 0 then [] else FreedFrames(table, n - 1) + if Present(table[n - 1]) then [PageOf(table[n - 1])] else []
  }

  /** The frames and the tables of the first `n` entries of the directory. */
  ghost function FreedTables(mem: Memory, pd: nat, n: nat): seq<nat>
    requires Valid(mem, pd) && n <= USER_DIRS
  {
    if n == 0 then []
    else
      var e := mem[pd][n - 1];
      assert EntryOk(mem, pd, n - 1);
      if Present(e) then FreedTables(mem, pd, n - 1) + FreedFrames(mem[PageOf(e)], ENTRIES) + [PageOf(e)]
      else FreedTables(mem, pd, n - 1)
  }

  /** No frame is mapped twice, and none is a table or the directory. */
  ghost predicate Exclusive(mem: Memory, pd: nat)
    requires Valid(mem, pd)
  {
    && (forall d: nat, t: nat, d': nat, t': nat ::
          d < USER_DIRS && d' < USER_DIRS && t < ENTRIES && t' < ENTRIES && (d != d' || t != t')
          && Translate(mem, pd, d, t).Some? ==>
            Translate(mem, pd, d, t) != Translate(mem, pd, d', t'))
    && (forall d: nat, t: nat, c: nat ::
          d < USER_DIRS && t < ENTRIES && c < USER_DIRS && mem[pd][c] != 0 ==>
            Translate(mem, pd, d, t) != Some(PageOf(mem[pd][c])))
    && (forall d: nat, t: nat :: d < USER_DIRS && t < ENTRIES ==> Translate(mem, pd, d, t) != Some(pd))
  }

  lemma {:induction false} FramesPrefix(table: seq<nat>, k: nat, n: nat)
    requires k <= n <= |table|
    ensures FreedFrames(table, k) <= FreedFrames(table, n)
  {
    if k < n {
      FramesPrefix(table, k, n - 1);
    }
  }

  lemma {:induction false} TablesPrefix(mem: Memory, pd: nat, d: nat, n: nat)
    requires Valid(mem, pd) && d <= n <= USER_DIRS
    ensures FreedTables(mem, pd, d) <= FreedTables(mem, pd, n)
  {
    if d < n {
      TablesPrefix(mem, pd, d, n - 1);
      assert EntryOk(mem, pd, n - 1);
    }
  }

  /** A page that is freed again. */
  lemma FreedTwice(a: seq<nat>, x: nat, rest: seq<nat>)
    requires x in a
    ensures !Distinct(a + [x] + rest)
  {
    var i :| 0 <= i < |a| && a[i] == x;
    var r := a + [x] + rest;
    assert r[i] == r[|a|];
  }

  /** A page that is freed again within table `d`. */
  lemma TwiceInTable(mem: Memory, pd: nat, d: nat, a: seq<nat>, x: nat)
    requires Valid(mem, pd) && d < USER_DIRS && x in a && a + [x] <= FreedTables(mem, pd, d + 1)
    ensures !Distinct(FreedTables(mem, pd, USER_DIRS) + [pd])
  {
    TablesPrefix(mem, pd, d + 1, USER_DIRS);
    var all := FreedTables(mem, pd, USER_DIRS) + [pd];
    assert all == a + [x] + all[|a| + 1..];
    FreedTwice(a, x, all[|a| + 1..]);
  }

  /** The frame of entry `k` of table `d` had been freed before. */
  lemma FrameTwice(mem: Memory, pd: nat, d: nat, k: nat)
    requires Valid(mem, pd) && d < USER_DIRS && mem[pd][d] != 0 && k < ENTRIES && TableAt(mem, PageOf(mem[pd][d]))
    requires var table := mem[PageOf(mem[pd][d])];
             Present(table[k]) && PageOf(table[k]) in FreedTables(mem, pd, d) + FreedFrames(table, k)
    ensures !Distinct(FreedTables(mem, pd, USER_DIRS) + [pd])
  {
    assert EntryOk(mem, pd, d);
    var table := mem[PageOf(mem[pd][d])];
    FramesPrefix(table, k + 1, ENTRIES);
    TwiceInTable(mem, pd, d, FreedTables(mem, pd, d) + FreedFrames(table, k), PageOf(table[k]));
  }

  /** Table `d` had been freed before. */
  lemma TableTwice(mem: Memory, pd: nat, d: nat, k: nat)
    requires Valid(mem, pd) && d < USER_DIRS && mem[pd][d] != 0 && k <= ENTRIES && TableAt(mem, PageOf(mem[pd][d]))
    requires PageOf(mem[pd][d]) in FreedTables(mem, pd, d) + FreedFrames(mem[PageOf(mem[pd][d])], k)
    ensures !Distinct(FreedTables(mem, pd, USER_DIRS) + [pd])
  {
    assert EntryOk(mem, pd, d);
    var table := mem[PageOf(mem[pd][d])];
    FramesPrefix(table, k, ENTRIES);
    TwiceInTable(mem, pd, d, FreedTables(mem, pd, d) + FreedFrames(table, ENTRIES), PageOf(mem[pd][d]));
  }

  lemma {:induction false} FrameFreed(table: seq<nat>, n: nat, f: nat)
    requires n <= |table|
    ensures f in FreedFrames(table, n) <==> exists t :: 0 <= t < n && Present(table[t]) && PageOf(table[t]) == f
  {
    if n > 0 {
      FrameFreed(table, n - 1, f);
    }
  }

  lemma {:induction false} FramesDistinct(table: seq<nat>, n: nat)
    requires n <= |table|
    requires forall t, u ::
               0 <= t < u < |table| && Present(table[t]) && Present(table[u]) ==> PageOf(table[t]) != PageOf(table[u])
    ensures Distinct(FreedFrames(table, n))
  {
    if n > 0 {
      FramesDistinct(table, n - 1);
      FrameFreed(table, n - 1, PageOf(table[n - 1]));
    }
  }

  /** Page `f` is the table of directory entry `d`, or a frame that it maps. */
  ghost predicate HeldBy(mem: Memory, pd: nat, d: nat, f: nat)
    requires Valid(mem, pd) && d < USER_DIRS
  {
    mem[pd][d] != 0 && (PageOf(mem[pd][d]) == f || exists t: nat :: t < ENTRIES && Translate(mem, pd, d, t) == Some(f))
  }

  lemma HeldOnce(mem: Memory, pd: nat, d: nat, d': nat, f: nat)
    requires Valid(mem, pd) && Exclusive(mem, pd) && d < USER_DIRS && d' < USER_DIRS && HeldBy(mem, pd, d, f)
             && HeldBy(mem, pd, d', f)
    ensures d == d'
  {
    assert EntryOk(mem, pd, d) && EntryOk(mem, pd, d');
  }

  lemma HeldIsFreed(mem: Memory, pd: nat, d: nat, f: nat)
    requires Valid(mem, pd) && d < USER_DIRS && mem[pd][d] != 0
    ensures TableAt(mem, PageOf(mem[pd][d]))
    ensures HeldBy(mem, pd, d, f) <==> f in FreedFrames(mem[PageOf(mem[pd][d])], ENTRIES) + [PageOf(mem[pd][d])]
  {
    assert EntryOk(mem, pd, d);
    var table := mem[PageOf(mem[pd][d])];
    FrameFreed(table, ENTRIES, f);
    assert forall t: nat ::
             t < ENTRIES ==> (Translate(mem, pd, d, t) == Some(f) <==> Present(table[t]) && PageOf(table[t]) == f);
  }

  lemma {:induction false} TableFreed(mem: Memory, pd: nat, n: nat, f: nat)
    requires Valid(mem, pd) && n <= USER_DIRS
    ensures f in FreedTables(mem, pd, n) <==> exists d: nat :: d < n && HeldBy(mem, pd, d, f)
  {
    if n > 0 {
      assert EntryOk(mem, pd, n - 1);
      TableFreed(mem, pd, n - 1, f);
      if mem[pd][n - 1] != 0 {
        HeldIsFreed(mem, pd, n - 1, f);
      }
    }
  }

  lemma DistinctAppend(a: seq<nat>, b: seq<nat>)
    requires Distinct(a) && Distinct(b) && (forall f :: f in a ==> f !in b)
    ensures Distinct(a + b)
  {
    var r := a + b;
    forall i, k | 0 <= i < k < |r| ensures r[i] != r[k] {
      assert i < |a| ==> r[i] in a;
      assert k >= |a| ==> r[k] == b[k - |a|] && r[k] in b;
    }
  }

  lemma {:induction false} TablesDistinct(mem: Memory, pd: nat, n: nat)
    requires Valid(mem, pd) && Exclusive(mem, pd) && n <= USER_DIRS
    ensures Distinct(FreedTables(mem, pd, n))
  {
    if n > 0 {
      TablesDistinct(mem, pd, n - 1);
      assert EntryOk(mem, pd, n - 1);
      if mem[pd][n - 1] != 0 {
        var before, pt := FreedTables(mem, pd, n - 1), PageOf(mem[pd][n - 1]);
        var frames := FreedFrames(mem[pt], ENTRIES);
        OwnFrames(mem, pd, n - 1);
        forall f | f in before ensures f !in frames + [pt] {
          TableFreed(mem, pd, n - 1, f);
          HeldIsFreed(mem, pd, n - 1, f);
          var d: nat :| d < n - 1 && HeldBy(mem, pd, d, f);
          if HeldBy(mem, pd, n - 1, f) {
            HeldOnce(mem, pd, d, n - 1, f);
          }
        }
        DistinctAppend(before, frames + [pt]);
        assert before + (frames + [pt]) == before + frames + [pt];
      }
    }
  }

  /** The frames of one table and the table itself are different pages. */
  lemma OwnFrames(mem: Memory, pd: nat, d: nat)
    requires Valid(mem, pd) && Exclusive(mem, pd) && d < USER_DIRS && mem[pd][d] != 0
    ensures TableAt(mem, PageOf(mem[pd][d]))
            && Distinct(FreedFrames(mem[PageOf(mem[pd][d])], ENTRIES) + [PageOf(mem[pd][d])])
  {
    assert EntryOk(mem, pd, d);
    var pt := PageOf(mem[pd][d]);
    var table := mem[pt];
    forall t: nat | t < ENTRIES
      ensures Translate(mem, pd, d, t) == if Present(table[t]) then Some(PageOf(table[t])) else None {}
    FramesDistinct(table, ENTRIES);
    FrameFreed(table, ENTRIES, pt);
    DistinctAppend(FreedFrames(table, ENTRIES), [pt]);
  }

  /** Destroying a directory frees its present frames, its tables and itself: all of them and nothing else. */
  lemma DestroyFreesAll(mem: Memory, pd: nat)
    requires Valid(mem, pd)
    ensures forall f :: f in FreedTables(mem, pd, USER_DIRS) + [pd] <==>
              f == pd || exists d: nat :: d < USER_DIRS && HeldBy(mem, pd, d, f)
  {
    var freed := FreedTables(mem, pd, USER_DIRS);
    forall f: nat ensures f in freed <==> exists d: nat :: d < USER_DIRS && HeldBy(mem, pd, d, f) {
      TableFreed(mem, pd, USER_DIRS, f);
    }
  }

  /** Each is freed once exactly if no frame is mapped twice or is itself a table or the directory. */
  lemma ExclusiveIff(mem: Memory, pd: nat)
    requires Valid(mem, pd)
    ensures Exclusive(mem, pd) <==> Distinct(FreedTables(mem, pd, USER_DIRS) + [pd])
  {
    var freed := FreedTables(mem, pd, USER_DIRS);
    if Exclusive(mem, pd) {
      TablesDistinct(mem, pd, USER_DIRS);
      TableFreed(mem, pd, USER_DIRS, pd);
      forall d: nat | d < USER_DIRS ensures !HeldBy(mem, pd, d, pd) { assert EntryOk(mem, pd, d); }
      DistinctAppend(freed, [pd]);
    }
    if Distinct(freed + [pd]) {
      OnceIsExclusive(mem, pd);
    }
  }

  lemma DistinctParts(a: seq<nat>, b: seq<nat>)
    requires Distinct(a + b)
    ensures Distinct(a) && Distinct(b) && (forall f :: f in a ==> f !in b)
  {
    var r := a + b;
    forall i, k | 0 <= i < |a| && 0 <= k < |b| ensures a[i] != b[k] { assert r[i] != r[|a| + k]; }
    forall i, k | 0 <= i < k < |a| ensures a[i] != a[k] { assert r[i] != r[k]; }
    forall i, k | 0 <= i < k < |b| ensures b[i] != b[k] { assert r[|a| + i] != r[|a| + k]; }
  }

  /** What table `d` holds is freed after everything before it. */
  lemma BlockOnce(mem: Memory, pd: nat, d: nat)
    requires Valid(mem, pd) && d < USER_DIRS && mem[pd][d] != 0
    requires Distinct(FreedTables(mem, pd, USER_DIRS) + [pd])
    ensures TableAt(mem, PageOf(mem[pd][d]))
    ensures var block := FreedFrames(mem[PageOf(mem[pd][d])], ENTRIES) + [PageOf(mem[pd][d])];
            Distinct(block) && pd !in block && (forall f :: f in block ==> f !in FreedTables(mem, pd, d))
  {
    assert EntryOk(mem, pd, d);
    TablesPrefix(mem, pd, d + 1, USER_DIRS);
    var all, next := FreedTables(mem, pd, USER_DIRS), FreedTables(mem, pd, d + 1);
    var block := FreedFrames(mem[PageOf(mem[pd][d])], ENTRIES) + [PageOf(mem[pd][d])];
    assert next == FreedTables(mem, pd, d) + block;
    assert all + [pd] == next + (all[|next|..] + [pd]);
    DistinctParts(next, all[|next|..] + [pd]);
    DistinctParts(FreedTables(mem, pd, d), block);
    assert pd in all[|next|..] + [pd];
  }

  lemma OnceInTwo(mem: Memory, pd: nat, c: nat, d: nat, f: nat)
    requires Valid(mem, pd) && c < d < USER_DIRS && Distinct(FreedTables(mem, pd, USER_DIRS) + [pd])
    ensures !(HeldBy(mem, pd, c, f) && HeldBy(mem, pd, d, f))
  {
    if HeldBy(mem, pd, c, f) && HeldBy(mem, pd, d, f) {
      TableFreed(mem, pd, d, f);
      BlockOnce(mem, pd, d);
      HeldIsFreed(mem, pd, d, f);
    }
  }

  lemma OnceInOne(mem: Memory, pd: nat, d: nat, t: nat, u: nat)
    requires Valid(mem, pd) && d < USER_DIRS && t < u < ENTRIES && Distinct(FreedTables(mem, pd, USER_DIRS) + [pd])
    ensures Translate(mem, pd, d, t).Some? ==> Translate(mem, pd, d, t) != Translate(mem, pd, d, u)
    ensures mem[pd][d] != 0 ==>
              && Translate(mem, pd, d, t) != Some(PageOf(mem[pd][d]))
              && Translate(mem, pd, d, u) != Some(PageOf(mem[pd][d]))
  {
    if mem[pd][d] != 0 {
      BlockOnce(mem, pd, d);
      var table := mem[PageOf(mem[pd][d])];
      DistinctParts(FreedFrames(table, ENTRIES), [PageOf(mem[pd][d])]);
      FramesOnce(table, t, u);
      FrameFreed(table, ENTRIES, PageOf(mem[pd][d]));
    }
  }

  lemma FramesOnce(table: seq<nat>, t: nat, u: nat)
    requires |table| == ENTRIES && t < u < ENTRIES && Distinct(FreedFrames(table, ENTRIES))
    ensures Present(table[t]) && Present(table[u]) ==> PageOf(table[t]) != PageOf(table[u])
  {
    FramesPrefix(table, u + 1, ENTRIES);
    if Present(table[t]) && Present(table[u]) {
      FrameFreed(table, u, PageOf(table[t]));
      var all, a := FreedFrames(table, ENTRIES), FreedFrames(table, u);
      if PageOf(table[t]) == PageOf(table[u]) {
        assert all == a + [PageOf(table[u])] + all[|a| + 1..];
        FreedTwice(a, PageOf(table[u]), all[|a| + 1..]);
      }
    }
  }

  lemma OnceIsExclusive(mem: Memory, pd: nat)
    requires Valid(mem, pd) && Distinct(FreedTables(mem, pd, USER_DIRS) + [pd])
    ensures Exclusive(mem, pd)
  {
    forall d: nat, t: nat, d': nat, t': nat |
      d < USER_DIRS && d' < USER_DIRS && t < ENTRIES && t' < ENTRIES && (d != d' || t != t')
      && Translate(mem, pd, d, t).Some?
      ensures Translate(mem, pd, d, t) != Translate(mem, pd, d', t')
    {
      DifferentEntries(mem, pd, d, t, d', t');
    }
    forall d: nat, t: nat, c: nat | d < USER_DIRS && t < ENTRIES && c < USER_DIRS && mem[pd][c] != 0
      ensures Translate(mem, pd, d, t) != Some(PageOf(mem[pd][c]))
    {
      FrameIsNoTable(mem, pd, d, t, c);
    }
    forall d: nat, t: nat | d < USER_DIRS && t < ENTRIES ensures Translate(mem, pd, d, t) != Some(pd) {
      if Translate(mem, pd, d, t) == Some(pd) {
        BlockOnce(mem, pd, d);
        HeldIsFreed(mem, pd, d, pd);
      }
    }
  }

  lemma DifferentEntries(mem: Memory, pd: nat, d: nat, t: nat, d': nat, t': nat)
    requires Valid(mem, pd) && Distinct(FreedTables(mem, pd, USER_DIRS) + [pd])
    requires d < USER_DIRS && d' < USER_DIRS && t < ENTRIES && t' < ENTRIES && (d != d' || t != t')
    ensures Translate(mem, pd, d, t).Some? ==> Translate(mem, pd, d, t) != Translate(mem, pd, d', t')
  {
    if Translate(mem, pd, d, t).Some? && Translate(mem, pd, d, t) == Translate(mem, pd, d', t') {
      var f := Translate(mem, pd, d, t).value;
      if d == d' {
        OnceInOne(mem, pd, d, if t < t' then t else t', if t < t' then t' else t);
      } else {
        assert HeldBy(mem, pd, d, f) && HeldBy(mem, pd, d', f);
        OnceInTwo(mem, pd, if d < d' then d else d', if d < d' then d' else d, f);
      }
    }
  }

  lemma FrameIsNoTable(mem: Memory, pd: nat, d: nat, t: nat, c: nat)
    requires Valid(mem, pd) && Distinct(FreedTables(mem, pd, USER_DIRS) + [pd])
    requires d < USER_DIRS && t < ENTRIES && c < USER_DIRS && mem[pd][c] != 0
    ensures Translate(mem, pd, d, t) != Some(PageOf(mem[pd][c]))
  {
    if Translate(mem, pd, d, t) == Some(PageOf(mem[pd][c])) {
      var f := PageOf(mem[pd][c]);
      if d == c {
        OnceInOne(mem, pd, d, if t > 0 then 0 else t, if t > 0 then t else 1);
      } else {
        assert HeldBy(mem, pd, d, f) && HeldBy(mem, pd, c, f);
        OnceInTwo(mem, pd, if d < c then d else c, if d < c then c else d, f);
      }
    }
  }
}
