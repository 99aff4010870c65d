/** A directory stored as 20-byte records in an inode refines a finite map from names to inode sectors
    (proj-pregame/src/filesys/directory.c:73-201). */
module Directory {
  import opened Basics
  import opened InodeIO

  const ENTRY: int := 20
  const NAME_MAX: int := 14

  /** A C string without its terminator. */
  type Name = seq<Byte>

  predicate NulFree(name: Name) {
    forall i :: 0 <= i < |name| ==> name[i] != 0
  }

  /* ---- One record: 4 bytes of sector number, 15 bytes of name, 1 byte of in_use ---- */

  /** The bytes before the first NUL. */
  function CString(s: seq<Byte>): Name {
    if s == [] || s[0] == 0 then [] else [s[0]] + CString(s[1..])
  }

  /** A record as the code reads it. */
  datatype Entry = Entry(name: Name, sector: nat, inUse: bool)

  function Number(b0: int, b1: int, b2: int, b3: int): int { b0 + 256 * b1 + 65536 * b2 + 16777216 * b3 }

  function Decode(e: seq<Byte>): Entry
    requires |e| == ENTRY
  {
    Entry(CString(e[4..19]), Number(e[0], e[1], e[2], e[3]), e[19] != 0)
  }

  /** Line 174: in_use cleared. */
  function Cleared(e: seq<Byte>): (r: seq<Byte>)
    requires |e| == ENTRY
    ensures |r| == ENTRY && Decode(r) == Decode(e).(inUse := false)
  {
    var r := e[..19] + [0];
    assert r[4..19] == e[4..19];
    r
  }

  const B32: int := 0x1_0000_0000

  function SectorBytes(sector: nat): seq<Byte>
    requires sector < B32
  {
    var q1 := sector / 256;
    var q2 := q1 / 256;
    [sector % 256, q1 % 256, q2 % 256, q2 / 256]
  }

  /** Lines 143-145: `e` with the sector, the name with its terminator, and in_use set; what `strlcpy` does not
      reach keeps its bytes. */
  function Filled(e: seq<Byte>, name: Name, sector: nat): (r: seq<Byte>)
    requires |e| == ENTRY && |name| <= NAME_MAX && sector < B32
    ensures |r| == ENTRY
  {
    SectorBytes(sector) + (name + [0] + e[5 + |name|..19]) + [1]
  }

  lemma SectorDecodes(sector: nat)
    requires sector < B32
    ensures var b := SectorBytes(sector); Number(b[0], b[1], b[2], b[3]) == sector
  {
    var q1, q2 := sector / 256, sector / 256 / 256;
    assert sector == 256 * q1 + sector % 256 && q1 == 256 * q2 + q1 % 256 && q2 == 256 * (q2 / 256) + q2 % 256;
  }

  lemma FilledDecodes(e: seq<Byte>, name: Name, sector: nat)
    requires |e| == ENTRY && |name| <= NAME_MAX && NulFree(name) && sector < B32
    ensures Decode(Filled(e, name, sector)) == Entry(name, sector, true)
  {
    var r := Filled(e, name, sector);
    var b, field := SectorBytes(sector), name + [0] + e[5 + |name|..19];
    assert |field| == 15 && r == b + field + [1];
    FieldsOf(r, b, field);
    SectorDecodes(sector);
    NameField(field, name, e[5 + |name|..19]);
  }

  lemma FieldsOf(r: seq<Byte>, b: seq<Byte>, field: seq<Byte>)
    requires |b| == 4 && |field| == 15 && r == b + field + [1]
    ensures r[0] == b[0] && r[1] == b[1] && r[2] == b[2] && r[3] == b[3] && r[4..19] == field && r[19] == 1
  {
  }

  lemma NameField(field: seq<Byte>, name: Name, rest: seq<Byte>)
    requires field == name + [0] + rest && NulFree(name)
    ensures CString(field) == name
  {
    assert field[..|name|] == name;
    CStringOf(field, name);
  }

  lemma {:induction false} CStringOf(s: seq<Byte>, name: Name)
    requires |name| < |s| && s[..|name|] == name && s[|name|] == 0 && NulFree(name)
    ensures CString(s) == name
  {
    if name != [] {
      assert s[0] == s[..|name|][0] == name[0];
      assert s[1..][..|name| - 1] == s[..|name|][1..] == name[1..];
      CStringOf(s[1..], name[1..]);
    }
  }

  /* ---- All records ---- */

  function Slots(d: seq<Byte>): nat { |d| / ENTRY }

  function Slot(d: seq<Byte>, i: nat): seq<Byte>
    requires i < Slots(d)
  {
    d[ENTRY * i..ENTRY * i + ENTRY]
  }

  /** The first `k` records. */
  function EntriesUpTo(d: seq<Byte>, k: nat): (r: seq<Entry>)
    requires k <= Slots(d)
    ensures |r| == k
  {
    if k == 0 then [] else EntriesUpTo(d, k - 1) + [Decode(Slot(d, k - 1))]
  }

  function Entries(d: seq<Byte>): seq<Entry> {
    EntriesUpTo(d, Slots(d))
  }

  lemma {:induction false} EntriesAt(d: seq<Byte>, k: nat, i: nat)
    requires i < k <= Slots(d)
    ensures EntriesUpTo(d, k)[i] == Decode(Slot(d, i))
  {
    if i < k - 1 {
      EntriesAt(d, k - 1, i);
    }
  }

  predicate ValidName(n: Name) { 1 <= |n| <= 14 }

  /** The records in use are exactly the entries of `m`, each in one slot, with valid names. */
  ghost predicate Refines(r: seq<Entry>, m: map<Name, nat>) {
    && (forall i :: 0 <= i < |r| && r[i].inUse ==> ValidName(r[i].name))
    && (forall i :: 0 <= i < |r| && r[i].inUse ==> r[i].name in m && m[r[i].name] == r[i].sector)
    && (forall n :: n in m ==> exists i :: 0 <= i < |r| && r[i].inUse && r[i].name == n)
    && (forall i, j :: 0 <= i < j < |r| && r[i].inUse && r[j].inUse ==> r[i].name != r[j].name)
  }

  /** Overwriting one record leaves the others alone. */
  lemma SlotOverwritten(d: seq<Byte>, e: seq<Byte>, i: nat, j: nat)
    requires |e| == ENTRY && i < Slots(d) && j < Slots(d)
    ensures var d' := Overwritten(d, e, ENTRY * i);
            Slots(d') == Slots(d) && Slot(d', j) == if j == i then e else Slot(d, j)
  {
    var d' := Overwritten(d, e, ENTRY * i);
    forall k | 0 <= k < ENTRY ensures Slot(d', j)[k] == (if j == i then e else Slot(d, j))[k] {
      assert Slot(d', j)[k] == d'[ENTRY * j + k];
    }
  }

  lemma EntriesOverwritten(d: seq<Byte>, e: seq<Byte>, i: nat)
    requires |e| == ENTRY && i < Slots(d)
    ensures Entries(Overwritten(d, e, ENTRY * i)) == Entries(d)[i := Decode(e)]
  {
    var r', r := Entries(Overwritten(d, e, ENTRY * i)), Entries(d)[i := Decode(e)];
    forall j | 0 <= j < |r| ensures |r'| == |r| && r'[j] == r[j] {
      SlotOverwritten(d, e, i, j);
      EntriesAt(d, Slots(d), j);
      EntriesAt(Overwritten(d, e, ENTRY * i), Slots(d), j);
    }
  }

  /** A short write past the last slot reaches no record. */
  lemma TailOverwritten(d: seq<Byte>, part: seq<Byte>, k: nat)
    requires k <= Slots(d) && (part != [] ==> ENTRY * k + |part| <= |d| && k == Slots(d))
    ensures Entries(Overwritten(d, part, ENTRY * k)) == Entries(d)
  {
    var d' := Overwritten(d, part, ENTRY * k);
    forall j | 0 <= j < Slots(d) ensures Entries(d')[j] == Entries(d)[j] {
      forall i | 0 <= i < ENTRY ensures Slot(d', j)[i] == Slot(d, j)[i] {
        assert Slot(d', j)[i] == d'[ENTRY * j + i];
      }
      assert Slot(d', j) == Slot(d, j);
      EntriesAt(d, Slots(d), j);
      EntriesAt(d', Slots(d), j);
    }
  }

  /** Clearing in_use removes that entry from the map. */
  lemma EraseRefines(r: seq<Entry>, m: map<Name, nat>, i: nat, e: Entry)
    requires Refines(r, m) && i < |r| && r[i].inUse && !e.inUse
    ensures Refines(r[i := e], m - {r[i].name})
  {
    var r', m' := r[i := e], m - {r[i].name};
    forall n | n in m' ensures exists j :: 0 <= j < |r'| && r'[j].inUse && r'[j].name == n {
      var j :| 0 <= j < |r| && r[j].inUse && r[j].name == n;
      assert r'[j].name == n;
    }
  }

  /** A short read means that slot `k` is not there. */
  lemma SlotRead(d: seq<Byte>, k: nat)
    ensures Span(ENTRY, ENTRY * k, |d|) == ENTRY <==> k < Slots(d)
    ensures k < Slots(d) ==> ENTRY * k + ENTRY <= |d|
  {
  }

  /** The names in use from slot `k` on, in slot order: what repeated `dir_readdir` returns. */
  function Listing(r: seq<Entry>, k: nat): seq<Name>
    requires k <= |r|
    decreases |r| - k
  {
    if k == |r| then [] else (if r[k].inUse then [r[k].name] else []) + Listing(r, k + 1)
  }

  lemma ListingNext(r: seq<Entry>, k: nat)
    requires k < |r|
    ensures r[k].inUse ==>
              Listing(r, k) != [] && Listing(r, k)[0] == r[k].name && Listing(r, k)[1..] == Listing(r, k + 1)
    ensures !r[k].inUse ==> Listing(r, k) == Listing(r, k + 1)
  {
  }

  lemma {:induction false} ListingHas(r: seq<Entry>, k: nat, n: Name)
    requires k <= |r|
    ensures n in Listing(r, k) <==> exists i :: k <= i < |r| && r[i].inUse && r[i].name == n
    decreases |r| - k
  {
    if k < |r| {
      ListingHas(r, k + 1, n);
      if r[k].inUse && r[k].name == n {
        assert Listing(r, k)[0] == n;
      }
    }
  }

  /** A listing of a directory names each entry of the map exactly once. */
  lemma {:induction false} ListingIsExact(r: seq<Entry>, m: map<Name, nat>, k: nat)
    requires Refines(r, m) && k <= |r|
    ensures forall i, j :: 0 <= i < j < |Listing(r, k)| ==> Listing(r, k)[i] != Listing(r, k)[j]
    ensures k == 0 ==> forall n :: n in Listing(r, 0) <==> n in m
    decreases |r| - k
  {
    if k < |r| {
      ListingIsExact(r, m, k + 1);
      if r[k].inUse {
        ListingHas(r, k + 1, r[k].name);
        var l := Listing(r, k + 1);
        forall j | 0 <= j < |l| ensures l[j] != r[k].name {
          assert l[j] in l;
        }
      }
    }
    if k == 0 {
      forall n ensures n in Listing(r, 0) <==> n in m {
        ListingHas(r, 0, n);
      }
    }
  }

  /** The records of the directory that is stored in an inode. */
  function Records(sectors: seq<seq<Byte>>, inode: DiskInode): seq<Entry>
    requires OnDevice(sectors, inode)
  {
    Entries(Contents(sectors, inode))
  }

  /** What a write of (part of) a record at slot `k` does to the records. */
  lemma WriteRecords(before: seq<seq<Byte>>, after: seq<seq<Byte>>, inode: DiskInode, e: seq<Byte>, k: nat, n: nat)
    requires OnDevice(before, inode) && |e| == ENTRY && k <= Slots(Contents(before, inode))
             && n <= Span(ENTRY, ENTRY * k, inode.length)
    requires Written(before, after, inode, e, ENTRY * k, n) && (n == 0 || n == Span(ENTRY, ENTRY * k, inode.length))
    ensures OnDevice(after, inode) && |Records(after, inode)| == |Records(before, inode)|
    ensures n == ENTRY ==>
              k < |Records(before, inode)| && Records(after, inode) == Records(before, inode)[k := Decode(e)]
    ensures n != ENTRY ==> Records(after, inode) == Records(before, inode)
    ensures n != ENTRY && inode.length % ENTRY == 0 ==> Contents(after, inode) == Contents(before, inode)
  {
    var d := Contents(before, inode);
    WriteRefinesBytes(before, after, inode, e, ENTRY * k, n);
    SlotRead(d, k);
    if n == ENTRY {
      assert e[..n] == e;
      EntriesOverwritten(d, e, k);
    } else {
      TailOverwritten(d, e[..n], k);
    }
  }

  /* ---- Reads that may fail ---- */

  /** For each slot, whether `malloc` provides the bounce buffer when the slot is read. A read without it looks like
      the end of the directory. */
  type Bounce = nat -> bool

  /** The first slot from `k` on that cannot be read. */
  function Reach(n: nat, b: Bounce, k: nat): (e: nat)
    requires k <= n
    ensures k <= e <= n && (e < n ==> !b(e)) && (forall i :: k <= i < e ==> b(i))
    decreases n - k
  {
    if k < n && b(k) then Reach(n, b, k + 1) else k
  }

  /** All reads succeed. */
  ghost predicate Reads(b: Bounce) { forall i :: b(i) }

  /** The entry is seen by a scan from the first slot. */
  ghost predicate Seen(r: seq<Entry>, b: Bounce, name: Name) {
    exists i :: 0 <= i < Reach(|r|, b, 0) && r[i].inUse && r[i].name == name
  }

  /** The slot that the scan for a name stops at: it has the name, it is unreadable, or it is the end. */
  function NameSlot(r: seq<Entry>, b: Bounce, name: Name, k: nat): (e: nat)
    requires k <= |r|
    ensures k <= e <= |r| && (e < |r| ==> !b(e) || InUseBy(r, e, name))
    ensures forall i :: k <= i < e ==> b(i) && !InUseBy(r, i, name)
    decreases |r| - k
  {
    if k < |r| && b(k) && !InUseBy(r, k, name) then NameSlot(r, b, name, k + 1) else k
  }

  /** The first slot with the name, if the scan gets there. */
  function Found(r: seq<Entry>, b: Bounce, name: Name): Option<nat> {
    var e := NameSlot(r, b, name, 0);
    if e < |r| && b(e) then Some(e) else None
  }

  lemma FoundIffSeen(r: seq<Entry>, b: Bounce, name: Name)
    ensures Found(r, b, name).Some? <==> Seen(r, b, name)
  {
    var e := NameSlot(r, b, name, 0);
    if e < |r| && b(e) {
      assert e < Reach(|r|, b, 0) && InUseBy(r, e, name);
    }
    if Seen(r, b, name) {
      var i :| 0 <= i < Reach(|r|, b, 0) && r[i].inUse && r[i].name == name;
      assert InUseBy(r, i, name) && e <= i;
    }
  }

  /** The slot that the scan for a free one stops at: free, unreadable, or the end. */
  function FreeSlot(r: seq<Entry>, b: Bounce, k: nat): (e: nat)
    requires k <= |r|
    ensures k <= e <= |r| && (e < |r| ==> !b(e) || !r[e].inUse) && (forall i :: k <= i < e ==> b(i) && r[i].inUse)
    decreases |r| - k
  {
    if k < |r| && b(k) && r[k].inUse then FreeSlot(r, b, k + 1) else k
  }

  predicate InUseBy(r: seq<Entry>, k: nat, name: Name)
    requires k < |r|
  {
    r[k].inUse && r[k].name == name
  }

  ghost predicate NamesUnique(r: seq<Entry>) {
    forall i, j :: 0 <= i < j < |r| && r[i].inUse && r[j].inUse ==> r[i].name != r[j].name
  }

  /** Writing an entry into any slot: names stay unique exactly if the name is new or the slot is its own; and the map
      gains just that entry exactly if, besides, no other name was in the slot. */
  lemma AddRefinesIff(r: seq<Entry>, m: map<Name, nat>, k: nat, e: Entry)
    requires Refines(r, m) && k < |r| && e.inUse && ValidName(e.name)
    ensures NamesUnique(r[k := e]) <==> (e.name in m ==> InUseBy(r, k, e.name))
    ensures Refines(r[k := e], m[e.name := e.sector]) <==>
              (e.name in m ==> InUseBy(r, k, e.name)) && (r[k].inUse ==> r[k].name == e.name)
  {
    var r', m' := r[k := e], m[e.name := e.sector];
    if e.name in m && !InUseBy(r, k, e.name) {
      var i :| 0 <= i < |r| && r[i].inUse && r[i].name == e.name;
      assert r'[i] == r[i] && r'[k] == e && i != k;
      assert !NamesUnique(r');
    } else {
      OthersDiffer(r, m, k, e);
      if r[k].inUse ==> r[k].name == e.name {
        AddedRefines(r, m, k, e);
      } else {
        LostName(r, m, k, e);
      }
    }
  }

  lemma OthersDiffer(r: seq<Entry>, m: map<Name, nat>, k: nat, e: Entry)
    requires Refines(r, m) && k < |r| && (e.name in m ==> InUseBy(r, k, e.name))
    ensures forall i :: 0 <= i < |r| && i != k && r[i].inUse ==> r[i].name != e.name
    ensures NamesUnique(r[k := e])
  {
    forall i | 0 <= i < |r| && i != k && r[i].inUse ensures r[i].name != e.name {
      assert r[i].name in m;
      if i < k {
        assert InUseBy(r, k, e.name) ==> r[i].name != r[k].name;
      } else {
        assert InUseBy(r, k, e.name) ==> r[k].name != r[i].name;
      }
    }
  }

  lemma AddedRefines(r: seq<Entry>, m: map<Name, nat>, k: nat, e: Entry)
    requires Refines(r, m) && k < |r| && e.inUse && ValidName(e.name) && (r[k].inUse ==> r[k].name == e.name)
    requires forall i :: 0 <= i < |r| && i != k && r[i].inUse ==> r[i].name != e.name
    ensures Refines(r[k := e], m[e.name := e.sector])
  {
    var r', m' := r[k := e], m[e.name := e.sector];
    forall n | n in m' ensures exists i :: 0 <= i < |r'| && r'[i].inUse && r'[i].name == n {
      if n == e.name {
        assert r'[k].name == n;
      } else {
        var i :| 0 <= i < |r| && r[i].inUse && r[i].name == n;
        assert r'[i] == r[i];
      }
    }
  }

  lemma LostName(r: seq<Entry>, m: map<Name, nat>, k: nat, e: Entry)
    requires Refines(r, m) && k < |r| && r[k].inUse && r[k].name != e.name
    ensures !Refines(r[k := e], m[e.name := e.sector])
  {
    var r', n := r[k := e], r[k].name;
    assert n in m[e.name := e.sector];
    forall i | 0 <= i < |r'| && r'[i].inUse ensures r'[i].name != n {
      if i != k { assert r'[i] == r[i]; }
    }
  }

  /** `dir_add` writes the slot where its second scan stops, unless its first sees the name. If it writes, the map gains
      just that entry exactly if the slot is free and the name is new, or the slot is the name's own. */
  ghost predicate AddsRight(r: seq<Entry>, m: map<Name, nat>, b2: Bounce, name: Name) {
    var k := FreeSlot(r, b2, 0);
    k < |r| && if r[k].inUse then r[k].name == name else name !in m
  }

  lemma AddRightIff(r: seq<Entry>, m: map<Name, nat>, b1: Bounce, b2: Bounce, name: Name, sector: nat)
    requires Refines(r, m) && ValidName(name) && !Seen(r, b1, name) && FreeSlot(r, b2, 0) < |r|
    ensures Refines(r[FreeSlot(r, b2, 0) := Entry(name, sector, true)], m[name := sector]) <==>
              AddsRight(r, m, b2, name)
  {
    AddRefinesIff(r, m, FreeSlot(r, b2, 0), Entry(name, sector, true));
  }

  /** One used slot, one free slot, and no buffer for the first scan: the name is then there twice. */
  lemma DoubledName(name: Name, was: nat, sector: nat)
    requires ValidName(name)
    ensures var r, b1, b2 := [Entry(name, was, true), Entry([], 0, false)], (_: nat) => false, (_: nat) => true;
            && Refines(r, map[name := was]) && !Seen(r, b1, name) && FreeSlot(r, b2, 0) == 1
            && !NamesUnique(r[1 := Entry(name, sector, true)])
  {
    var r := [Entry(name, was, true), Entry([], 0, false)];
    assert r[0].inUse && r[0].name == name;
    var r' := r[1 := Entry(name, sector, true)];
    assert r'[0].name == r'[1].name;
  }

  /** A name that the first scan misses, because a read failed, is entered a second time into a free slot. */
  lemma MissedNameIsDoubled(r: seq<Entry>, m: map<Name, nat>, b1: Bounce, b2: Bounce, name: Name, sector: nat)
    requires Refines(r, m) && name in m && ValidName(name) && !Seen(r, b1, name)
    requires FreeSlot(r, b2, 0) < |r| && !r[FreeSlot(r, b2, 0)].inUse
    ensures !NamesUnique(r[FreeSlot(r, b2, 0) := Entry(name, sector, true)])
  {
    AddRefinesIff(r, m, FreeSlot(r, b2, 0), Entry(name, sector, true));
  }

  /** With all reads succeeding, the scans are exact: the name is seen if it is there, and the slot is free. */
  lemma CompleteScans(r: seq<Entry>, m: map<Name, nat>, b: Bounce, name: Name)
    requires Refines(r, m) && Reads(b)
    ensures Reach(|r|, b, 0) == |r| && (Seen(r, b, name) <==> name in m)
    ensures FreeSlot(r, b, 0) < |r| ==> !r[FreeSlot(r, b, 0)].inUse
    ensures FreeSlot(r, b, 0) < |r| <==> exists i :: 0 <= i < |r| && !r[i].inUse
  {
    assert b(Reach(|r|, b, 0));
    if FreeSlot(r, b, 0) < |r| {
      assert b(FreeSlot(r, b, 0));
    }
    if name in m {
      var i :| 0 <= i < |r| && r[i].inUse && r[i].name == name;
    }
  }

  /** The number of records in use. */
  function InUse(r: seq<Entry>): nat {
    if r == [] then 0 else InUse(r[..|r| - 1]) + if r[|r| - 1].inUse then 1 else 0
  }

  lemma {:induction false} InUseBound(r: seq<Entry>)
    ensures InUse(r) <= |r| && (InUse(r) < |r| <==> exists i :: 0 <= i < |r| && !r[i].inUse)
  {
    if r != [] {
      var init := r[..|r| - 1];
      InUseBound(init);
      if InUse(init) < |init| {
        var i :| 0 <= i < |init| && !init[i].inUse;
        assert !r[i].inUse;
      } else {
        assert forall i :: 0 <= i < |init| ==> r[i] == init[i] && init[i].inUse;
      }
    }
  }

  lemma {:induction false} SizeIsInUse(r: seq<Entry>, m: map<Name, nat>)
    requires Refines(r, m)
    ensures |m| == InUse(r)
  {
    if r == [] {
      assert forall n :: n in m ==> false;
      assert m == map[];
    } else {
      var init, last := r[..|r| - 1], r[|r| - 1];
      assert r == init + [last];
      if last.inUse {
        WithoutLast(r, m);
        SizeIsInUse(init, m - {last.name});
        SizeWithout(m, last.name);
      } else {
        WithoutUnused(r, m);
        SizeIsInUse(init, m);
      }
    }
  }

  lemma SizeWithout(m: map<Name, nat>, n: Name)
    requires n in m
    ensures |m| == |m - {n}| + 1
  {
    assert m.Keys == (m - {n}).Keys + {n};
    assert |m.Keys| == |m| && |(m - {n}).Keys| == |m - {n}|;
  }

  lemma WithoutUnused(r: seq<Entry>, m: map<Name, nat>)
    requires Refines(r, m) && r != [] && !r[|r| - 1].inUse
    ensures Refines(r[..|r| - 1], m)
  {
    var init := r[..|r| - 1];
    forall n | n in m ensures exists i :: 0 <= i < |init| && init[i].inUse && init[i].name == n {
      var i :| 0 <= i < |r| && r[i].inUse && r[i].name == n;
      assert init[i] == r[i];
    }
  }

  lemma WithoutLast(r: seq<Entry>, m: map<Name, nat>)
    requires Refines(r, m) && r != [] && r[|r| - 1].inUse
    ensures Refines(r[..|r| - 1], m - {r[|r| - 1].name})
  {
    var init, last := r[..|r| - 1], r[|r| - 1];
    forall n | n in m - {last.name} ensures exists i :: 0 <= i < |init| && init[i].inUse && init[i].name == n {
      var i :| 0 <= i < |r| && r[i].inUse && r[i].name == n;
      assert init[i] == r[i];
    }
  }

  /** A slot is free exactly if the map has fewer entries than the directory has slots. */
  lemma RoomIff(r: seq<Entry>, m: map<Name, nat>)
    requires Refines(r, m)
    ensures |m| < |r| <==> exists i :: 0 <= i < |r| && !r[i].inUse
  {
    SizeIsInUse(r, m);
    InUseBound(r);
  }

  /** What `dir_add` does to the map when all reads succeed. */
  lemma AddWithReads(r: seq<Entry>, m: map<Name, nat>, b1: Bounce, b2: Bounce, name: Name, sector: nat)
    requires Refines(r, m) && Reads(b1) && Reads(b2)
    ensures (Seen(r, b1, name) <==> name in m) && (FreeSlot(r, b2, 0) < |r| <==> |m| < |r|)
    ensures name !in m && ValidName(name) && FreeSlot(r, b2, 0) < |r| ==>
              Refines(r[FreeSlot(r, b2, 0) := Entry(name, sector, true)], m[name := sector])
  {
    CompleteScans(r, m, b1, name);
    CompleteScans(r, m, b2, name);
    RoomIff(r, m);
    if name !in m && ValidName(name) && FreeSlot(r, b2, 0) < |r| {
      AddRefinesIff(r, m, FreeSlot(r, b2, 0), Entry(name, sector, true));
    }
  }

  lemma AddMeans(r: seq<Entry>, m: map<Name, nat>, b1: Bounce, b2: Bounce, name: Name, sector: nat)
    requires Refines(r, m)
    ensures ValidName(name) && !Seen(r, b1, name) && FreeSlot(r, b2, 0) < |r| ==>
              (Refines(r[FreeSlot(r, b2, 0) := Entry(name, sector, true)], m[name := sector]) <==>
                 AddsRight(r, m, b2, name))
    ensures Reads(b1) && Reads(b2) ==>
              && (!Seen(r, b1, name) && FreeSlot(r, b2, 0) < |r| <==> name !in m && |m| < |r|)
              && (ValidName(name) && name !in m && |m| < |r| ==> AddsRight(r, m, b2, name))
  {
    if ValidName(name) && !Seen(r, b1, name) && FreeSlot(r, b2, 0) < |r| {
      AddRightIff(r, m, b1, b2, name, sector);
    }
    if Reads(b1) && Reads(b2) {
      AddWithReads(r, m, b1, b2, name, sector);
    }
  }

  /** The first slot from `k` on that is in use or cannot be read, or the end. */
  function NextSlot(r: seq<Entry>, b: Bounce, k: nat): (e: nat)
    requires k <= |r|
    ensures k <= e <= |r|
    decreases |r| - k
  {
    if k < |r| && b(k) && !r[k].inUse then NextSlot(r, b, k + 1) else k
  }

  lemma {:induction false} NextSlotIs(r: seq<Entry>, b: Bounce, k: nat)
    requires k <= |r|
    ensures var e := NextSlot(r, b, k);
            (e < |r| ==> !b(e) || r[e].inUse) && Listing(r, e) == Listing(r, k)
    decreases |r| - k
  {
    if k < |r| && b(k) && !r[k].inUse {
      NextSlotIs(r, b, k + 1);
      ListingNext(r, k);
    }
  }

  lemma NextSlotNames(r: seq<Entry>, b: Bounce, k: nat)
    requires k <= |r|
    ensures var e := NextSlot(r, b, k);
            if e < |r| && b(e) then NextName(r, b, k, true, e + 1, r[e].name) else NextName(r, b, k, false, e, [])
  {
    var e := NextSlot(r, b, k);
    NextSlotIs(r, b, k);
    if e < |r| {
      ListingNext(r, e);
    }
  }

  /** An open directory, with the map that it stands for. */
  class Dir {
    const disk: Disk
    const inode: DiskInode
    var pos: nat
    ghost var entries: map<Name, nat>

    ghost predicate Valid()
      reads this, disk
    {
      OnDevice(disk.sectors, inode) && Refines(Records(disk.sectors, inode), entries) && pos % ENTRY == 0
    }

    constructor (disk: Disk, inode: DiskInode, ghost m: map<Name, nat>)
      requires OnDevice(disk.sectors, inode) && Refines(Records(disk.sectors, inode), m)
      ensures Valid() && this.disk == disk && this.inode == inode && pos == 0 && entries == m
    {
      this.disk, this.inode, this.pos, this.entries := disk, inode, 0, m;
    }

    /** `inode_read_at(dir->inode, &e, sizeof e, ofs)` and whether it read a whole record. */
    method ReadEntry(k: nat, bounceOk: bool) returns (ok: bool, e: seq<Byte>, rec: Entry)
      requires OnDevice(disk.sectors, inode)
      ensures ok <==> bounceOk && k < |Records(disk.sectors, inode)|
      ensures |e| == ENTRY && rec == Decode(e) && (ok ==> rec == Records(disk.sectors, inode)[k])
    {
      var buffer := new Byte[ENTRY](_ => 0);
      var n := InodeReadAt(disk, inode, buffer, ENTRY, ENTRY * k, bounceOk);
      SlotRead(Contents(disk.sectors, inode), k);
      e := buffer[..];
      rec := Decode(e);
      ok := n == ENTRY;
      if ok {
        assert e == buffer[..n];
        EntriesAt(Contents(disk.sectors, inode), Slots(Contents(disk.sectors, inode)), k);
      }
    }

    /** `lookup`: the entry with the given name, if the scan sees it. */
    method Lookup(name: Name, b: Bounce) returns (found: bool, e: seq<Byte>, rec: Entry, k: nat)
      requires OnDevice(disk.sectors, inode)
      ensures |e| == ENTRY && rec == Decode(e)
      ensures found <==> Seen(Records(disk.sectors, inode), b, name)
      ensures Found(Records(disk.sectors, inode), b, name) == if found then Some(k) else None
      ensures found ==> rec == Records(disk.sectors, inode)[k]
    {
      ghost var r := Records(disk.sectors, inode);
      FoundIffSeen(r, b, name);
      k := 0;
      var ok;
      ok, e, rec := ReadEntry(0, b(0));
      while ok
        invariant |e| == ENTRY && rec == Decode(e) && k <= |r| && (ok <==> k < |r| && b(k)) && (ok ==> rec == r[k])
        invariant NameSlot(r, b, name, k) == NameSlot(r, b, name, 0)
        decreases |r| - k
      {
        if rec.inUse && name == rec.name {
          return true, e, rec, k;
        }
        k := k + 1;
        ok, e, rec := ReadEntry(k, b(k));
      }
      found := false;
    }

    /** `dir_lookup`: what it finds is in the map, and when all reads succeed, it finds what the map has. */
    method DirLookup(name: Name, b: Bounce) returns (found: bool, sector: nat)
      requires Valid()
      ensures found <==> Seen(Records(disk.sectors, inode), b, name)
      ensures found ==> name in entries && sector == entries[name]
      ensures Reads(b) ==> (found <==> name in entries)
    {
      if Reads(b) {
        CompleteScans(Records(disk.sectors, inode), entries, b, name);
      }
      var e, rec, k;
      found, e, rec, k := Lookup(name, b);
      sector := rec.sector;
    }

    /** Lines 138-140: the first slot that is free or cannot be read, or the end of the slots. */
    method FindFree(b: Bounce) returns (e: seq<Byte>, k: nat)
      requires OnDevice(disk.sectors, inode)
      ensures |e| == ENTRY && k == FreeSlot(Records(disk.sectors, inode), b, 0)
    {
      ghost var r := Records(disk.sectors, inode);
      var ok, rec;
      k := 0;
      ok, e, rec := ReadEntry(0, b(0));
      while ok && rec.inUse
        invariant |e| == ENTRY && k <= |r| && (ok <==> k < |r| && b(k)) && (ok ==> rec == r[k])
        invariant FreeSlot(r, b, k) == FreeSlot(r, b, 0)
        decreases |r| - k
      {
        k := k + 1;
        ok, e, rec := ReadEntry(k, b(k));
      }
    }

    /** `inode_write_at(dir->inode, &e, sizeof e, ofs)` and whether it wrote a whole record. Past the last slot it can
        only touch the bytes that belong to no slot. */
    method WriteEntry(k: nat, e: seq<Byte>, ghost rec: Entry, denyWrite: nat, bounceOk: bool) returns (ok: bool)
      requires OnDevice(disk.sectors, inode) && |e| == ENTRY && rec == Decode(e) && k <= |Records(disk.sectors, inode)|
      modifies disk
      ensures OnDevice(disk.sectors, inode)
      ensures ok <==> denyWrite == 0 && bounceOk && k < |old(Records(disk.sectors, inode))|
      ensures Records(disk.sectors, inode)
              == if ok then old(Records(disk.sectors, inode))[k := rec] else old(Records(disk.sectors, inode))
      ensures !ok && inode.length % ENTRY == 0 ==> Contents(disk.sectors, inode) == old(Contents(disk.sectors, inode))
    {
      var buffer := new Byte[ENTRY](i requires 0 <= i < ENTRY => e[i]);
      assert buffer[..] == e;
      var n := InodeWriteAt(disk, inode, denyWrite, buffer, ENTRY, ENTRY * k, bounceOk);
      ok := n == ENTRY;
      WriteRecords(old(disk.sectors), disk.sectors, inode, e, k, n);
      SlotRead(old(Contents(disk.sectors, inode)), k);
    }

    /** `dir_add`, whatever reads fail in its two scans (`b1`, `b2`): it writes the slot where the second scan stopped,
        unless the first saw the name. See `AddRefinesIff` for what that does to the map. */
    method AddAnyhow(name: Name, sector: nat, denyWrite: nat, b1: Bounce, b2: Bounce, bounceOk: bool)
      returns (success: bool)
      requires OnDevice(disk.sectors, inode) && NulFree(name) && sector < B32
      modifies disk
      ensures OnDevice(disk.sectors, inode)
      ensures var r := old(Records(disk.sectors, inode));
              && (success <==>
                    ValidName(name) && !Seen(r, b1, name) && denyWrite == 0 && bounceOk && FreeSlot(r, b2, 0) < |r|)
              && Records(disk.sectors, inode)
                == if success then r[FreeSlot(r, b2, 0) := Entry(name, sector, true)] else r
    {
      if !(1 <= |name| && |name| <= NAME_MAX) {
        return false;
      }
      var found, e, rec, k := Lookup(name, b1);
      if found {
        return false;
      }
      e, k := FindFree(b2);
      FilledDecodes(e, name, sector);
      success := WriteEntry(k, Filled(e, name, sector), Entry(name, sector, true), denyWrite, bounceOk);
    }

    /** `dir_add` and the map. If it writes a record, the map gains the entry exactly if `AddsRight`; otherwise the
        records are no longer what the map says. When all reads succeed, it succeeds exactly for a valid, new name
        while a slot is free, and is right. */
    method Add(name: Name, sector: nat, denyWrite: nat, b1: Bounce, b2: Bounce, bounceOk: bool) returns (success: bool)
      requires Valid() && NulFree(name) && sector < B32
      modifies this`entries, disk
      ensures var r := old(Records(disk.sectors, inode));
              success <==>
                ValidName(name) && !Seen(r, b1, name) && denyWrite == 0 && bounceOk && FreeSlot(r, b2, 0) < |r|
      ensures entries == if success then old(entries)[name := sector] else old(entries)
      ensures Valid() <==> (success ==> AddsRight(old(Records(disk.sectors, inode)), old(entries), b2, name))
      ensures !success ==> Records(disk.sectors, inode) == old(Records(disk.sectors, inode))
      ensures Reads(b1) && Reads(b2) ==>
                && Valid()
                && (success <==> ValidName(name) && name !in old(entries) && denyWrite == 0 && bounceOk
                                 && |old(entries)| < |old(Records(disk.sectors, inode))|)
    {
      AddMeans(Records(disk.sectors, inode), entries, b1, b2, name, sector);
      success := AddAnyhow(name, sector, denyWrite, b1, b2, bounceOk);
      if success {
        entries := entries[name := sector];
      }
    }

    /** Lines 174-175: the record `e` of slot `k` is written back with in_use cleared. */
    method Erase(k: nat, e: seq<Byte>, ghost rec: Entry, denyWrite: nat, bounceOk: bool) returns (success: bool)
      requires Valid() && k < |Records(disk.sectors, inode)| && |e| == ENTRY && rec == Decode(e)
      requires rec == Records(disk.sectors, inode)[k] && rec.inUse
      modifies this`entries, disk
      ensures Valid() && (success <==> denyWrite == 0 && bounceOk)
      ensures entries == if success then old(entries) - {rec.name} else old(entries)
      ensures !success ==> Records(disk.sectors, inode) == old(Records(disk.sectors, inode))
    {
      ghost var r, cleared := Records(disk.sectors, inode), rec.(inUse := false);
      var e' := Cleared(e);
      success := WriteEntry(k, e', cleared, denyWrite, bounceOk);
      if success {
        EraseRefines(r, entries, k, cleared);
        entries := entries - {rec.name};
      }
    }

    /** The directory's part of `dir_remove`, whatever reads fail; `opens` says whether `inode_open` succeeds for the
        entry's sector. An entry that the scan does not see stays. */
    method Remove(name: Name, opens: bool, denyWrite: nat, b: Bounce, bounceOk: bool)
      returns (success: bool, sector: nat)
      requires Valid()
      modifies this`entries, disk
      ensures Valid()
      ensures success <==> Seen(old(Records(disk.sectors, inode)), b, name) && opens && denyWrite == 0 && bounceOk
      ensures Reads(b) ==> (success <==> name in old(entries) && opens && denyWrite == 0 && bounceOk)
      ensures success ==> name in old(entries) && sector == old(entries)[name]
      ensures entries == if success then old(entries) - {name} else old(entries)
      ensures !success ==> Records(disk.sectors, inode) == old(Records(disk.sectors, inode))
    {
      if Reads(b) {
        CompleteScans(Records(disk.sectors, inode), entries, b, name);
      }
      var found, e, rec, k := Lookup(name, b);
      sector := rec.sector;
      if !found || !opens {
        return false, sector;
      }
      success := Erase(k, e, rec, denyWrite, bounceOk);
    }

    /** The loop of `dir_readdir`: the first record in use from slot `k0` on, and the slot behind it. */
    method NextInUse(k0: nat, b: Bounce) returns (more: bool, k: nat, name: Name)
      requires OnDevice(disk.sectors, inode) && k0 <= |Records(disk.sectors, inode)|
      ensures NextName(Records(disk.sectors, inode), b, k0, more, k, name)
    {
      more, k, name := ScanInUse(k0, b);
      NextSlotIs(Records(disk.sectors, inode), b, k0);
      NextSlotNames(Records(disk.sectors, inode), b, k0);
    }

    method ScanInUse(k0: nat, b: Bounce) returns (more: bool, k: nat, name: Name)
      requires OnDevice(disk.sectors, inode) && k0 <= |Records(disk.sectors, inode)|
      ensures var r, e := Records(disk.sectors, inode), NextSlot(Records(disk.sectors, inode), b, k0);
              && (more <==> e < |r| && b(e) && r[e].inUse)
              && k == (if more then e + 1 else e) && (more ==> name == r[e].name)
    {
      ghost var r := Records(disk.sectors, inode);
      k, name := k0, [];
      var ok, e, rec := ReadEntry(k, b(k));
      while ok
        invariant k <= |r| && (ok <==> k < |r| && b(k)) && (ok ==> rec == r[k])
                  && NextSlot(r, b, k) == NextSlot(r, b, k0)
        decreases |r| - k
      {
        k := k + 1;
        if rec.inUse {
          return true, k, rec.name;
        }
        ok, e, rec := ReadEntry(k, b(k));
      }
      more := false;
    }

    /** `dir_readdir`: the next name of the listing, and the position behind it. When a read fails, the listing stops
        there and goes on with the next call. */
    method Readdir(b: Bounce) returns (more: bool, name: Name)
      requires Valid() && pos / ENTRY <= |Records(disk.sectors, inode)|
      modifies this`pos
      ensures Valid() && pos / ENTRY <= |Records(disk.sectors, inode)|
      ensures NextName(Records(disk.sectors, inode), b, old(pos) / ENTRY, more, pos / ENTRY, name)
    {
      var k;
      more, k, name := NextInUse(pos / ENTRY, b);
      pos := ENTRY * k;
    }
  }

  /** From slot `k0` on, `name` is the next name of the listing, and the rest of the listing starts at slot `k`; or
      there is none, because the listing is at its end or slot `k` cannot be read, and nothing was skipped. */
  ghost predicate NextName(r: seq<Entry>, b: Bounce, k0: nat, more: bool, k: nat, name: Name) {
    k0 <= |r| && k <= |r| &&
    var rest := Listing(r, k0);
    if more then rest != [] && name == rest[0] && Listing(r, k) == rest[1..]
    else Listing(r, k) == rest && (k == |r| || !b(k))
  }
}
