/** Who owns which sector, and for how long (proj-pregame/src/filesys: filesys.c, inode.c, file.c, free-map.c).

    The state of the file system is a value and every system call is a function of it, so that statements can
    range over whole runs. The root directory is its records (see `Directory`), the free map is the set of sectors
    marked used, and the list of open inodes is a map from header sectors. Everything that may fail has an outcome
    among the parameters of the call, down to the bounce buffers of the directory's scans. */
module FileSystem {
  import opened Basics
  import opened InodeIO
  import opened Directory

  const FREE_MAP_SECTOR: nat := 0
  const ROOT_DIR_SECTOR: nat := 1

  /** Who has an inode open: the free map, an open file, or a call that is under way. */
  datatype Handle = FreeMap | Of(file: nat) | Call

  /** `struct inode`. `handles` and `deniers` are auxiliary: who opened it, and who denied writes to it. */
  datatype Inode = Inode(openCnt: int, removed: bool, denyCnt: int, data: DiskInode, handles: set<Handle>,
                         deniers: set<Handle>)

  /** `struct file`: its inode, by header sector, and whether it denies writes. */
  datatype File = File(inode: nat, deny: bool)

  datatype State = State(
    used: set<nat>, onDisk: map<nat, DiskInode>, dir: seq<Entry>,
    open: map<nat, Inode>, files: map<nat, File>)

  /** The sectors `start` to `start + cnt` (exclusive). */
  function Range(start: nat, cnt: nat): set<nat> {
    if cnt == 0 then {} else Range(start, cnt - 1) + {start + cnt - 1}
  }

  /** The sectors of an inode: its header and its data. */
  function Footprint(s: nat, d: DiskInode): set<nat> {
    {s} + Range(d.start, BytesToSectors(d.length))
  }

  /** Slot `k` of the directory is in use. */
  predicate Taken(dir: seq<Entry>, k: nat) { k < |dir| && dir[k].inUse }

  /** The header sectors that the directory has names for. */
  function Named(dir: seq<Entry>): set<nat> {
    set k | 0 <= k < |dir| && dir[k].inUse :: dir[k].sector
  }

  /** The header sectors of all inodes that exist: the two system files, the named files and the open files. */
  function Live(st: State): set<nat> {
    {FREE_MAP_SECTOR, ROOT_DIR_SECTOR} + Named(st.dir) + st.open.Keys
  }

  /* ---- free-map.c and inode.c ---- */

  /** `free_map_release`; its ASSERT is the precondition. */
  function Release(used: set<nat>, start: nat, cnt: nat): set<nat>
    requires Range(start, cnt) <= used
  {
    used - Range(start, cnt)
  }

  /** What `bitmap_scan_and_flip` may return: a run of clear bits, or failure. */
  ghost predicate ScanOk(used: set<nat>, cnt: nat, scan: Option<nat>) {
    scan.Some? ==> Range(scan.value, cnt) !! used
  }

  function InodeOpen(st: State, s: nat, h: Handle): State
    requires s in st.onDisk
  {
    if s in st.open then
      var o := st.open[s];
      st.(open := st.open[s := o.(openCnt := o.openCnt + 1, handles := o.handles + {h})])
    else
      st.(open := st.open[s := Inode(1, false, 0, st.onDisk[s], {h}, {})])
  }

  /** May the inode be closed by `h`? If it goes away, the ASSERTs of `free_map_release` must hold. */
  ghost predicate Closable(st: State, s: nat, h: Handle) {
    && s in st.open && h in st.open[s].handles
    && (st.open[s].openCnt == 1 && st.open[s].removed ==>
          var d := st.open[s].data; s in st.used && Range(d.start, BytesToSectors(d.length)) <= st.used - {s})
  }

  function InodeClose(st: State, s: nat, h: Handle): State
    requires Closable(st, s, h)
  {
    var o := st.open[s];
    if o.openCnt - 1 != 0 then
      st.(open := st.open[s := o.(openCnt := o.openCnt - 1, handles := o.handles - {h})])
    else
      var st1 := st.(open := st.open - {s});
      if o.removed then
        st1.(used := Release(Release(st.used, s, 1), o.data.start, BytesToSectors(o.data.length)))
      else st1
  }

  /* ---- The invariant ---- */

  lemma {:induction false} RangeHas(start: nat, cnt: nat, i: nat)
    ensures i in Range(start, cnt) <==> start <= i < start + cnt
  {
    if cnt > 0 {
      RangeHas(start, cnt - 1, i);
    }
  }

  /** The inodes with headers in `live` are on disk, own disjoint sectors, and all of these are marked used. */
  ghost predicate StoreInv(used: set<nat>, onDisk: map<nat, DiskInode>, live: set<nat>) {
    && (forall s :: s in live ==> s in onDisk && s !in Range(onDisk[s].start, BytesToSectors(onDisk[s].length)))
    && (forall s :: s in live ==> Footprint(s, onDisk[s]) <= used)
    && (forall s, t :: s in live && t in live && s != t ==> Footprint(s, onDisk[s]) !! Footprint(t, onDisk[t]))
  }

  ghost predicate System(s: nat) { s == FREE_MAP_SECTOR || s == ROOT_DIR_SECTOR }

  /** No two records lead to the same file, and none to a system file. A name may occur twice. */
  ghost predicate DirInv(dir: seq<Entry>) {
    && (forall k :: 0 <= k < |dir| && dir[k].inUse ==> !System(dir[k].sector))
    && (forall i, k :: 0 <= i < k < |dir| && dir[i].inUse && dir[k].inUse ==> dir[i].sector != dir[k].sector)
  }

  /** The inode has no name; it is gone when nobody has it open. */
  predicate Nameless(st: State, s: nat) { s !in Named(st.dir) && s != FREE_MAP_SECTOR && s != ROOT_DIR_SECTOR }

  /** The counts of an open inode are the numbers of its handles, and it is not marked removed while it has a name. */
  ghost predicate OpenInv(st: State, s: nat) {
    s in st.open ==>
      var o := st.open[s];
      && s in st.onDisk && o.data == st.onDisk[s]
      && o.openCnt == |o.handles| && o.handles != {} && o.denyCnt == |o.deniers| && o.deniers <= o.handles
      && (o.removed ==> Nameless(st, s))
      && (FreeMap in o.handles ==> s == FREE_MAP_SECTOR)
  }

  /** A handle and its file know each other. */
  ghost predicate FileInv(st: State, s: nat, f: nat) {
    && (s in st.open && Of(f) in st.open[s].handles <==> f in st.files && st.files[f].inode == s)
    && (s in st.open && Of(f) in st.open[s].deniers <==> f in st.files && st.files[f] == File(s, true))
  }

  ghost predicate NoCall(st: State, s: nat) {
    s in st.open ==> Call !in st.open[s].handles
  }

  /** What holds even while a call has an inode open. */
  ghost predicate Core(st: State) {
    && StoreInv(st.used, st.onDisk, Live(st)) && DirInv(st.dir)
    && (forall s :: OpenInv(st, s))
    && (forall s, f :: FileInv(st, s, f))
  }

  ghost predicate Inv(st: State) {
    Core(st) && (forall s :: NoCall(st, s))
  }

  /* ---- Storage: inodes come and go with their sectors ---- */

  lemma StoreAdd(used: set<nat>, onDisk: map<nat, DiskInode>, live: set<nat>, s: nat, d: DiskInode)
    requires StoreInv(used, onDisk, live) && s !in live
    requires s !in used && Range(d.start, BytesToSectors(d.length)) !! (used + {s})
    ensures StoreInv(used + Footprint(s, d), onDisk[s := d], live + {s})
  {
  }

  lemma StoreDrop(used: set<nat>, onDisk: map<nat, DiskInode>, live: set<nat>, s: nat)
    requires StoreInv(used, onDisk, live) && s in live
    ensures StoreInv(used - Footprint(s, onDisk[s]), onDisk, live - {s})
  {
  }

  /** An inode may be lost without its sectors. */
  lemma StoreLose(used: set<nat>, onDisk: map<nat, DiskInode>, live: set<nat>, less: set<nat>)
    requires StoreInv(used, onDisk, live) && less <= live
    ensures StoreInv(used, onDisk, less)
  {
  }

  /** Sectors that nobody owns may be marked used or not, and inodes that nobody uses may be rewritten. */
  lemma StoreLeak(used: set<nat>, onDisk: map<nat, DiskInode>, live: set<nat>, more: set<nat>, s: nat, d: DiskInode)
    requires StoreInv(used, onDisk, live) && s !in live && used <= more
    ensures StoreInv(more, onDisk[s := d], live)
  {
  }

  /* ---- System calls ---- */

  /** A call with the outcomes of what may fail in it: `dirOk` (the root directory opens), `b`, `b1` and `b2` (the
      bounce buffers of the scans of the directory), `scan` and `scanData` (free sectors, `None` also when the free map
      cannot be written), `writeOk` (the directory's record can be written), `callocOk`, `mallocOk` and `fileOk`
      (memory). */
  datatype SysCall =
    | Create(name: Name, length: nat, dirOk: bool, scan: Option<nat>, callocOk: bool, scanData: Option<nat>,
             b1: Bounce, b2: Bounce, writeOk: bool)
    | Open(name: Name, f: nat, dirOk: bool, b: Bounce, mallocOk: bool, fileOk: bool)
    | Reopen(g: nat, f: nat, fileOk: bool)
    | Close(f: nat)
    | Remove(name: Name, dirOk: bool, b: Bounce, mallocOk: bool, writeOk: bool)
    | DenyWrite(f: nat)
    | AllowWrite(f: nat)

  ghost predicate Enabled(st: State, c: SysCall) {
    match c
    case Create(_, length, _, scan, _, scanData, _, _, _) =>
      && ScanOk(st.used, 1, scan)
      && (scan.Some? ==> ScanOk(st.used + {scan.value}, BytesToSectors(length), scanData))
    case Open(_, f, _, _, _, _) => f !in st.files
    case Reopen(g, f, _) => g in st.files && f !in st.files
    case Close(f) => f in st.files
    case Remove(_, _, _, _, _) => true
    case DenyWrite(f) => f in st.files
    case AllowWrite(f) => f in st.files
  }

  /** The slot that `dir_add` writes, if it succeeds (see `Directory.Dir.AddAnyhow`). */
  function AddSlot(dir: seq<Entry>, name: Name, b1: Bounce, b2: Bounce, writeOk: bool): (k: Option<nat>)
    ensures k.Some? ==> k.value < |dir|
  {
    var k := FreeSlot(dir, b2, 0);
    if ValidName(name) && Found(dir, b1, name).None? && k < |dir| && writeOk then Some(k) else None
  }

  /** The slot is the first that is free or cannot be read, and there is none if the name is invalid or seen before the
      first slot that the other scan cannot read. */
  lemma AddSlotIff(dir: seq<Entry>, name: Name, b1: Bounce, b2: Bounce, writeOk: bool, k: nat)
    ensures AddSlot(dir, name, b1, b2, writeOk) == Some(k) <==>
              && ValidName(name) && !Seen(dir, b1, name) && writeOk
              && k < |dir| && (!b2(k) || !dir[k].inUse) && (forall i :: 0 <= i < k ==> b2(i) && dir[i].inUse)
  {
    FoundIffSeen(dir, b1, name);
  }

  /** `inode_create` on the sectors that were found, and then `dir_add`, which writes slot `k`; when it fails, only the
      header sector is released. */
  function Created(st: State, name: Name, s: nat, d: DiskInode, k: Option<nat>): State
    requires k.Some? ==> k.value < |st.dir|
  {
    var st1 := st.(used := st.used + Footprint(s, d), onDisk := st.onDisk[s := d]);
    if k.Some? then st1.(dir := st.dir[k.value := Entry(name, s, true)]) else st1.(used := st1.used - {s})
  }

  /** `filesys_create`. */
  function DoCreate(st: State, c: SysCall): State
    requires c.Create?
  {
    if !c.dirOk || c.scan.None? || !c.callocOk || c.scanData.None? then st
    else
      Created(st, c.name, c.scan.value, DiskInode(c.scanData.value, c.length),
              AddSlot(st.dir, c.name, c.b1, c.b2, c.writeOk))
  }

  /** The sector that the scan found belongs to nobody. */
  lemma ScannedIsFree(st: State, s: nat)
    requires StoreInv(st.used, st.onDisk, Live(st)) && ScanOk(st.used, 1, Some(s))
    ensures s !in st.used && s !in Live(st)
  {
    RangeHas(s, 1, s);
    assert forall t :: t in Live(st) ==> t in Footprint(t, st.onDisk[t]);
  }

  /** The record of slot `k` is overwritten; its inode loses its name, if the slot was in use. */
  function Dropped(dir: seq<Entry>, k: nat): set<nat> { if Taken(dir, k) then {dir[k].sector} else {} }

  lemma NamedPut(dir: seq<Entry>, k: nat, e: Entry)
    requires DirInv(dir) && k < |dir|
    ensures Named(dir[k := e]) == Named(dir) - Dropped(dir, k) + if e.inUse then {e.sector} else {}
  {
    var dir' := dir[k := e];
    forall x ensures x in Named(dir') <==> x in Named(dir) - Dropped(dir, k) + if e.inUse then {e.sector} else {} {
      if x in Named(dir') {
        var i :| 0 <= i < |dir'| && dir'[i].inUse && dir'[i].sector == x;
        assert i != k ==> dir[i] == dir'[i];
      }
      if x in Named(dir) - Dropped(dir, k) {
        var i :| 0 <= i < |dir| && dir[i].inUse && dir[i].sector == x;
        assert dir'[i] == dir[i];
      }
      if e.inUse && x == e.sector {
        assert dir'[k].sector == x;
      }
    }
  }

  lemma DirPuts(dir: seq<Entry>, k: nat, e: Entry)
    requires DirInv(dir) && k < |dir| && (e.inUse ==> e.sector !in Named(dir) && !System(e.sector))
    ensures DirInv(dir[k := e])
  {
    forall i | 0 <= i < |dir| && dir[i].inUse ensures dir[i].sector in Named(dir) {}
  }

  /** What a new name does to the set of inodes that exist. */
  lemma CreatedLive(st: State, name: Name, s: nat, k: nat)
    requires DirInv(st.dir) && k < |st.dir| && s !in Live(st)
    ensures var st' := st.(dir := st.dir[k := Entry(name, s, true)]);
            && Live(st') <= Live(st) + {s} && s in Live(st')
            && (forall x :: x in Live(st) ==> (x in Live(st') <==> x !in Dropped(st.dir, k) - st.open.Keys))
  {
    NamedPut(st.dir, k, Entry(name, s, true));
    forall x | x in Dropped(st.dir, k) ensures !System(x) {}
  }

  lemma CreateStore(st: State, name: Name, s: nat, d: DiskInode, k: Option<nat>)
    requires StoreInv(st.used, st.onDisk, Live(st)) && DirInv(st.dir) && (k.Some? ==> k.value < |st.dir|)
    requires s !in st.used && s !in Live(st) && Range(d.start, BytesToSectors(d.length)) !! (st.used + {s})
    ensures var st' := Created(st, name, s, d, k); StoreInv(st'.used, st'.onDisk, Live(st')) && DirInv(st'.dir)
  {
    var used, onDisk := st.used + Footprint(s, d), st.onDisk[s := d];
    var st' := Created(st, name, s, d, k);
    if k.Some? {
      StoreAdd(st.used, st.onDisk, Live(st), s, d);
      CreatedLive(st, name, s, k.value);
      StoreLose(used, onDisk, Live(st) + {s}, Live(st'));
      DirPuts(st.dir, k.value, Entry(name, s, true));
    } else {
      StoreLeak(st.used, st.onDisk, Live(st), used - {s}, s, d);
      assert st'.used == used - {s} && st'.onDisk == onDisk && Live(st') == Live(st);
    }
  }

  /* ---- Opening and closing inodes ---- */

  lemma OpenKeepsOpen(st: State, s: nat, h: Handle, x: nat)
    requires s in st.onDisk && OpenInv(st, x) && OpenInv(st, s) && (s in st.open ==> h !in st.open[s].handles)
    requires h != FreeMap
    ensures OpenInv(InodeOpen(st, s, h), x)
  {
  }

  lemma OpenKeepsFile(st: State, s: nat, h: Handle, x: nat, f: nat)
    requires s in st.onDisk && FileInv(st, x, f) && h != Of(f)
    ensures FileInv(InodeOpen(st, s, h), x, f)
  {
  }

  /** Opening an inode that exists, by a handle that does not have it open yet. */
  lemma OpenKeeps(st: State, s: nat, h: Handle)
    requires Core(st) && s in Live(st) && (s in st.open ==> h !in st.open[s].handles) && h != FreeMap
    ensures s in st.onDisk && Live(InodeOpen(st, s, h)) == Live(st)
    ensures forall x :: OpenInv(InodeOpen(st, s, h), x)
    ensures forall x, f :: h != Of(f) ==> FileInv(InodeOpen(st, s, h), x, f)
  {
    var st1 := InodeOpen(st, s, h);
    forall x ensures OpenInv(st1, x) { OpenKeepsOpen(st, s, h, x); }
    forall x, f | h != Of(f) ensures FileInv(st1, x, f) { OpenKeepsFile(st, s, h, x, f); }
  }

  /** The ASSERTs of `free_map_release` hold for every handle of every open inode. */
  lemma CoreClosable(st: State, s: nat, h: Handle)
    requires Core(st) && s in st.open && h in st.open[s].handles
    ensures Closable(st, s, h)
  {
    assert OpenInv(st, s) && s in Live(st);
    assert s in Footprint(s, st.onDisk[s]);
  }

  lemma CloseKeepsOpen(st: State, s: nat, h: Handle, x: nat)
    requires Closable(st, s, h) && OpenInv(st, s) && OpenInv(st, x) && h !in st.open[s].deniers
    ensures OpenInv(InodeClose(st, s, h), x)
  {
    var o := st.open[s];
    assert |o.handles - {h}| == |o.handles| - 1;
  }

  lemma CloseKeepsFile(st: State, s: nat, h: Handle, x: nat, f: nat)
    requires Closable(st, s, h) && OpenInv(st, s) && FileInv(st, x, f) && h != Of(f)
    ensures FileInv(InodeClose(st, s, h), x, f)
  {
    var o := st.open[s];
    if o.openCnt == 1 && Of(f) in o.handles {
      TwoHandles(o.handles, h, Of(f));
    }
  }

  lemma TwoHandles(hs: set<Handle>, a: Handle, b: Handle)
    requires a in hs && b in hs && a != b
    ensures |hs| >= 2
  {
    assert hs == {a} + (hs - {a});
    assert hs - {a} == {b} + (hs - {a} - {b});
  }

  /** Does closing by this handle give the sectors back? */
  predicate LastClose(st: State, s: nat)
    requires s in st.open
  {
    st.open[s].openCnt == 1 && st.open[s].removed
  }

  /** Does the inode cease to exist with this close? */
  predicate Vanishes(st: State, s: nat)
    requires s in st.open
  {
    st.open[s].openCnt == 1 && Nameless(st, s)
  }

  lemma CloseStore(st: State, s: nat, h: Handle)
    requires Closable(st, s, h) && OpenInv(st, s) && StoreInv(st.used, st.onDisk, Live(st))
    ensures var st1 := InodeClose(st, s, h);
            && StoreInv(st1.used, st1.onDisk, Live(st1)) && st1.onDisk == st.onDisk && st1.dir == st.dir
            && st1.files == st.files
            && st1.used == (if LastClose(st, s) then st.used - Footprint(s, st.open[s].data) else st.used)
            && Live(st1) == (if Vanishes(st, s) then Live(st) - {s} else Live(st))
  {
    CloseEffect(st, s, h);
    if LastClose(st, s) {
      StoreDrop(st.used, st.onDisk, Live(st), s);
    } else {
      StoreLose(st.used, st.onDisk, Live(st), Live(InodeClose(st, s, h)));
    }
  }

  lemma CloseEffect(st: State, s: nat, h: Handle)
    requires Closable(st, s, h) && OpenInv(st, s)
    ensures var st1 := InodeClose(st, s, h);
            && st1.onDisk == st.onDisk && st1.dir == st.dir && st1.files == st.files
            && st1.used == (if LastClose(st, s) then st.used - Footprint(s, st.open[s].data) else st.used)
            && Live(st1) == (if Vanishes(st, s) then Live(st) - {s} else Live(st))
  {
    assert Range(s, 1) == {s};
  }

  /** Closing: nothing else changes, and an inode that was removed and has no other handle gives its sectors back. */
  lemma CloseKeeps(st: State, s: nat, h: Handle)
    requires Core(st) && s in st.open && h in st.open[s].handles && h !in st.open[s].deniers
    ensures Closable(st, s, h)
    ensures var st1 := InodeClose(st, s, h);
            && StoreInv(st1.used, st1.onDisk, Live(st1))
            && (forall x :: OpenInv(st1, x))
            && (forall x, f :: h != Of(f) ==> FileInv(st1, x, f))
  {
    CoreClosable(st, s, h);
    assert OpenInv(st, s);
    CloseStore(st, s, h);
    var st1 := InodeClose(st, s, h);
    forall x ensures OpenInv(st1, x) { CloseKeepsOpen(st, s, h, x); }
    forall x, f | h != Of(f) ensures FileInv(st1, x, f) { CloseKeepsFile(st, s, h, x, f); }
  }

  /* ---- filesys_open, file_reopen, file_close, filesys_remove, deny and allow ---- */

  /** Only the call under way on `s` has an inode open for itself. */
  ghost predicate CallOn(st: State, s: nat) {
    && s in st.open && Call in st.open[s].handles && Call !in st.open[s].deniers
    && (forall x :: x != s ==> NoCall(st, x))
  }

  lemma OpenCall(st: State, s: nat)
    requires Inv(st) && s in Live(st)
    ensures s in st.onDisk && Core(InodeOpen(st, s, Call)) && CallOn(InodeOpen(st, s, Call), s)
            && Live(InodeOpen(st, s, Call)) == Live(st)
  {
    assert OpenInv(st, s) && NoCall(st, s);
    OpenKeeps(st, s, Call);
    assert forall x :: x != s ==> (NoCall(InodeOpen(st, s, Call), x) <==> NoCall(st, x));
  }

  lemma CloseCall(st: State, s: nat)
    requires Core(st) && CallOn(st, s)
    ensures Closable(st, s, Call) && Inv(InodeClose(st, s, Call))
  {
    CloseKeeps(st, s, Call);
    var st1 := InodeClose(st, s, Call);
    assert st1.dir == st.dir;
    forall x ensures NoCall(st1, x) { assert x != s ==> NoCall(st, x); }
  }

  lemma OpenThenClose(st: State, s: nat)
    requires s in st.onDisk && (s in st.open ==> st.open[s].openCnt > 0 && Call !in st.open[s].handles)
    requires Closable(InodeOpen(st, s, Call), s, Call)
    ensures InodeClose(InodeOpen(st, s, Call), s, Call) == st
  {
    if s in st.open {
      var o := st.open[s];
      assert o.handles + {Call} - {Call} == o.handles;
      assert st.open[s := o] == st.open;
    } else {
      var o := Inode(1, false, 0, st.onDisk[s], {Call}, {});
      assert st.open[s := o] - {s} == st.open;
    }
  }

  /** Opening an inode for a call and closing it again changes nothing at all. */
  lemma OpenAndClose(st: State, s: nat)
    requires Inv(st) && s in Live(st)
    ensures s in st.onDisk && Closable(InodeOpen(st, s, Call), s, Call)
    ensures InodeClose(InodeOpen(st, s, Call), s, Call) == st
  {
    assert OpenInv(st, s) && NoCall(st, s);
    OpenCall(st, s);
    CoreClosable(InodeOpen(st, s, Call), s, Call);
    OpenThenClose(st, s);
  }

  /** A new file on an inode that exists. */
  function NewFile(st: State, s: nat, f: nat): State
    requires s in st.onDisk
  {
    InodeOpen(st, s, Of(f)).(files := st.files[f := File(s, false)])
  }

  lemma NewFileKeeps(st: State, s: nat, f: nat)
    requires Inv(st) && s in Live(st) && f !in st.files
    ensures s in st.onDisk && Inv(NewFile(st, s, f))
  {
    assert FileInv(st, s, f) && OpenInv(st, s);
    OpenKeeps(st, s, Of(f));
    var st1 := NewFile(st, s, f);
    assert Live(st1) == Live(st);
    forall x ensures OpenInv(st1, x) && NoCall(st1, x) { OpenedInode(st, s, f, x); }
    forall x, g ensures FileInv(st1, x, g) { NewFileFile(st, s, f, x, g); }
  }

  lemma OpenedInode(st: State, s: nat, f: nat, x: nat)
    requires s in st.onDisk && OpenInv(InodeOpen(st, s, Of(f)), x) && NoCall(st, x)
    requires s in st.open ==> NoCall(st, s)
    ensures OpenInv(NewFile(st, s, f), x) && NoCall(NewFile(st, s, f), x)
  {
  }

  lemma NewFileFile(st: State, s: nat, f: nat, x: nat, g: nat)
    requires s in st.onDisk && f !in st.files && FileInv(st, x, g) && FileInv(st, x, f)
    requires g != f ==> FileInv(InodeOpen(st, s, Of(f)), x, g)
    ensures FileInv(NewFile(st, s, f), x, g)
  {
  }

  lemma TakenIsLive(st: State, k: nat)
    requires Taken(st.dir, k)
    ensures st.dir[k].sector in Live(st)
  {
  }

  /** `filesys_open` when `dir_lookup` found slot `k`: the inode is opened and `file_open` makes a file of it, or closes
      it again. */
  function OpenSlot(st: State, k: nat, f: nat, mallocOk: bool, fileOk: bool): State
    requires Inv(st) && Taken(st.dir, k)
  {
    var s := st.dir[k].sector;
    TakenIsLive(st, k);
    if s !in st.open && !mallocOk then st
    else if fileOk then NewFile(st, s, f)
    else OpenAndClose(st, s); InodeClose(InodeOpen(st, s, Call), s, Call)
  }

  /** The slot that `dir_lookup` or `dir_remove` finds. */
  function LookupSlot(st: State, name: Name, dirOk: bool, b: Bounce): (k: Option<nat>)
    ensures k.Some? ==> Taken(st.dir, k.value) && st.dir[k.value].name == name
  {
    if dirOk then Found(st.dir, b, name) else None
  }

  /** `filesys_open`. */
  function DoOpen(st: State, name: Name, f: nat, dirOk: bool, b: Bounce, mallocOk: bool, fileOk: bool): State
    requires Inv(st)
  {
    var k := LookupSlot(st, name, dirOk, b);
    if k.None? then st else OpenSlot(st, k.value, f, mallocOk, fileOk)
  }

  /** `file_reopen`. */
  function DoReopen(st: State, g: nat, f: nat, fileOk: bool): State
    requires Inv(st) && g in st.files
  {
    var s := st.files[g].inode;
    assert FileInv(st, s, g) && OpenInv(st, s);
    if fileOk then NewFile(st, s, f) else OpenAndClose(st, s); InodeClose(InodeOpen(st, s, Call), s, Call)
  }

  /** `file_deny_write` and `inode_deny_write`. */
  function DoDeny(st: State, f: nat): State
    requires f in st.files && st.files[f].inode in st.open
  {
    var s := st.files[f].inode;
    var o := st.open[s];
    if st.files[f].deny then st
    else st.(files := st.files[f := File(s, true)],
             open := st.open[s := o.(denyCnt := o.denyCnt + 1, deniers := o.deniers + {Of(f)})])
  }

  /** `file_allow_write` and `inode_allow_write`. */
  function DoAllow(st: State, f: nat): State
    requires f in st.files && st.files[f].inode in st.open
  {
    var s := st.files[f].inode;
    var o := st.open[s];
    if !st.files[f].deny then st
    else st.(files := st.files[f := File(s, false)],
             open := st.open[s := o.(denyCnt := o.denyCnt - 1, deniers := o.deniers - {Of(f)})])
  }

  lemma FileIsOpen(st: State, f: nat)
    requires Inv(st) && f in st.files
    ensures var s := st.files[f].inode; s in st.open && Of(f) in st.open[s].handles && s in Live(st)
  {
    assert FileInv(st, st.files[f].inode, f);
  }

  lemma DenyOne(st: State, f: nat, x: nat, g: nat)
    requires f in st.files && st.files[f].inode in st.open && OpenInv(st, st.files[f].inode)
             && FileInv(st, st.files[f].inode, f)
    requires OpenInv(st, x) && NoCall(st, x) && FileInv(st, x, g)
    ensures OpenInv(DoDeny(st, f), x) && NoCall(DoDeny(st, f), x) && FileInv(DoDeny(st, f), x, g)
    ensures OpenInv(DoAllow(st, f), x) && NoCall(DoAllow(st, f), x) && FileInv(DoAllow(st, f), x, g)
  {
  }

  lemma DenyKeeps(st: State, f: nat)
    requires Inv(st) && f in st.files && st.files[f].inode in st.open
    ensures Inv(DoDeny(st, f))
  {
    var s, d := st.files[f].inode, DoDeny(st, f);
    assert FileInv(st, s, f) && OpenInv(st, s);
    assert Live(d) == Live(st);
    forall x, g ensures OpenInv(d, x) && NoCall(d, x) && FileInv(d, x, g) { DenyOne(st, f, x, g); }
    forall x ensures OpenInv(d, x) && NoCall(d, x) { assert FileInv(d, x, 0); }
  }

  lemma AllowKeeps(st: State, f: nat)
    requires Inv(st) && f in st.files && st.files[f].inode in st.open
    ensures Inv(DoAllow(st, f))
  {
    var s, a := st.files[f].inode, DoAllow(st, f);
    assert FileInv(st, s, f) && OpenInv(st, s);
    assert Live(a) == Live(st);
    forall x, g ensures OpenInv(a, x) && NoCall(a, x) && FileInv(a, x, g) { DenyOne(st, f, x, g); }
    forall x ensures OpenInv(a, x) && NoCall(a, x) { assert FileInv(a, x, 0); }
  }

  /** `file_close`. */
  function DoClose(st: State, f: nat): State
    requires Inv(st) && f in st.files
  {
    FileIsOpen(st, f);
    AllowKeeps(st, f);
    var st1, s := DoAllow(st, f), st.files[f].inode;
    CloseFile(st1, f);
    InodeClose(st1, s, Of(f)).(files := st1.files - {f})
  }

  lemma CloseFile(st: State, f: nat)
    requires Inv(st) && f in st.files && !st.files[f].deny
    ensures var s := st.files[f].inode;
            Closable(st, s, Of(f)) && Inv(InodeClose(st, s, Of(f)).(files := st.files - {f}))
  {
    var s := st.files[f].inode;
    FileIsOpen(st, f);
    assert FileInv(st, s, f) && OpenInv(st, s);
    CloseKeeps(st, s, Of(f));
    var st1 := InodeClose(st, s, Of(f));
    var st2 := st1.(files := st.files - {f});
    ClosedStore(st, s, Of(f), st.files - {f});
    forall x ensures OpenInv(st2, x) && NoCall(st2, x) { ClosedInode(st, f, x); }
    forall x, g ensures FileInv(st2, x, g) { ClosedFile(st, f, x, g); }
  }

  lemma ClosedStore(st: State, s: nat, h: Handle, files: map<nat, File>)
    requires Closable(st, s, h) && OpenInv(st, s) && StoreInv(st.used, st.onDisk, Live(st)) && DirInv(st.dir)
    ensures var st2 := InodeClose(st, s, h).(files := files);
            StoreInv(st2.used, st2.onDisk, Live(st2)) && DirInv(st2.dir)
  {
    CloseStore(st, s, h);
    var st1 := InodeClose(st, s, h);
    assert Live(st1.(files := files)) == Live(st1);
  }

  lemma ClosedInode(st: State, f: nat, x: nat)
    requires f in st.files && Closable(st, st.files[f].inode, Of(f)) && NoCall(st, x)
    requires OpenInv(InodeClose(st, st.files[f].inode, Of(f)), x)
    ensures var st2 := InodeClose(st, st.files[f].inode, Of(f)).(files := st.files - {f});
            OpenInv(st2, x) && NoCall(st2, x)
  {
  }

  lemma ClosedFile(st: State, f: nat, x: nat, g: nat)
    requires f in st.files && Closable(st, st.files[f].inode, Of(f)) && FileInv(st, x, g)
    requires Of(f) !in st.open[st.files[f].inode].deniers
    requires g != f ==> FileInv(InodeClose(st, st.files[f].inode, Of(f)), x, g)
    ensures FileInv(InodeClose(st, st.files[f].inode, Of(f)).(files := st.files - {f}), x, g)
  {
  }

  /** The inode loses its name and is marked removed: lines 174-179 of directory.c. */
  function Unlink(st: State, k: nat): State
    requires Taken(st.dir, k) && st.dir[k].sector in st.open
  {
    var s := st.dir[k].sector;
    st.(dir := st.dir[k := st.dir[k].(inUse := false)], open := st.open[s := st.open[s].(removed := true)])
  }

  lemma UnlinkOne(st: State, k: nat, x: nat)
    requires Taken(st.dir, k) && st.dir[k].sector in st.open && OpenInv(st, x) && !System(st.dir[k].sector)
    requires Named(Unlink(st, k).dir) == Named(st.dir) - {st.dir[k].sector}
    ensures OpenInv(Unlink(st, k), x)
  {
    var st1 := Unlink(st, k);
    assert st1.onDisk == st.onDisk;
  }

  lemma UnlinkFile(st: State, k: nat, x: nat, f: nat)
    requires Taken(st.dir, k) && st.dir[k].sector in st.open && FileInv(st, x, f)
    ensures FileInv(Unlink(st, k), x, f)
  {
  }

  lemma UnlinkLive(st: State, k: nat)
    requires Taken(st.dir, k) && st.dir[k].sector in st.open
    requires Named(Unlink(st, k).dir) == Named(st.dir) - {st.dir[k].sector}
    ensures Live(Unlink(st, k)) == Live(st)
  {
    assert Unlink(st, k).open.Keys == st.open.Keys;
  }

  lemma UnlinkKeeps(st: State, k: nat)
    requires Core(st) && Taken(st.dir, k) && CallOn(st, st.dir[k].sector)
    ensures Core(Unlink(st, k)) && Live(Unlink(st, k)) == Live(st) && CallOn(Unlink(st, k), st.dir[k].sector)
  {
    var st1, e := Unlink(st, k), st.dir[k].(inUse := false);
    NamedPut(st.dir, k, e);
    DirPuts(st.dir, k, e);
    UnlinkLive(st, k);
    assert st1.onDisk == st.onDisk && st1.used == st.used;
    forall x ensures OpenInv(st1, x) { UnlinkOne(st, k, x); }
    forall x, f ensures FileInv(st1, x, f) { UnlinkFile(st, k, x, f); }
    forall x | x != st.dir[k].sector ensures NoCall(st1, x) { assert NoCall(st, x); }
  }

  /** `dir_remove` when it found slot `k`. When the record cannot be written, the inode was opened and is closed
      again. */
  function RemoveSlot(st: State, k: nat, mallocOk: bool, writeOk: bool): State
    requires Inv(st) && Taken(st.dir, k)
  {
    var s := st.dir[k].sector;
    TakenIsLive(st, k);
    if s !in st.open && !mallocOk then st
    else if writeOk then RemoveNamed(st, k); InodeClose(Unlink(InodeOpen(st, s, Call), k), s, Call)
    else OpenAndClose(st, s); InodeClose(InodeOpen(st, s, Call), s, Call)
  }

  /** `filesys_remove`. */
  function DoRemove(st: State, name: Name, dirOk: bool, b: Bounce, mallocOk: bool, writeOk: bool): State
    requires Inv(st)
  {
    var k := LookupSlot(st, name, dirOk, b);
    if k.None? then st else RemoveSlot(st, k.value, mallocOk, writeOk)
  }

  lemma RemoveNamed(st: State, k: nat)
    requires Inv(st) && Taken(st.dir, k)
    ensures st.dir[k].sector in Live(st) && st.dir[k].sector in st.onDisk
    ensures Closable(Unlink(InodeOpen(st, st.dir[k].sector, Call), k), st.dir[k].sector, Call)
    ensures Inv(InodeClose(Unlink(InodeOpen(st, st.dir[k].sector, Call), k), st.dir[k].sector, Call))
  {
    var s := st.dir[k].sector;
    TakenIsLive(st, k);
    OpenCall(st, s);
    var st1 := InodeOpen(st, s, Call);
    assert st1.dir == st.dir;
    UnlinkKeeps(st1, k);
    CloseCall(Unlink(st1, k), s);
  }

  /* ---- Every run ---- */

  function Step(st: State, c: SysCall): State
    requires Inv(st) && Enabled(st, c)
  {
    match c
    case Create(_, _, _, _, _, _, _, _, _) => DoCreate(st, c)
    case Open(name, f, dirOk, b, mallocOk, fileOk) => DoOpen(st, name, f, dirOk, b, mallocOk, fileOk)
    case Reopen(g, f, fileOk) => DoReopen(st, g, f, fileOk)
    case Close(f) => DoClose(st, f)
    case Remove(name, dirOk, b, mallocOk, writeOk) => DoRemove(st, name, dirOk, b, mallocOk, writeOk)
    case DenyWrite(f) => FileIsOpen(st, f); DoDeny(st, f)
    case AllowWrite(f) => FileIsOpen(st, f); DoAllow(st, f)
  }

  /** An open inode does not notice that another inode is written, or gets a name. */
  lemma OpenUnmoved(st: State, st': State, s: nat, x: nat)
    requires OpenInv(st, x) && s !in st.open && st'.open == st.open
    requires Named(st'.dir) <= Named(st.dir) + {s}
    requires forall y :: y in st.onDisk && y != s ==> y in st'.onDisk && st'.onDisk[y] == st.onDisk[y]
    ensures OpenInv(st', x)
  {
  }

  lemma CreateFile(st: State, name: Name, s: nat, d: DiskInode, k: Option<nat>, x: nat, f: nat)
    requires NoCall(st, x) && FileInv(st, x, f) && (k.Some? ==> k.value < |st.dir|)
    ensures var st' := Created(st, name, s, d, k); NoCall(st', x) && FileInv(st', x, f)
  {
  }

  lemma CreateKeeps(st: State, name: Name, s: nat, d: DiskInode, k: Option<nat>)
    requires Inv(st) && ScanOk(st.used, 1, Some(s)) && ScanOk(st.used + {s}, BytesToSectors(d.length), Some(d.start))
    requires k.Some? ==> k.value < |st.dir|
    ensures Inv(Created(st, name, s, d, k))
  {
    var st' := Created(st, name, s, d, k);
    ScannedIsFree(st, s);
    CreateStore(st, name, s, d, k);
    if k.Some? {
      NamedPut(st.dir, k.value, Entry(name, s, true));
    }
    forall x ensures OpenInv(st', x) { OpenUnmoved(st, st', s, x); }
    forall x, f ensures NoCall(st', x) && FileInv(st', x, f) { CreateFile(st, name, s, d, k, x, f); }
    forall x ensures NoCall(st', x) { assert FileInv(st', x, 0); }
  }

  /** Every system call keeps the invariant, whatever fails in it. */
  lemma StepInv(st: State, c: SysCall)
    requires Inv(st) && Enabled(st, c)
    ensures Inv(Step(st, c))
  {
    match c
    case Create(name, length, dirOk, scan, callocOk, scanData, b1, b2, writeOk) =>
      if dirOk && scan.Some? && callocOk && scanData.Some? {
        CreateKeeps(st, name, scan.value, DiskInode(scanData.value, length), AddSlot(st.dir, name, b1, b2, writeOk));
      }
    case Open(name, f, dirOk, b, mallocOk, fileOk) =>
      var k := LookupSlot(st, name, dirOk, b);
      if k.Some? {
        TakenIsLive(st, k.value);
        OpenAndClose(st, st.dir[k.value].sector);
        NewFileKeeps(st, st.dir[k.value].sector, f);
      }
    case Reopen(g, f, fileOk) =>
      FileIsOpen(st, g);
      OpenAndClose(st, st.files[g].inode);
      NewFileKeeps(st, st.files[g].inode, f);
    case Close(f) =>
      FileIsOpen(st, f);
      AllowKeeps(st, f);
      CloseFile(DoAllow(st, f), f);
    case Remove(name, dirOk, b, mallocOk, writeOk) =>
      var k := LookupSlot(st, name, dirOk, b);
      if k.Some? {
        RemoveNamed(st, k.value);
        OpenAndClose(st, st.dir[k.value].sector);
      }
    case DenyWrite(f) => FileIsOpen(st, f); DenyKeeps(st, f);
    case AllowWrite(f) => FileIsOpen(st, f); AllowKeeps(st, f);
  }

  /** The file system after `filesys_init`: the free map and an empty root directory, the free map open. */
  function Formatted(map0: DiskInode, root: DiskInode, slots: nat): State {
    State(Footprint(FREE_MAP_SECTOR, map0) + Footprint(ROOT_DIR_SECTOR, root),
          map[FREE_MAP_SECTOR := map0, ROOT_DIR_SECTOR := root],
          seq(slots, _ => Entry([], 0, false)), map[FREE_MAP_SECTOR := Inode(1, false, 0, map0, {FreeMap}, {})], map[])
  }

  ghost predicate Formattable(map0: DiskInode, root: DiskInode) {
    var m, r := Range(map0.start, BytesToSectors(map0.length)), Range(root.start, BytesToSectors(root.length));
    m !! r && !(exists s :: System(s) && s in m + r)
  }

  lemma FormattedStore(map0: DiskInode, root: DiskInode)
    requires Formattable(map0, root)
    ensures StoreInv(Footprint(FREE_MAP_SECTOR, map0) + Footprint(ROOT_DIR_SECTOR, root),
                     map[FREE_MAP_SECTOR := map0, ROOT_DIR_SECTOR := root], {FREE_MAP_SECTOR, ROOT_DIR_SECTOR})
  {
    assert System(FREE_MAP_SECTOR) && System(ROOT_DIR_SECTOR);
    StoreAdd({}, map[], {}, FREE_MAP_SECTOR, map0);
    StoreAdd({} + Footprint(FREE_MAP_SECTOR, map0), map[FREE_MAP_SECTOR := map0], {FREE_MAP_SECTOR}, ROOT_DIR_SECTOR,
             root);
    assert {} + Footprint(FREE_MAP_SECTOR, map0) == Footprint(FREE_MAP_SECTOR, map0);
    assert {} + {FREE_MAP_SECTOR} == {FREE_MAP_SECTOR};
    assert {FREE_MAP_SECTOR} + {ROOT_DIR_SECTOR} == {FREE_MAP_SECTOR, ROOT_DIR_SECTOR};
  }

  lemma FormattedLive(map0: DiskInode, root: DiskInode, slots: nat)
    ensures var st := Formatted(map0, root, slots);
            Live(st) == {FREE_MAP_SECTOR, ROOT_DIR_SECTOR} && DirInv(st.dir)
  {
    assert Named(Formatted(map0, root, slots).dir) == {};
  }

  lemma FormattedInv(map0: DiskInode, root: DiskInode, slots: nat)
    requires Formattable(map0, root)
    ensures Inv(Formatted(map0, root, slots)) && NoOrphans(Formatted(map0, root, slots))
  {
    var st := Formatted(map0, root, slots);
    assert System(FREE_MAP_SECTOR) && System(ROOT_DIR_SECTOR);
    FormattedStore(map0, root);
    FormattedLive(map0, root, slots);
    forall x, f ensures OpenInv(st, x) && NoCall(st, x) && FileInv(st, x, f) { FormattedOne(map0, root, slots, x, f); }
    forall x ensures OpenInv(st, x) && NoCall(st, x) { assert FileInv(st, x, 0); }
  }

  lemma FormattedOne(map0: DiskInode, root: DiskInode, slots: nat, x: nat, f: nat)
    ensures var st := Formatted(map0, root, slots); OpenInv(st, x) && NoCall(st, x) && FileInv(st, x, f)
  {
    var st := Formatted(map0, root, slots);
    assert st.open.Keys == {FREE_MAP_SECTOR};
  }

  ghost predicate Allowed(st: State, calls: seq<SysCall>)
    requires Inv(st)
    decreases |calls|
  {
    calls != [] ==> Enabled(st, calls[0]) && (StepInv(st, calls[0]); Allowed(Step(st, calls[0]), calls[1..]))
  }

  function Run(st: State, calls: seq<SysCall>): (st': State)
    requires Inv(st) && Allowed(st, calls)
    ensures Inv(st')
    decreases |calls|
  {
    if calls == [] then st else StepInv(st, calls[0]); Run(Step(st, calls[0]), calls[1..])
  }

  /* ---- What every run guarantees ---- */

  /** No sector belongs to two inodes that exist, and every sector that belongs to one is marked used. */
  lemma NoSharedSectors(map0: DiskInode, root: DiskInode, slots: nat, calls: seq<SysCall>, s: nat, t: nat)
    requires Formattable(map0, root) && Inv(Formatted(map0, root, slots))
             && Allowed(Formatted(map0, root, slots), calls)
    ensures var st := Run(Formatted(map0, root, slots), calls);
            && (s in Live(st) ==> s in st.onDisk && Footprint(s, st.onDisk[s]) <= st.used)
            && (s in Live(st) && t in Live(st) && s != t ==> Footprint(s, st.onDisk[s]) !! Footprint(t, st.onDisk[t]))
  {
  }

  /** The inode that gives its sectors back, if any: one that loses its last handle after it was removed, or one that is
      removed while nobody has it open. */
  function Victim(st: State, c: SysCall): Option<nat>
    requires Enabled(st, c)
  {
    match c
    case Close(f) =>
      var s := st.files[f].inode;
      if s in st.open && st.open[s].removed && st.open[s].handles == {Of(f)} then Some(s) else None
    case Remove(name, dirOk, b, mallocOk, writeOk) =>
      var k := LookupSlot(st, name, dirOk, b);
      if k.Some? && mallocOk && writeOk && st.dir[k.value].sector !in st.open then Some(st.dir[k.value].sector)
      else None
    case _ => None
  }

  /** The slot that a creation writes. */
  function CreateSlot(st: State, c: SysCall): (k: Option<nat>)
    requires c.Create?
    ensures k.Some? ==> k.value < |st.dir| && c.scan.Some? && c.scanData.Some?
  {
    if c.dirOk && c.scan.Some? && c.callocOk && c.scanData.Some? then AddSlot(st.dir, c.name, c.b1, c.b2, c.writeOk)
    else None
  }

  /** The inode whose record a creation overwrites, because the second scan of `dir_add` could not read it. */
  function Overwritten(st: State, c: SysCall): set<nat> {
    if c.Create? && CreateSlot(st, c).Some? then Dropped(st.dir, CreateSlot(st, c).value) else {}
  }

  /** The inodes that are lost while their sectors stay marked used: one whose record is overwritten while nobody has it
      open, or one that loses its last handle after its record was overwritten. */
  function Lost(st: State, c: SysCall): set<nat>
    requires Enabled(st, c)
  {
    match c
    case Close(f) =>
      var s := st.files[f].inode;
      if s in st.open && !st.open[s].removed && st.open[s].handles == {Of(f)} && Nameless(st, s) then {s} else {}
    case _ => Overwritten(st, c) - st.open.Keys
  }

  /** What a call may do to storage: of the inodes in `live`, exactly `victim` and those in `lost` go; `victim` gives
      back exactly its sectors, and everybody else keeps them. */
  ghost predicate Kept(used: set<nat>, onDisk: map<nat, DiskInode>, live: set<nat>, st': State, victim: Option<nat>,
                       lost: set<nat>) {
    && (forall x :: x in live ==> x in onDisk && x in st'.onDisk && st'.onDisk[x] == onDisk[x])
    && (forall x :: x in live ==> (x in Live(st') <==> x !in lost && victim != Some(x)))
    && match victim
       case None => used <= st'.used
       case Some(s) => s in live && Live(st') == live - {s} && st'.used == used - Footprint(s, onDisk[s])
  }

  lemma OneHandle(hs: set<Handle>, h: Handle)
    requires h in hs
    ensures |hs| == 1 <==> hs == {h}
  {
    if hs != {h} {
      var k :| k in hs && k != h;
      TwoHandles(hs, h, k);
    }
  }

  lemma InodeCloseVictim(st: State, s: nat, h: Handle)
    requires Core(st) && s in st.open && h in st.open[s].handles && Closable(st, s, h)
    ensures Kept(st.used, st.onDisk, Live(st), InodeClose(st, s, h),
                 if st.open[s].removed && st.open[s].handles == {h} then Some(s) else None,
                 if !st.open[s].removed && st.open[s].handles == {h} && Nameless(st, s) then {s} else {})
  {
    assert OpenInv(st, s);
    CloseStore(st, s, h);
    OneHandle(st.open[s].handles, h);
    KeptButOne(st, InodeClose(st, s, h), s, Vanishes(st, s), LastClose(st, s));
  }

  /** At most `s` goes, with its sectors or without them. */
  lemma KeptButOne(st: State, st': State, s: nat, gone: bool, released: bool)
    requires StoreInv(st.used, st.onDisk, Live(st)) && s in Live(st) && st'.onDisk == st.onDisk && (released ==> gone)
    requires Live(st') == (if gone then Live(st) - {s} else Live(st))
    requires st'.used == (if released then st.used - Footprint(s, st.onDisk[s]) else st.used)
    ensures Kept(st.used, st.onDisk, Live(st), st', if released then Some(s) else None,
                 if gone && !released then {s} else {})
  {
  }

  lemma AllowSame(st: State, f: nat)
    requires f in st.files && st.files[f].inode in st.open
    ensures var s, st1 := st.files[f].inode, DoAllow(st, f);
            && st1.used == st.used && st1.onDisk == st.onDisk && st1.dir == st.dir && Live(st1) == Live(st)
            && s in st1.open && f in st1.files
            && !st1.files[f].deny && st1.files[f].inode == s
            && st1.open[s].removed == st.open[s].removed && st1.open[s].handles == st.open[s].handles
  {
    assert DoAllow(st, f).open.Keys == st.open.Keys;
  }

  lemma CloseVictim(st: State, f: nat)
    requires Inv(st) && f in st.files
    ensures Kept(st.used, st.onDisk, Live(st), DoClose(st, f), Victim(st, Close(f)), Lost(st, Close(f)))
  {
    FileIsOpen(st, f);
    AllowKeeps(st, f);
    AllowSame(st, f);
    AllowVictim(st, f);
    CloseAllowed(DoAllow(st, f), f);
  }

  lemma AllowVictim(st: State, f: nat)
    requires f in st.files && st.files[f].inode in st.open
    ensures f in DoAllow(st, f).files
    ensures Victim(DoAllow(st, f), Close(f)) == Victim(st, Close(f))
    ensures Lost(DoAllow(st, f), Close(f)) == Lost(st, Close(f))
  {
    AllowSame(st, f);
  }

  lemma CloseAllowed(st: State, f: nat)
    requires Inv(st) && f in st.files && !st.files[f].deny
    ensures Closable(st, st.files[f].inode, Of(f))
    ensures Kept(st.used, st.onDisk, Live(st), InodeClose(st, st.files[f].inode, Of(f)).(files := st.files - {f}),
                 Victim(st, Close(f)), Lost(st, Close(f)))
  {
    var s := st.files[f].inode;
    FileIsOpen(st, f);
    CoreClosable(st, s, Of(f));
    InodeCloseVictim(st, s, Of(f));
    assert Live(InodeClose(st, s, Of(f)).(files := st.files - {f})) == Live(InodeClose(st, s, Of(f)));
  }

  lemma RemoveVictim(st: State, k: nat)
    requires Inv(st) && Taken(st.dir, k)
    ensures var s := st.dir[k].sector;
            Kept(st.used, st.onDisk, Live(st), RemoveSlot(st, k, true, true),
                 if s !in st.open then Some(s) else None, {})
  {
    var s := st.dir[k].sector;
    TakenIsLive(st, k);
    assert OpenInv(st, s) && NoCall(st, s);
    OpenCall(st, s);
    var st1 := InodeOpen(st, s, Call);
    assert st1.used == st.used && st1.onDisk == st.onDisk && st1.dir == st.dir;
    assert st1.open[s].handles == {Call} <==> s !in st.open;
    UnlinkKeeps(st1, k);
    var st2 := Unlink(st1, k);
    assert st2.used == st.used && st2.onDisk == st.onDisk && st2.open[s].handles == st1.open[s].handles
           && st2.open[s].removed;
    CoreClosable(st2, s, Call);
    InodeCloseVictim(st2, s, Call);
  }

  /** Sectors are given back exactly when a removed file loses its last handle, or a file that nobody has open is
      removed; then exactly that file's sectors. Every other inode stays, with its sectors marked used, except for
      those that are lost because their record was overwritten. */
  lemma OnlyVictimsGo(st: State, c: SysCall)
    requires Inv(st) && Enabled(st, c)
    ensures Kept(st.used, st.onDisk, Live(st), Step(st, c), Victim(st, c), Lost(st, c))
  {
    match c
    case Create(name, length, dirOk, scan, callocOk, scanData, b1, b2, writeOk) =>
      CreateVictim(st, c);
    case Open(name, f, dirOk, b, mallocOk, fileOk) => OpenVictim(st, c);
    case Reopen(g, f, fileOk) =>
      FileIsOpen(st, g);
      OpenAndClose(st, st.files[g].inode);
      OpenedFile(st, st.files[g].inode, f);
    case Close(f) => CloseVictim(st, f);
    case Remove(name, dirOk, b, mallocOk, writeOk) =>
      var k := LookupSlot(st, name, dirOk, b);
      if k.Some? {
        RemoveVictim(st, k.value);
        OpenAndClose(st, st.dir[k.value].sector);
      }
    case DenyWrite(f) => FileIsOpen(st, f); DenySame(st, f);
    case AllowWrite(f) => FileIsOpen(st, f); AllowSame(st, f);
  }

  lemma CreateVictim(st: State, c: SysCall)
    requires Inv(st) && Enabled(st, c) && c.Create?
    ensures Kept(st.used, st.onDisk, Live(st), Step(st, c), None, Overwritten(st, c) - st.open.Keys)
  {
    if c.dirOk && c.scan.Some? && c.callocOk && c.scanData.Some? {
      ScannedIsFree(st, c.scan.value);
      CreateLive(st, c.name, c.scan.value, DiskInode(c.scanData.value, c.length), CreateSlot(st, c));
    }
  }

  lemma OpenVictim(st: State, c: SysCall)
    requires Inv(st) && Enabled(st, c) && c.Open?
    ensures Kept(st.used, st.onDisk, Live(st), Step(st, c), None, {})
  {
    var k := LookupSlot(st, c.name, c.dirOk, c.b);
    if k.Some? {
      TakenIsLive(st, k.value);
      OpenAndClose(st, st.dir[k.value].sector);
      OpenedFile(st, st.dir[k.value].sector, c.f);
    }
  }

  lemma DenySame(st: State, f: nat)
    requires f in st.files && st.files[f].inode in st.open
    ensures DoDeny(st, f).used == st.used && DoDeny(st, f).onDisk == st.onDisk && Live(DoDeny(st, f)) == Live(st)
  {
    assert DoDeny(st, f).open.Keys == st.open.Keys;
  }

  lemma CreateLive(st: State, name: Name, s: nat, d: DiskInode, k: Option<nat>)
    requires DirInv(st.dir) && s !in Live(st) && s !in st.used && (forall x :: x in Live(st) ==> x in st.onDisk)
    requires k.Some? ==> k.value < |st.dir|
    ensures Kept(st.used, st.onDisk, Live(st), Created(st, name, s, d, k), None,
                 if k.Some? then Dropped(st.dir, k.value) - st.open.Keys else {})
  {
    if k.Some? {
      CreatedLive(st, name, s, k.value);
      assert Live(Created(st, name, s, d, k)) == Live(st.(dir := st.dir[k.value := Entry(name, s, true)]));
    } else {
      assert Live(Created(st, name, s, d, k)) == Live(st);
    }
  }

  lemma OpenedFile(st: State, s: nat, f: nat)
    requires StoreInv(st.used, st.onDisk, Live(st)) && s in Live(st)
    ensures s in st.onDisk && Kept(st.used, st.onDisk, Live(st), NewFile(st, s, f), None, {})
  {
    var st1 := NewFile(st, s, f);
    assert st1.used == st.used && st1.onDisk == st.onDisk && st1.dir == st.dir && Live(st1) == Live(st);
  }

  lemma OpenKeepsFiles(st: State, s: nat, g: nat)
    requires Inv(st) && s in Live(st)
    ensures s in st.onDisk && NewFile(st, s, g).files == st.files[g := File(s, false)]
    ensures Closable(InodeOpen(st, s, Call), s, Call) && InodeClose(InodeOpen(st, s, Call), s, Call).files == st.files
    ensures NewFile(st, s, g).dir == st.dir && InodeClose(InodeOpen(st, s, Call), s, Call).dir == st.dir
  {
    OpenAndClose(st, s);
  }

  /* ---- Inodes that lose their name without being removed ---- */

  /** Every open inode without a name is marked removed, so that its sectors come back. */
  ghost predicate NoOrphans(st: State) {
    forall s :: s in st.open && Nameless(st, s) ==> st.open[s].removed
  }

  /** With bounce buffers for its second scan, `dir_add` overwrites no record. */
  lemma ReadsOverwriteNothing(st: State, c: SysCall)
    requires c.Create? ==> Reads(c.b2)
    ensures Overwritten(st, c) == {}
  {
    if c.Create? && CreateSlot(st, c).Some? {
      assert c.b2(CreateSlot(st, c).value);
    }
  }

  lemma CloseOrphans(st: State, s: nat, h: Handle, files: map<nat, File>)
    requires Closable(st, s, h) && NoOrphans(st)
    ensures NoOrphans(InodeClose(st, s, h).(files := files))
  {
  }

  lemma OpenOrphans(st: State, s: nat, h: Handle, files: map<nat, File>)
    requires NoOrphans(st) && s in st.onDisk && (s in st.open || !Nameless(st, s))
    ensures NoOrphans(InodeOpen(st, s, h).(files := files))
  {
  }

  lemma DenyOrphans(st: State, f: nat)
    requires f in st.files && st.files[f].inode in st.open && NoOrphans(st)
    ensures NoOrphans(DoDeny(st, f)) && NoOrphans(DoAllow(st, f))
  {
  }

  lemma UnlinkOrphans(st: State, k: nat)
    requires Taken(st.dir, k) && st.dir[k].sector in st.open && DirInv(st.dir) && NoOrphans(st)
    ensures NoOrphans(Unlink(st, k))
  {
    NamedPut(st.dir, k, st.dir[k].(inUse := false));
  }

  lemma RemoveOrphans(st: State, k: nat, mallocOk: bool, writeOk: bool)
    requires Inv(st) && Taken(st.dir, k) && NoOrphans(st)
    ensures NoOrphans(RemoveSlot(st, k, mallocOk, writeOk))
  {
    var s := st.dir[k].sector;
    RemoveNamed(st, k);
    OpenAndClose(st, s);
    OpenOrphans(st, s, Call, st.files);
    var st1 := InodeOpen(st, s, Call);
    assert st1.(files := st.files) == st1;
    UnlinkOrphans(st1, k);
    var st2 := Unlink(st1, k);
    CloseOrphans(st2, s, Call, st.files);
    assert InodeClose(st2, s, Call).(files := st.files) == InodeClose(st2, s, Call) by { ClosedSame(st2, s, Call); }
  }

  lemma CreateOrphans(st: State, name: Name, s: nat, d: DiskInode, k: nat)
    requires Inv(st) && NoOrphans(st) && s !in Live(st) && k < |st.dir|
    ensures NoOrphans(Created(st, name, s, d, Some(k))) <==> Dropped(st.dir, k) !! st.open.Keys
  {
    var st' := Created(st, name, s, d, Some(k));
    NamedPut(st.dir, k, Entry(name, s, true));
    forall x | x in Dropped(st.dir, k) && x in st.open ensures Nameless(st', x) && !st'.open[x].removed {
      assert OpenInv(st, x) && x in Named(st.dir);
    }
  }

  lemma CreateCallOrphans(st: State, c: SysCall)
    requires Inv(st) && Enabled(st, c) && NoOrphans(st) && c.Create?
    ensures NoOrphans(Step(st, c)) <==> Overwritten(st, c) !! st.open.Keys
  {
    if CreateSlot(st, c).Some? {
      ScannedIsFree(st, c.scan.value);
      CreateOrphans(st, c.name, c.scan.value, DiskInode(c.scanData.value, c.length), CreateSlot(st, c).value);
    }
  }

  lemma OpenCallOrphans(st: State, s: nat, f: nat)
    requires Inv(st) && NoOrphans(st) && s in Live(st) && (s in st.open || !Nameless(st, s))
    ensures s in st.onDisk && NoOrphans(NewFile(st, s, f))
  {
    OpenAndClose(st, s);
    OpenOrphans(st, s, Of(f), st.files[f := File(s, false)]);
  }

  lemma CloseCallOrphans(st: State, f: nat)
    requires Inv(st) && NoOrphans(st) && f in st.files
    ensures NoOrphans(DoClose(st, f))
  {
    FileIsOpen(st, f);
    AllowKeeps(st, f);
    DenyOrphans(st, f);
    var st1 := DoAllow(st, f);
    CloseFile(st1, f);
    CloseOrphans(st1, st.files[f].inode, Of(f), st1.files - {f});
  }

  /** Every other call keeps orphans from arising. */
  lemma OtherCallOrphans(st: State, c: SysCall)
    requires Inv(st) && Enabled(st, c) && NoOrphans(st) && !c.Create?
    ensures NoOrphans(Step(st, c))
  {
    match c
    case Open(name, f, dirOk, b, _, _) =>
      var k := LookupSlot(st, name, dirOk, b);
      if k.Some? {
        TakenIsLive(st, k.value);
        OpenAndClose(st, st.dir[k.value].sector);
        OpenCallOrphans(st, st.dir[k.value].sector, f);
      }
    case Reopen(g, f, _) =>
      FileIsOpen(st, g);
      OpenAndClose(st, st.files[g].inode);
      OpenCallOrphans(st, st.files[g].inode, f);
    case Close(f) => CloseCallOrphans(st, f);
    case Remove(name, dirOk, b, mallocOk, writeOk) =>
      var k := LookupSlot(st, name, dirOk, b);
      if k.Some? {
        RemoveOrphans(st, k.value, mallocOk, writeOk);
      }
    case DenyWrite(f) => FileIsOpen(st, f); DenyOrphans(st, f);
    case AllowWrite(f) => FileIsOpen(st, f); DenyOrphans(st, f);
  }

  /** Orphans arise exactly when the record of an open file is overwritten; and while there are none, nothing is lost
      but files whose record is overwritten. */
  lemma OrphansIff(st: State, c: SysCall)
    requires Inv(st) && Enabled(st, c) && NoOrphans(st)
    ensures NoOrphans(Step(st, c)) <==> Overwritten(st, c) !! st.open.Keys
    ensures Lost(st, c) == Overwritten(st, c) - st.open.Keys
  {
    if c.Create? { CreateCallOrphans(st, c); } else { OtherCallOrphans(st, c); }
  }

  /** Over every run in which `dir_add` gets its bounce buffers, no inode is lost: every open file that has no name was
      removed. */
  lemma {:induction false} NothingIsLost(st: State, calls: seq<SysCall>)
    requires Inv(st) && Allowed(st, calls) && NoOrphans(st)
    requires forall i :: 0 <= i < |calls| && calls[i].Create? ==> Reads(calls[i].b2)
    ensures NoOrphans(Run(st, calls))
    decreases |calls|
  {
    if calls != [] {
      ReadsOverwriteNothing(st, calls[0]);
      OrphansIff(st, calls[0]);
      StepInv(st, calls[0]);
      NothingIsLost(Step(st, calls[0]), calls[1..]);
    }
  }

  /* ---- The directory as a map ---- */

  /** All scans of the call get their bounce buffers. */
  ghost predicate ScansRead(c: SysCall) {
    match c
    case Create(_, _, _, _, _, _, b1, b2, _) => Reads(b1) && Reads(b2)
    case Open(_, _, _, b, _, _) => Reads(b)
    case Remove(_, _, b, _, _) => Reads(b)
    case _ => true
  }

  /** When the directory stands for the map `m`, does the call succeed? */
  predicate SucceedsByName(st: State, m: map<Name, nat>, c: SysCall)
    requires Enabled(st, c)
  {
    match c
    case Create(name, _, dirOk, scan, callocOk, scanData, _, _, writeOk) =>
      && dirOk && scan.Some? && callocOk && scanData.Some?
      && ValidName(name) && name !in m && |m| < |st.dir| && writeOk
    case Open(name, _, dirOk, _, mallocOk, fileOk) =>
      dirOk && name in m && (m[name] in st.open || mallocOk) && fileOk
    case Reopen(_, _, fileOk) => fileOk
    case Remove(name, dirOk, _, mallocOk, writeOk) =>
      dirOk && name in m && (m[name] in st.open || mallocOk) && writeOk
    case _ => true
  }

  /** The map after a call that succeeds. */
  function NamesAfter(m: map<Name, nat>, c: SysCall): map<Name, nat>
    requires c.Create? ==> c.scan.Some?
  {
    if c.Create? then m[c.name := c.scan.value] else if c.Remove? then m - {c.name} else m
  }

  /** A slot that a complete scan finds is the one that the map knows. */
  lemma FoundByName(r: seq<Entry>, m: map<Name, nat>, b: Bounce, name: Name)
    requires Refines(r, m) && Reads(b)
    ensures var k := Found(r, b, name);
            (k.Some? <==> name in m) && (k.Some? && name in m ==> r[k.value].sector == m[name])
  {
    CompleteScans(r, m, b, name);
    FoundIffSeen(r, b, name);
  }

  /** When all scans get their buffers, a call does to names what it promises: create adds one, remove takes one away,
      open finds it, and nothing else changes. */
  lemma NamesEffect(st: State, c: SysCall, m: map<Name, nat>)
    requires Inv(st) && Enabled(st, c) && ScansRead(c) && Refines(st.dir, m)
    ensures Succeeds(st, c) <==> SucceedsByName(st, m, c)
    ensures Succeeds(st, c) ==> Refines(Step(st, c).dir, NamesAfter(m, c))
    ensures !Succeeds(st, c) ==> Step(st, c).dir == st.dir
    ensures Succeeds(st, c) && c.Open? ==> Step(st, c).files == st.files[c.f := File(m[c.name], false)]
  {
    VisibleEffect(st, c);
    match c
    case Create(_, _, _, _, _, _, _, _, _) => CreateByName(st, c, m);
    case Open(name, _, _, b, _, _) => FoundByName(st.dir, m, b, name);
    case Remove(name, dirOk, b, _, _) =>
      FoundByName(st.dir, m, b, name);
      var k := LookupSlot(st, name, dirOk, b);
      if k.Some? {
        EraseRefines(st.dir, m, k.value, st.dir[k.value].(inUse := false));
      }
    case _ =>
  }

  lemma CreateByName(st: State, c: SysCall, m: map<Name, nat>)
    requires Enabled(st, c) && c.Create? && ScansRead(c) && Refines(st.dir, m)
    ensures Succeeds(st, c) <==> SucceedsByName(st, m, c)
    ensures Succeeds(st, c) ==>
              Refines(st.dir[CreateSlot(st, c).value := Entry(c.name, c.scan.value, true)], NamesAfter(m, c))
  {
    AddWithReads(st.dir, m, c.b1, c.b2, c.name, if c.scan.Some? then c.scan.value else 0);
    FoundIffSeen(st.dir, c.b1, c.name);
  }

  lemma StepKeepsFile(st: State, c: SysCall, f: nat)
    requires Inv(st) && Enabled(st, c) && f in st.files && c != Close(f)
    ensures var st' := Step(st, c); f in st'.files && st'.files[f].inode == st.files[f].inode
  {
    VisibleEffect(st, c);
  }

  /** An open file keeps its inode, unchanged and with all its sectors marked used, through every run that does not
      close it, even when the file is removed. */
  lemma {:induction false} HeldWhileOpen(st: State, calls: seq<SysCall>, f: nat)
    requires Inv(st) && Allowed(st, calls) && f in st.files && Close(f) !in calls
    ensures var st', s := Run(st, calls), st.files[f].inode;
            && f in st'.files && st'.files[f].inode == s && s in Live(st') && s in st.onDisk && s in st'.onDisk
            && st'.onDisk[s] == st.onDisk[s] && Footprint(s, st'.onDisk[s]) <= st'.used
    decreases |calls|
  {
    FileIsOpen(st, f);
    if calls != [] {
      StepKeepsFile(st, calls[0], f);
      OnlyVictimsGo(st, calls[0]);
      StepInv(st, calls[0]);
      HeldWhileOpen(Step(st, calls[0]), calls[1..], f);
    }
  }

  lemma {:induction false} SameNumber(fs: set<nat>, hs: set<Handle>)
    requires forall f: nat :: f in fs <==> Of(f) in hs
    requires forall h :: h in hs ==> h.Of?
    ensures |fs| == |hs|
    decreases |fs|
  {
    if fs == {} {
      assert hs == {};
    } else {
      var f :| f in fs;
      SameNumber(fs - {f}, hs - {Of(f)});
    }
  }

  function FilesOn(files: map<nat, File>, s: nat): set<nat> {
    set f | f in files && files[f].inode == s
  }

  function DenyingOn(files: map<nat, File>, s: nat): set<nat> {
    set f | f in files && files[f] == File(s, true)
  }

  /** In every state between calls, the counts of an open inode are the numbers of open files on it: the ASSERTs of
      inode_deny_write and inode_allow_write hold. */
  lemma CountsAreFiles(st: State, s: nat)
    requires Inv(st) && s in st.open && s != FREE_MAP_SECTOR
    ensures var o := st.open[s];
            && o.openCnt == |FilesOn(st.files, s)| && o.denyCnt == |DenyingOn(st.files, s)|
            && 0 <= o.denyCnt <= o.openCnt && 0 < o.openCnt
  {
    assert OpenInv(st, s) && NoCall(st, s);
    HandlesAreFiles(st, s);
    SameNumber(FilesOn(st.files, s), st.open[s].handles);
    SameNumber(DenyingOn(st.files, s), st.open[s].deniers);
    Smaller(st.open[s].deniers, st.open[s].handles);
  }

  lemma HandlesAreFiles(st: State, s: nat)
    requires s in st.open && (forall f :: FileInv(st, s, f))
    ensures forall f: nat :: f in FilesOn(st.files, s) <==> Of(f) in st.open[s].handles
    ensures forall f: nat :: f in DenyingOn(st.files, s) <==> Of(f) in st.open[s].deniers
  {
    forall f: nat
      ensures (f in FilesOn(st.files, s) <==> Of(f) in st.open[s].handles)
              && (f in DenyingOn(st.files, s) <==> Of(f) in st.open[s].deniers)
    {
      assert FileInv(st, s, f);
    }
  }

  lemma {:induction false} Smaller(a: set<Handle>, b: set<Handle>)
    requires a <= b
    ensures |a| <= |b|
  {
    assert b == a + (b - a);
  }

  lemma Apart(s: nat, d: DiskInode, t: nat, e: DiskInode)
    requires Footprint(s, d) !! Footprint(t, e)
    ensures d.length == 0 || e.length == 0 || d.start + BytesToSectors(d.length) <= e.start
            || e.start + BytesToSectors(e.length) <= d.start
    ensures t < d.start || d.start + BytesToSectors(d.length) <= t
  {
    forall i: nat ensures (i in Range(d.start, BytesToSectors(d.length)) <==>
                             d.start <= i < d.start + BytesToSectors(d.length))
                       && (i in Range(e.start, BytesToSectors(e.length)) <==>
                             e.start <= i < e.start + BytesToSectors(e.length))
    {
      RangeHas(d.start, BytesToSectors(d.length), i);
      RangeHas(e.start, BytesToSectors(e.length), i);
    }
    if d.length > 0 && e.length > 0 {
      assert d.start in Range(d.start, BytesToSectors(d.length)) && e.start in Range(e.start, BytesToSectors(e.length));
    }
  }

  /* ---- On the device ---- */

  /** All sectors of an inode are on a device of `device` sectors. */
  predicate Within(s: nat, d: DiskInode, device: nat) { s < device && d.start + BytesToSectors(d.length) <= device }

  ghost predicate AllWithin(st: State, device: nat) {
    forall s :: s in Live(st) ==> s in st.onDisk && Within(s, st.onDisk[s], device)
  }

  /** The free map has a bit for each sector of the device, so allocations are on the device. */
  ghost predicate ScansWithin(c: SysCall, device: nat) {
    c.Create? && c.scan.Some? && c.scanData.Some? ==>
      Within(c.scan.value, DiskInode(c.scanData.value, c.length), device)
  }

  /** An inode exists because it is a system file, has a name or is open. */
  lemma LiveBecause(st: State, x: nat)
    requires Inv(st) && x in Live(st)
    ensures System(x) || x in Named(st.dir) || exists f :: f in st.files && st.files[f].inode == x
  {
    if x in st.open {
      OpenBecause(st, x);
    }
  }

  lemma OpenBecause(st: State, x: nat)
    requires x in st.open && OpenInv(st, x) && NoCall(st, x) && (forall f :: FileInv(st, x, f))
    ensures x == FREE_MAP_SECTOR || exists f :: f in st.files && st.files[f].inode == x
  {
    var h :| h in st.open[x].handles;
    if h.Of? {
      assert FileInv(st, x, h.file);
    }
  }

  /** A call makes at most one inode exist: the one it creates. */
  lemma StepLive(st: State, c: SysCall, x: nat)
    requires Inv(st) && Enabled(st, c) && x in Live(Step(st, c))
    ensures x in Live(st) || (c.Create? && Succeeds(st, c) && x == c.scan.value)
  {
    StepInv(st, c);
    VisibleEffect(st, c);
    LiveBecause(Step(st, c), x);
    forall f | f in st.files ensures st.files[f].inode in Live(st) { FileIsOpen(st, f); }
    if Succeeds(st, c) {
      VisibleLive(st, c, x);
    }
  }

  /** A record that is written brings at most its own sector. */
  lemma PutNamed(dir: seq<Entry>, k: nat, e: Entry, x: nat)
    requires k < |dir| && x in Named(dir[k := e])
    ensures x in Named(dir) || (e.inUse && x == e.sector)
  {
    var i :| 0 <= i < |dir| && dir[k := e][i].inUse && dir[k := e][i].sector == x;
    assert i != k ==> dir[k := e][i] == dir[i];
  }

  lemma VisibleLive(st: State, c: SysCall, x: nat)
    requires Enabled(st, c) && Succeeds(st, c) && (forall f :: f in st.files ==> st.files[f].inode in Live(st))
    requires var (dir, files) := Visible(st, c);
             System(x) || x in Named(dir) || exists f :: f in files && files[f].inode == x
    ensures x in Live(st) || (c.Create? && x == c.scan.value)
  {
    var (dir, files) := Visible(st, c);
    if x in Named(dir) && c.Create? {
      PutNamed(st.dir, CreateSlot(st, c).value, Entry(c.name, c.scan.value, true), x);
    } else if x in Named(dir) && c.Remove? {
      var k := LookupSlot(st, c.name, c.dirOk, c.b).value;
      PutNamed(st.dir, k, st.dir[k].(inUse := false), x);
    }
    if !System(x) && x !in Named(dir) {
      var f :| f in files && files[f].inode == x;
      assert f in st.files ==> st.files[f].inode in Live(st);
    }
  }

  lemma StepWithin(st: State, c: SysCall, device: nat)
    requires Inv(st) && Enabled(st, c) && AllWithin(st, device) && ScansWithin(c, device)
    ensures AllWithin(Step(st, c), device)
  {
    var st' := Step(st, c);
    StepInv(st, c);
    OnlyVictimsGo(st, c);
    forall x | x in Live(st') ensures x in st'.onDisk && Within(x, st'.onDisk[x], device) {
      StepLive(st, c, x);
      if x !in Live(st) {
        CreateSucceeds(st, c);
      }
    }
  }

  lemma {:induction false} RunWithin(st: State, calls: seq<SysCall>, device: nat)
    requires Inv(st) && Allowed(st, calls) && AllWithin(st, device)
             && (forall i :: 0 <= i < |calls| ==> ScansWithin(calls[i], device))
    ensures AllWithin(Run(st, calls), device)
    decreases |calls|
  {
    if calls != [] {
      StepWithin(st, calls[0], device);
      StepInv(st, calls[0]);
      RunWithin(Step(st, calls[0]), calls[1..], device);
    }
  }

  /** After every run, writing to one file leaves the bytes and the header of every other one as they were. `before` is
      any contents of the device. */
  lemma FilesAreSeparate(map0: DiskInode, root: DiskInode, slots: nat, calls: seq<SysCall>, s: nat, t: nat,
                         before: seq<seq<Byte>>, after: seq<seq<Byte>>, data: seq<Byte>, offset: nat, n: nat)
    requires Formattable(map0, root) && Inv(Formatted(map0, root, slots))
             && Allowed(Formatted(map0, root, slots), calls)
    requires Within(FREE_MAP_SECTOR, map0, |before|) && Within(ROOT_DIR_SECTOR, root, |before|)
    requires forall i :: 0 <= i < |calls| ==> ScansWithin(calls[i], |before|)
    requires forall i :: 0 <= i < |before| ==> |before[i]| == SECTOR
    requires var st := Run(Formatted(map0, root, slots), calls);
             && s in Live(st) && t in Live(st) && s != t && s in st.onDisk && t in st.onDisk
             && n <= |data| && Written(before, after, st.onDisk[s], data, offset, n)
             && (n > 0 ==> offset + n <= st.onDisk[s].length)
    ensures var st := Run(Formatted(map0, root, slots), calls);
            && OnDevice(before, st.onDisk[t]) && OnDevice(after, st.onDisk[t])
            && Contents(after, st.onDisk[t]) == Contents(before, st.onDisk[t])
            && |after| == |before| && s < |before| && t < |before| && after[t] == before[t] && after[s] == before[s]
  {
    var st0 := Formatted(map0, root, slots);
    FormattedLive(map0, root, slots);
    RunWithin(st0, calls, |before|);
    var st := Run(st0, calls);
    SeparateWrite(s, st.onDisk[s], t, st.onDisk[t], before, after, data, offset, n);
  }

  lemma SeparateWrite(s: nat, d: DiskInode, t: nat, e: DiskInode,
                      before: seq<seq<Byte>>, after: seq<seq<Byte>>, data: seq<Byte>, offset: nat, n: nat)
    requires Footprint(s, d) !! Footprint(t, e) && s !in Range(d.start, BytesToSectors(d.length))
    requires s < |before| && t < |before| && OnDevice(before, e) && n <= |data|
             && Written(before, after, d, data, offset, n)
    requires n > 0 ==> offset + n <= d.length
    ensures OnDevice(after, e) && Contents(after, e) == Contents(before, e)
    ensures |after| == |before| && after[t] == before[t] && after[s] == before[s]
  {
    Apart(s, d, t, e);
    RangeHas(d.start, BytesToSectors(d.length), s);
    SectorKept(before, after, d, data, offset, n, s);
    SectorKept(before, after, d, data, offset, n, t);
    if e.length > 0 && d.length > 0 {
      WriteLeavesOthers(before, after, d, e, data, offset, n);
    } else if d.length == 0 {
      NothingWritten(before, after, d, data, offset);
    }
  }

  lemma NothingWritten(before: seq<seq<Byte>>, after: seq<seq<Byte>>, d: DiskInode, data: seq<Byte>, offset: nat)
    requires Written(before, after, d, data, offset, 0)
    ensures after == before
  {
    forall s | 0 <= s < |after| ensures after[s] == before[s] {
      forall b | 0 <= b < SECTOR ensures after[s][b] == before[s][b] {}
    }
  }

  lemma SectorKept(before: seq<seq<Byte>>, after: seq<seq<Byte>>, d: DiskInode, data: seq<Byte>, offset: nat, n: nat,
                   s: nat)
    requires n <= |data| && s < |before| && Written(before, after, d, data, offset, n)
             && (n > 0 ==> offset + n <= d.length)
    requires s < d.start || d.start + BytesToSectors(d.length) <= s
    ensures |after| == |before| && after[s] == before[s]
  {
    forall b | 0 <= b < SECTOR ensures after[s][b] == before[s][b] {
      var p := Position(d, s, b);
      assert !(offset <= p < offset + n);
    }
  }

  /** No call is refused: whatever sectors the free map offers and whatever fails, a call is possible for every name and
      every open file. */
  lemma NothingIsRefused(st: State, c: SysCall)
    requires c.Create? ==>
               && (c.scan.Some? ==> c.scan.value !in st.used)
               && (c.scan.Some? && c.scanData.Some? ==>
                     forall i: nat :: c.scanData.value <= i < c.scanData.value + BytesToSectors(c.length) ==>
                       i !in st.used && i != c.scan.value)
    requires c.Open? || c.Reopen? ==> c.f !in st.files
    requires c.Reopen? ==> c.g in st.files
    requires c.Close? || c.DenyWrite? || c.AllowWrite? ==> c.f in st.files
    ensures Enabled(st, c)
  {
    if c.Create? && c.scan.Some? {
      forall i: nat ensures i in Range(c.scan.value, 1) <==> i == c.scan.value { RangeHas(c.scan.value, 1, i); }
      if c.scanData.Some? {
        var start, cnt := c.scanData.value, BytesToSectors(c.length);
        forall i: nat ensures i in Range(start, cnt) <==> start <= i < start + cnt { RangeHas(start, cnt, i); }
      }
    }
  }

  /* ---- What each call does to names and files ---- */

  /** Does the call get as far as making its change? */
  predicate Succeeds(st: State, c: SysCall)
    requires Enabled(st, c)
  {
    match c
    case Create(_, _, _, _, _, _, _, _, _) => CreateSlot(st, c).Some?
    case Open(name, _, dirOk, b, mallocOk, fileOk) =>
      var k := LookupSlot(st, name, dirOk, b);
      k.Some? && (st.dir[k.value].sector in st.open || mallocOk) && fileOk
    case Reopen(_, _, fileOk) => fileOk
    case Remove(name, dirOk, b, mallocOk, writeOk) =>
      var k := LookupSlot(st, name, dirOk, b);
      k.Some? && (st.dir[k.value].sector in st.open || mallocOk) && writeOk
    case _ => true
  }

  /** The directory and the open files after a call that succeeds. */
  function Visible(st: State, c: SysCall): (seq<Entry>, map<nat, File>)
    requires Enabled(st, c) && Succeeds(st, c)
  {
    match c
    case Create(name, _, _, scan, _, _, _, _, _) =>
      (st.dir[CreateSlot(st, c).value := Entry(name, scan.value, true)], st.files)
    case Open(name, f, dirOk, b, _, _) =>
      var k := LookupSlot(st, name, dirOk, b).value;
      (st.dir, st.files[f := File(st.dir[k].sector, false)])
    case Reopen(g, f, _) => (st.dir, st.files[f := File(st.files[g].inode, false)])
    case Close(f) => (st.dir, st.files - {f})
    case Remove(name, dirOk, b, _, _) =>
      var k := LookupSlot(st, name, dirOk, b).value;
      (st.dir[k := st.dir[k].(inUse := false)], st.files)
    case DenyWrite(f) => (st.dir, st.files[f := File(st.files[f].inode, true)])
    case AllowWrite(f) => (st.dir, st.files[f := File(st.files[f].inode, false)])
  }

  /** A call that succeeds has its effect on the directory and the open files, and no other; one that fails has
      none. */
  lemma VisibleEffect(st: State, c: SysCall)
    requires Inv(st) && Enabled(st, c)
    ensures (Step(st, c).dir, Step(st, c).files) == if Succeeds(st, c) then Visible(st, c) else (st.dir, st.files)
  {
    match c
    case Create(_, _, _, _, _, _, _, _, _) =>
    case Open(name, g, dirOk, b, _, _) =>
      var k := LookupSlot(st, name, dirOk, b);
      if k.Some? {
        TakenIsLive(st, k.value);
        OpenKeepsFiles(st, st.dir[k.value].sector, g);
      }
    case Reopen(h, g, _) =>
      FileIsOpen(st, h);
      OpenKeepsFiles(st, st.files[h].inode, g);
    case Close(g) => CloseEffectOnFiles(st, g);
    case Remove(name, dirOk, b, mallocOk, writeOk) =>
      var k := LookupSlot(st, name, dirOk, b);
      if k.Some? {
        RemoveEffect(st, k.value, mallocOk, writeOk);
      }
    case DenyWrite(g) => FileIsOpen(st, g); assert st.files[g := st.files[g]] == st.files;
    case AllowWrite(g) => FileIsOpen(st, g); assert st.files[g := st.files[g]] == st.files;
  }

  /** A file that was created exists with the requested length, on sectors that were free. */
  lemma CreateSucceeds(st: State, c: SysCall)
    requires c.Create? && Enabled(st, c) && Succeeds(st, c)
    ensures var s, d, st' := c.scan.value, DiskInode(c.scanData.value, c.length), DoCreate(st, c);
            && st'.onDisk == st.onDisk[s := d] && s in Live(st')
            && st'.used == st.used + Footprint(s, d) && Footprint(s, d) !! st.used
  {
    RangeHas(c.scan.value, 1, c.scan.value);
    assert DoCreate(st, c).dir[CreateSlot(st, c).value].sector == c.scan.value;
  }

  /** A creation that fails leaves at most its data sectors marked used. */
  lemma CreateFails(st: State, c: SysCall)
    requires c.Create? && Enabled(st, c) && !Succeeds(st, c)
    ensures var st' := DoCreate(st, c);
            st.used <= st'.used <= st.used + if c.scanData.Some? then Range(c.scanData.value, BytesToSectors(c.length))
                                             else {}
  {
    if c.scan.Some? {
      RangeHas(c.scan.value, 1, c.scan.value);
    }
  }

  lemma CloseEffectOnFiles(st: State, g: nat)
    requires Inv(st) && g in st.files
    ensures DoClose(st, g).files == st.files - {g} && DoClose(st, g).dir == st.dir
  {
    FileIsOpen(st, g);
    AllowKeeps(st, g);
    CloseFile(DoAllow(st, g), g);
    AllowEffect(st, g);
    var st1 := DoAllow(st, g);
    ClosedSame(st1, st1.files[g].inode, Of(g));
  }

  lemma AllowEffect(st: State, g: nat)
    requires g in st.files && st.files[g].inode in st.open
    ensures DoAllow(st, g).files - {g} == st.files - {g} && DoAllow(st, g).dir == st.dir
    ensures g in DoAllow(st, g).files && DoAllow(st, g).files[g].inode == st.files[g].inode
  {
  }

  lemma ClosedSame(st: State, s: nat, h: Handle)
    requires Closable(st, s, h)
    ensures InodeClose(st, s, h).files == st.files && InodeClose(st, s, h).dir == st.dir
  {
  }

  lemma RemoveEffect(st: State, k: nat, mallocOk: bool, writeOk: bool)
    requires Inv(st) && Taken(st.dir, k)
    ensures RemoveSlot(st, k, mallocOk, writeOk).files == st.files
    ensures RemoveSlot(st, k, mallocOk, writeOk).dir
              == if (st.dir[k].sector in st.open || mallocOk) && writeOk then st.dir[k := st.dir[k].(inUse := false)]
                 else st.dir
  {
    RemoveNamed(st, k);
    var s := st.dir[k].sector;
    OpenAndClose(st, s);
    var st2 := Unlink(InodeOpen(st, s, Call), k);
    ClosedSame(st2, s, Call);
  }
}
