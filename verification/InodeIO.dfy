/** Byte-offset reads and writes over 512-byte sectors (proj-pregame/src/filesys/inode.c:40-46 and 162-268). */
module InodeIO {
  import opened Basics

  const SECTOR: int := 512

  /** The part of `struct inode_disk` that matters here: first data sector and length in bytes. */
  datatype DiskInode = DiskInode(start: nat, length: nat)

  /** `bytes_to_sectors`. */
  function BytesToSectors(size: nat): nat { (size + SECTOR - 1) / SECTOR }

  /** As many sectors as are needed, and no more: `n` sectors hold `size` bytes exactly if `n` is not below it. */
  lemma SectorsAreLeast(size: nat, n: nat)
    ensures BytesToSectors(size) <= n <==> size <= 512 * n
  {
  }

  /** The block device that holds the file system. */
  class Disk {
    var sectors: seq<seq<Byte>>

    ghost predicate Valid()
      reads this
    {
      forall s :: 0 <= s < |sectors| ==> |sectors[s]| == SECTOR
    }

    constructor (size: nat)
      ensures Valid() && |sectors| == size
    {
      sectors := seq(size, _ => Zeros());
    }
  }

  /** The sectors of an inode lie on the device. */
  ghost predicate OnDevice(sectors: seq<seq<Byte>>, d: DiskInode) {
    && (forall s :: 0 <= s < |sectors| ==> |sectors[s]| == SECTOR)
    && d.start + BytesToSectors(d.length) <= |sectors|
  }

  /** Byte `k` of a file, wherever it is. */
  function ByteAt(sectors: seq<seq<Byte>>, d: DiskInode, k: nat): Byte
    requires OnDevice(sectors, d) && k < d.length
  {
    sectors[d.start + k / SECTOR][k % SECTOR]
  }

  function FirstBytes(sectors: seq<seq<Byte>>, d: DiskInode, k: nat): (c: seq<Byte>)
    requires OnDevice(sectors, d) && k <= d.length
    ensures |c| == k
  {
    if k == 0 then [] else FirstBytes(sectors, d, k - 1) + [ByteAt(sectors, d, k - 1)]
  }

  /** A file is the sequence of its bytes. */
  function Contents(sectors: seq<seq<Byte>>, d: DiskInode): seq<Byte>
    requires OnDevice(sectors, d)
  {
    FirstBytes(sectors, d, d.length)
  }

  lemma {:induction false} FirstBytesAt(sectors: seq<seq<Byte>>, d: DiskInode, n: nat, k: nat)
    requires OnDevice(sectors, d) && k < n <= d.length
    ensures FirstBytes(sectors, d, n)[k] == ByteAt(sectors, d, k)
  {
    if k < n - 1 {
      FirstBytesAt(sectors, d, n - 1, k);
    }
  }

  /** Where lines 172-173 look for position `offset`: which sector, counted from the first of the file, and where in it.
      C's division and remainder truncate toward zero. */
  function Place(offset: int): (int, int) {
    if offset >= 0 then (offset / SECTOR, offset % SECTOR) else (-(-offset / SECTOR), -(-offset % SECTOR))
  }

  /** A position below the length is looked for in the sectors of the file, and inside the sector, exactly if it is not
      negative. */
  lemma PlaceInsideIff(d: DiskInode, offset: int)
    requires offset < d.length
    ensures var (sector, ofs) := Place(offset);
            0 <= sector < BytesToSectors(d.length) && 0 <= ofs < SECTOR <==> 0 <= offset
  {
    if offset < 0 {
      var q, r := -offset / SECTOR, -offset % SECTOR;
      assert -offset == q * SECTOR + r;
    }
  }

  function Min(a: int, b: int): int { if a < b then a else b }

  /** The number of bytes that a transfer of `size` bytes at `offset` moves when nothing goes wrong. */
  function Span(size: int, offset: nat, length: nat): nat {
    if size <= 0 || offset >= length then 0 else Min(size, length - offset)
  }

  /** The bytes of the next chunk: within one sector, within the file, within the request. */
  function Chunk(size: int, offset: nat, length: nat): int {
    var sectorLeft := SECTOR - offset % SECTOR;
    var minLeft := Min(length - offset, sectorLeft);
    Min(size, minLeft)
  }

  /** A chunk stays inside its sector, its file and the request, and reaches the end of one of them. */
  lemma ChunkFits(size: int, offset: nat, length: nat)
    requires 0 < Chunk(size, offset, length)
    ensures var chunk := Chunk(size, offset, length);
            && offset % SECTOR + chunk <= SECTOR && offset + chunk <= length && chunk <= size
            && offset / SECTOR < BytesToSectors(length)
  {
  }

  /** A transfer that has moved `done` bytes and finds no further chunk is complete. */
  lemma NoChunkLeft(size: int, offset: nat, length: nat, done: nat)
    requires done <= Span(size, offset, length)
    ensures size - done <= 0 || Chunk(size - done, offset + done, length) <= 0 ==> done == Span(size, offset, length)
    ensures 0 < Chunk(size - done, offset + done, length) ==>
              done + Chunk(size - done, offset + done, length) <= Span(size, offset, length)
  {
  }

  /** The first `n` elements of `buffer` are the file's bytes from `offset` on, and the others are as in `was`. */
  ghost predicate Holds(buffer: seq<Byte>, was: seq<Byte>, sectors: seq<seq<Byte>>, d: DiskInode, offset: nat, n: nat)
    requires OnDevice(sectors, d) && n <= |buffer| == |was|
  {
    && (n > 0 ==> offset + n <= d.length)
    && (forall i :: 0 <= i < n ==> buffer[i] == ByteAt(sectors, d, offset + i))
    && (forall i :: n <= i < |buffer| ==> buffer[i] == was[i])
  }

  /** The bytes of a chunk are a part of its sector. */
  lemma ChunkBytes(sectors: seq<seq<Byte>>, d: DiskInode, pos: nat, chunk: nat)
    requires OnDevice(sectors, d) && pos + chunk <= d.length && pos % SECTOR + chunk <= SECTOR
             && pos / SECTOR < BytesToSectors(d.length)
    ensures forall k: nat :: pos <= k < pos + chunk ==>
              ByteAt(sectors, d, k) == sectors[d.start + pos / SECTOR][pos % SECTOR + (k - pos)]
  {
    forall k: nat | pos <= k < pos + chunk
      ensures ByteAt(sectors, d, k) == sectors[d.start + pos / SECTOR][pos % SECTOR + (k - pos)]
    {
      SameSector(pos, k - pos);
    }
  }

  lemma SameSector(pos: nat, i: nat)
    requires pos % SECTOR + i < SECTOR
    ensures (pos + i) / SECTOR == pos / SECTOR && (pos + i) % SECTOR == pos % SECTOR + i
  {
  }

  /** Lines 185-198: the next `chunk` bytes are copied out of their sector. */
  method ReadNext(disk: Disk, d: DiskInode, buffer: array<Byte>, offset: nat, n: nat, chunk: nat, bounceOk: bool,
                  ghost was: seq<Byte>)
    returns (ok: bool)
    requires OnDevice(disk.sectors, d) && 0 < chunk && n + chunk <= buffer.Length == |was|
             && offset + n + chunk <= d.length
    requires (offset + n) % SECTOR + chunk <= SECTOR && (offset + n) / SECTOR < BytesToSectors(d.length)
    requires Holds(buffer[..], was, disk.sectors, d, offset, n)
    modifies buffer
    ensures ok <==> chunk == SECTOR || bounceOk
    ensures Holds(buffer[..], was, disk.sectors, d, offset, if ok then n + chunk else n)
  {
    var sector, sectorOfs := disk.sectors[d.start + (offset + n) / SECTOR], (offset + n) % SECTOR;
    ChunkBytes(disk.sectors, d, offset + n, chunk);
    if sectorOfs == 0 && chunk == SECTOR {
      forall i | 0 <= i < SECTOR { buffer[n + i] := sector[i]; }
    } else {
      if !bounceOk {
        return false;
      }
      forall i | 0 <= i < chunk { buffer[n + i] := sector[sectorOfs + i]; }
    }
    ok := true;
  }

  /** `inode_read_at`. `bounceOk` says whether `malloc` provides the bounce buffer when it is needed.

      Whatever is read is the file's bytes from `offset` on; everything asked for that the file has is read,
      unless the bounce buffer is missing. Without it, a request for less than a sector reads nothing. */
  method InodeReadAt(disk: Disk, d: DiskInode, buffer: array<Byte>, size: int, offset: nat, bounceOk: bool)
    returns (bytesRead: nat)
    requires OnDevice(disk.sectors, d) && size <= buffer.Length
    modifies buffer
    ensures bytesRead <= Span(size, offset, d.length) && (bounceOk ==> bytesRead == Span(size, offset, d.length))
    ensures !bounceOk && size < SECTOR ==> bytesRead == 0
    ensures bytesRead > 0 ==> buffer[..bytesRead] == Contents(disk.sectors, d)[offset..offset + bytesRead]
    ensures buffer[bytesRead..] == old(buffer[bytesRead..])
  {
    bytesRead := 0;
    var left, ofs := size, offset;
    while left > 0
      invariant 0 <= bytesRead <= Span(size, offset, d.length) && left == size - bytesRead && ofs == offset + bytesRead
      invariant Holds(buffer[..], old(buffer[..]), disk.sectors, d, offset, bytesRead)
      invariant !bounceOk && size < SECTOR ==> bytesRead == 0
      decreases left
    {
      var chunk := Chunk(left, ofs, d.length);
      NoChunkLeft(size, offset, d.length, bytesRead);
      if chunk <= 0 {
        break;
      }
      ChunkFits(left, ofs, d.length);
      var ok := ReadNext(disk, d, buffer, offset, bytesRead, chunk, bounceOk, old(buffer[..]));
      if !ok {
        break;
      }
      left := left - chunk;
      ofs := ofs + chunk;
      bytesRead := bytesRead + chunk;
    }
    NoChunkLeft(size, offset, d.length, bytesRead);
    HoldsContents(buffer[..], old(buffer[..]), disk.sectors, d, offset, bytesRead);
  }

  lemma HoldsContents(buffer: seq<Byte>, was: seq<Byte>, sectors: seq<seq<Byte>>, d: DiskInode, offset: nat, n: nat)
    requires OnDevice(sectors, d) && n <= |buffer| == |was| && Holds(buffer, was, sectors, d, offset, n)
    ensures n > 0 ==> buffer[..n] == Contents(sectors, d)[offset..offset + n]
    ensures buffer[n..] == was[n..]
  {
    forall i | 0 <= i < n ensures buffer[i] == Contents(sectors, d)[offset + i] {
      FirstBytesAt(sectors, d, d.length, offset + i);
    }
  }

  /** The position in the file of byte `b` of sector `s`; negative or past the end outside the file. */
  function Position(d: DiskInode, s: int, b: int): int {
    (s - d.start) * SECTOR + b
  }

  /** The device after writing `n` bytes of `data` at `offset`: only those bytes differ, on the whole device. */
  ghost predicate Written(before: seq<seq<Byte>>, after: seq<seq<Byte>>, d: DiskInode, data: seq<Byte>, offset: nat,
                          n: nat)
    requires n <= |data|
  {
    && |after| == |before|
    && (forall s :: 0 <= s < |after| ==> |after[s]| == |before[s]| == SECTOR)
    && forall s, b :: 0 <= s < |after| && 0 <= b < SECTOR ==>
         after[s][b] == (var k := Position(d, s, b);
                         if offset <= k < offset + n then data[k - offset] else before[s][b])
  }

  /** Sector `base` with `chunk` put at `ofs`: the bounce buffer after `memcpy`. */
  function Patched(base: seq<Byte>, chunk: seq<Byte>, ofs: nat): (r: seq<Byte>)
    requires ofs + |chunk| <= |base|
    ensures |r| == |base|
    ensures forall b :: 0 <= b < |base| ==> r[b] == if ofs <= b < ofs + |chunk| then chunk[b - ofs] else base[b]
  {
    base[..ofs] + chunk + base[ofs + |chunk|..]
  }

  /** Writing one more chunk, inside the sector that holds position `offset + n`. */
  lemma ChunkWritten(before: seq<seq<Byte>>, mid: seq<seq<Byte>>, d: DiskInode, data: seq<Byte>, offset: nat, n: nat,
                     chunk: nat)
    requires n + chunk <= |data| && Written(before, mid, d, data, offset, n)
    requires (offset + n) % SECTOR + chunk <= SECTOR && d.start + (offset + n) / SECTOR < |mid|
    ensures var s := d.start + (offset + n) / SECTOR;
            Written(before, mid[s := Patched(mid[s], data[n..n + chunk], (offset + n) % SECTOR)], d, data, offset,
                    n + chunk)
  {
  }

  function Zeros(): (z: seq<Byte>)
    ensures |z| == SECTOR
  {
    seq(SECTOR, _ => 0)
  }

  /** Lines 238-258: a chunk that fills sector `s` is written directly, any other through the bounce buffer. The
      branch that clears the bounce buffer (line 255) cannot be reached. */
  method WriteChunk(disk: Disk, s: nat, chunk: seq<Byte>, ofs: nat, bounceOk: bool) returns (ok: bool)
    requires s < |disk.sectors| && |disk.sectors[s]| == SECTOR && ofs + |chunk| <= SECTOR && chunk != []
    modifies disk
    ensures ok <==> |chunk| == SECTOR || bounceOk
    ensures disk.sectors
              == if ok then old(disk.sectors)[s := Patched(old(disk.sectors[s]), chunk, ofs)] else old(disk.sectors)
  {
    if ofs == 0 && |chunk| == SECTOR {
      assert chunk == Patched(disk.sectors[s], chunk, ofs);
      disk.sectors := disk.sectors[s := chunk];
      return true;
    }
    if !bounceOk {
      return false;
    }
    var bounce := if ofs > 0 || |chunk| < SECTOR - ofs then disk.sectors[s] else Zeros();
    disk.sectors := disk.sectors[s := Patched(bounce, chunk, ofs)];
    ok := true;
  }

  /** One iteration of the loop of `inode_write_at`, `n` bytes of the buffer having been written to the device
      `before`. */
  method WriteNext(disk: Disk, d: DiskInode, buffer: array<Byte>, offset: nat, n: nat, chunk: nat, bounceOk: bool,
                   ghost before: seq<seq<Byte>>) returns (ok: bool)
    requires OnDevice(disk.sectors, d) && 0 < chunk && n + chunk <= buffer.Length
    requires (offset + n) % SECTOR + chunk <= SECTOR && (offset + n) / SECTOR < BytesToSectors(d.length)
    requires Written(before, disk.sectors, d, buffer[..], offset, n)
    modifies disk
    ensures ok <==> chunk == SECTOR || bounceOk
    ensures OnDevice(disk.sectors, d)
            && Written(before, disk.sectors, d, buffer[..], offset, if ok then n + chunk else n)
  {
    var s, sectorOfs := d.start + (offset + n) / SECTOR, (offset + n) % SECTOR;
    ChunkWritten(before, disk.sectors, d, buffer[..], offset, n, chunk);
    assert buffer[..][n..n + chunk] == buffer[n..n + chunk];
    ok := WriteChunk(disk, s, buffer[n..n + chunk], sectorOfs, bounceOk);
  }

  /** `inode_write_at`. Exactly the bytes that the file has room for are written, none when writes are denied,
      and nothing else on the device changes. */
  method InodeWriteAt(disk: Disk, d: DiskInode, denyWrite: nat, buffer: array<Byte>, size: int, offset: nat,
                      bounceOk: bool)
    returns (bytesWritten: nat)
    requires OnDevice(disk.sectors, d) && size <= buffer.Length
    modifies disk
    ensures bytesWritten <= Span(size, offset, d.length)
    ensures denyWrite > 0 ==> bytesWritten == 0
    ensures denyWrite == 0 && bounceOk ==> bytesWritten == Span(size, offset, d.length)
    ensures !bounceOk && size < SECTOR ==> bytesWritten == 0
    ensures Written(old(disk.sectors), disk.sectors, d, buffer[..], offset, bytesWritten)
  {
    bytesWritten := 0;
    if denyWrite > 0 {
      return;
    }
    var left, ofs := size, offset;
    while left > 0
      invariant 0 <= bytesWritten <= Span(size, offset, d.length) && left == size - bytesWritten
                && ofs == offset + bytesWritten
      invariant OnDevice(disk.sectors, d)
                && Written(old(disk.sectors), disk.sectors, d, buffer[..], offset, bytesWritten)
      invariant !bounceOk && size < SECTOR ==> bytesWritten == 0
      decreases left
    {
      var chunk := Chunk(left, ofs, d.length);
      NoChunkLeft(size, offset, d.length, bytesWritten);
      if chunk <= 0 {
        return;
      }
      ChunkFits(left, ofs, d.length);
      var ok := WriteNext(disk, d, buffer, offset, bytesWritten, chunk, bounceOk, old(disk.sectors));
      if !ok {
        return;
      }
      left := left - chunk;
      ofs := ofs + chunk;
      bytesWritten := bytesWritten + chunk;
    }
    NoChunkLeft(size, offset, d.length, bytesWritten);
  }

  /* ---- What a write means for files ---- */

  /** A file with `data` put at `offset`: a read there returns `data`, and a read elsewhere what it did before. */
  function Overwritten(c: seq<Byte>, data: seq<Byte>, offset: nat): (r: seq<Byte>)
    requires data != [] ==> offset + |data| <= |c|
    ensures |r| == |c|
    ensures data != [] ==> r[offset..offset + |data|] == data
    ensures forall k :: 0 <= k < |c| ==> r[k] == if offset <= k < offset + |data| then data[k - offset] else c[k]
  {
    if data == [] then c else c[..offset] + data + c[offset + |data|..]
  }

  /** Seen as a byte sequence, the file is overwritten in place. */
  lemma WriteRefinesBytes(before: seq<seq<Byte>>, after: seq<seq<Byte>>, d: DiskInode, data: seq<Byte>, offset: nat,
                          n: nat)
    requires n <= |data| && OnDevice(before, d) && Written(before, after, d, data, offset, n)
    requires n > 0 ==> offset + n <= d.length
    ensures OnDevice(after, d)
    ensures Contents(after, d) == Overwritten(Contents(before, d), data[..n], offset)
  {
    var c, c' := Overwritten(Contents(before, d), data[..n], offset), Contents(after, d);
    forall k | 0 <= k < |c| ensures c[k] == c'[k] {
      FirstBytesAt(before, d, d.length, k);
      FirstBytesAt(after, d, d.length, k);
      ByteWritten(before, after, d, data, offset, n, k);
    }
  }

  lemma ByteWritten(before: seq<seq<Byte>>, after: seq<seq<Byte>>, d: DiskInode, data: seq<Byte>, offset: nat, n: nat,
                    k: nat)
    requires n <= |data| && OnDevice(before, d) && OnDevice(after, d) && Written(before, after, d, data, offset, n)
             && k < d.length
    ensures ByteAt(after, d, k) == if offset <= k < offset + n then data[k - offset] else ByteAt(before, d, k)
  {
    var s, b := d.start + k / SECTOR, k % SECTOR;
    assert Position(d, s, b) == k;
    assert after[s][b] == if offset <= k < offset + n then data[k - offset] else before[s][b];
  }

  /** A file whose sectors are disjoint from the written file's keeps its bytes. */
  lemma WriteLeavesOthers(before: seq<seq<Byte>>, after: seq<seq<Byte>>, d: DiskInode, o: DiskInode, data: seq<Byte>,
                          offset: nat, n: nat)
    requires n <= |data| && OnDevice(before, o) && Written(before, after, d, data, offset, n)
    requires n > 0 ==> offset + n <= d.length
    requires o.start + BytesToSectors(o.length) <= d.start || d.start + BytesToSectors(d.length) <= o.start
    ensures OnDevice(after, o) && Contents(after, o) == Contents(before, o)
  {
    forall k | 0 <= k < o.length ensures ByteAt(after, o, k) == ByteAt(before, o, k) {
      var s, b := o.start + k / SECTOR, k % SECTOR;
      var p := Position(d, s, b);
      assert !(offset <= p < offset + n);
      assert after[s][b] == before[s][b];
    }
    var c, c' := Contents(before, o), Contents(after, o);
    forall k | 0 <= k < |c| ensures c[k] == c'[k] {
      FirstBytesAt(before, o, o.length, k);
      FirstBytesAt(after, o, o.length, k);
    }
  }
}
