/** Reading and writing the data of an inode (inode.c) sector by sector, through a bounce buffer where a
    sector is used in part. */
module Inodes {
  import opened Bytes

  const BLOCK_SECTOR_SIZE: nat := 512

  /** bytes_to_sectors */
  function BytesToSectors(size: nat): (n: nat)
    ensures (n - 1) * BLOCK_SECTOR_SIZE < size <= n * BLOCK_SECTOR_SIZE
  {
    (size + BLOCK_SECTOR_SIZE - 1) / BLOCK_SECTOR_SIZE
  }

  /** s with the bytes k in place of those from a on. */
  ghost function Patch(s: seq<Byte>, a: nat, k: seq<Byte>): (r: seq<Byte>)
    requires a + |k| <= |s|
    ensures |r| == |s|
  {
    s[..a] + k + s[a + |k|..]
  }

  /** Replacing adjacent bytes in two steps. */
  lemma PatchMore(s: seq<Byte>, a: nat, data: seq<Byte>, n: nat, m: nat)
    requires n + m <= |data| && a + n + m <= |s|
    ensures Patch(Patch(s, a, data[..n]), a + n, data[n..n + m]) == Patch(s, a, data[..n + m])
  {
    assert data[..n + m] == data[..n] + data[n..n + m];
  }

  lemma PatchNothing(s: seq<Byte>, a: nat)
    requires a <= |s|
    ensures Patch(s, a, []) == s
  {}

  lemma PatchAll(s: seq<Byte>, k: seq<Byte>)
    requires |k| == |s|
    ensures Patch(s, 0, k) == k
  {}

  /** A sector with a part replaced, written back. */
  lemma PatchInside(s: seq<Byte>, a: nat, b: seq<Byte>, i: nat, k: seq<Byte>)
    requires a + |b| <= |s| && i + |k| <= |b| && (b == s[a..a + |b|] || |k| == |b|)
    ensures Patch(s, a, Patch(b, i, k)) == Patch(s, a + i, k)
  {}

  lemma PatchRest(s: seq<Byte>, k: seq<Byte>)
    requires |k| <= |s|
    ensures Patch(s, 0, k)[..|k|] == k && Patch(s, 0, k)[|k|..] == s[|k|..]
  {}

  /** memcpy between different blocks */
  method Copy(dst: array<Byte>, at: nat, src: array<Byte>, from: nat, n: nat)
    requires dst != src && at + n <= dst.Length && from + n <= src.Length
    modifies dst
    ensures dst[..] == Patch(old(dst[..]), at, src[..][from..from + n])
  {
    assert src[..][from..from + n] == src[from..from + n];
    var i := 0;
    while i < n
      invariant 0 <= i <= n
      invariant dst[..at] == old(dst[..at]) && dst[at + i..] == old(dst[at + i..])
      invariant dst[at..at + i] == src[from..from + i]
    {
      dst[at + i] := src[from + i];
      i := i + 1;
    }
    assert dst[..] == dst[..at] + dst[at..at + n] + dst[at + n..];
  }

  /** A block device: sector s holds the BLOCK_SECTOR_SIZE bytes from s * BLOCK_SECTOR_SIZE on. */
  class Device {
    const bytes: array<Byte>

    constructor (sectors: nat)
      ensures fresh(bytes) && bytes.Length == sectors * BLOCK_SECTOR_SIZE
    {
      bytes := new Byte[sectors * BLOCK_SECTOR_SIZE](i => 0);
    }

    /** block_read */
    method Read(sector: nat, buffer: array<Byte>, at: nat)
      requires buffer != bytes && (sector + 1) * BLOCK_SECTOR_SIZE <= bytes.Length
      requires at + BLOCK_SECTOR_SIZE <= buffer.Length
      modifies buffer
      ensures var a := sector * BLOCK_SECTOR_SIZE;
              buffer[..] == Patch(old(buffer[..]), at, bytes[..][a..a + BLOCK_SECTOR_SIZE])
    {
      Copy(buffer, at, bytes, sector * BLOCK_SECTOR_SIZE, BLOCK_SECTOR_SIZE);
    }

    /** block_write */
    method Write(sector: nat, buffer: array<Byte>, from: nat)
      requires buffer != bytes && (sector + 1) * BLOCK_SECTOR_SIZE <= bytes.Length
      requires from + BLOCK_SECTOR_SIZE <= buffer.Length
      modifies bytes
      ensures var a := sector * BLOCK_SECTOR_SIZE;
              bytes[..] == Patch(old(bytes[..]), a, buffer[..][from..from + BLOCK_SECTOR_SIZE])
    {
      Copy(bytes, sector * BLOCK_SECTOR_SIZE, buffer, from, BLOCK_SECTOR_SIZE);
    }
  }

  /** How many of size bytes from offset on lie in a file of the given length. */
  function InFile(size: int, offset: nat, length: nat): nat {
    if size <= 0 || offset >= length then 0 else if size < length - offset then size else length - offset
  }

  /** An in-memory inode. */
  class Inode {
    const sector: nat
    var openCnt: nat
    var removed: bool
    var denyWriteCnt: nat
    const start: nat
    const length: nat

    constructor (sector: nat, start: nat, length: nat)
      ensures this.sector == sector && this.start == start && this.length == length
      ensures openCnt == 1 && !removed && denyWriteCnt == 0
    {
      this.sector, this.start, this.length := sector, start, length;
      openCnt, removed, denyWriteCnt := 1, false, 0;
    }

    ghost predicate On(device: Device) {
      (start + BytesToSectors(length)) * BLOCK_SECTOR_SIZE <= device.bytes.Length
    }

    /** Where the first byte of the data lies on the device. */
    function Base(): nat { start * BLOCK_SECTOR_SIZE }

    ghost function Data(device: Device): (d: seq<Byte>)
      requires On(device)
      reads device.bytes
      ensures |d| == length
    {
      device.bytes[..][Base()..Base() + length]
    }

    /** How many bytes the next step copies: no further than the request, the file and the sector go. */
    function ChunkSize(size: int, offset: nat): int {
      var inodeLeft := length - offset;
      var sectorLeft := BLOCK_SECTOR_SIZE - offset % BLOCK_SECTOR_SIZE;
      var minLeft := if inodeLeft < sectorLeft then inodeLeft else sectorLeft;
      if size < minLeft then size else minLeft
    }

    /** byte_to_sector, and where the byte lies in the sector. */
    lemma SectorOf(device: Device, offset: nat, chunk: int)
      requires On(device) && offset < length && 0 < chunk <= length - offset
      requires chunk <= BLOCK_SECTOR_SIZE - offset % BLOCK_SECTOR_SIZE
      ensures var s := start + offset / BLOCK_SECTOR_SIZE;
              s * BLOCK_SECTOR_SIZE + offset % BLOCK_SECTOR_SIZE == Base() + offset
              && (s + 1) * BLOCK_SECTOR_SIZE <= device.bytes.Length
    {
      var q := offset / BLOCK_SECTOR_SIZE;
      assert q < BytesToSectors(length);
      assert (start + q + 1) * BLOCK_SECTOR_SIZE <= (start + BytesToSectors(length)) * BLOCK_SECTOR_SIZE;
    }

    /** The chunks add up to what lies in the file. */
    lemma Chunks(size: int, offset: nat, done: nat)
      requires done <= InFile(size, offset, length)
      ensures size - done <= 0 ==> done == InFile(size, offset, length)
      ensures size - done > 0 ==> var chunk := ChunkSize(size - done, offset + done);
                if chunk <= 0 then done == InFile(size, offset, length)
                else offset + done < length && chunk <= length - (offset + done)
                     && chunk <= BLOCK_SECTOR_SIZE - (offset + done) % BLOCK_SECTOR_SIZE
                     && done + chunk <= InFile(size, offset, length)
    {}

    lemma InFileFits(size: int, offset: nat, n: nat)
      requires n <= InFile(size, offset, length)
      ensures n == 0 || (n <= size && offset + n <= length)
    {}

    /** One step of inode_read_at: a whole sector goes to the caller's buffer directly, a part of one
        through the bounce buffer, which is allocated when it is first needed. */
    method ReadChunk(device: Device, buffer: array<Byte>, to: nat, at: nat, chunk: nat, bounce: array?<Byte>,
                     reliable: bool)
      returns (ok: bool, bounce': array?<Byte>)
      requires On(device) && buffer != device.bytes && at < length && 0 < chunk <= length - at
      requires chunk <= BLOCK_SECTOR_SIZE - at % BLOCK_SECTOR_SIZE && to + chunk <= buffer.Length
      requires bounce != null ==> bounce.Length == BLOCK_SECTOR_SIZE && bounce != buffer && bounce != device.bytes
      modifies buffer, bounce
      ensures reliable ==> ok
      ensures bounce' == bounce || (bounce' != null && fresh(bounce') && bounce'.Length == BLOCK_SECTOR_SIZE)
      ensures buffer[..] == if ok then Patch(old(buffer[..]), to, Data(device)[at..at + chunk]) else old(buffer[..])
    {
      hide Patch;
      ok, bounce' := true, bounce;
      SectorOf(device, at, chunk);
      var sector, sectorOfs := start + at / BLOCK_SECTOR_SIZE, at % BLOCK_SECTOR_SIZE;
      SliceOfSlice(device.bytes[..], Base(), Base() + length, at, at + chunk);
      if sectorOfs == 0 && chunk == BLOCK_SECTOR_SIZE {
        device.Read(sector, buffer, to);
      } else {
        if bounce' == null {
          var granted: bool := *;
          if !(granted || reliable) {
            return false, bounce';
          }
          bounce' := new Byte[BLOCK_SECTOR_SIZE];
        }
        ReadPart(device, sector, sectorOfs, chunk, bounce', buffer, to);
      }
    }

    /** A part of a sector is copied out of the bounce buffer. */
    method ReadPart(device: Device, sector: nat, sectorOfs: nat, chunk: nat, bounce: array<Byte>,
                    buffer: array<Byte>, to: nat)
      requires (sector + 1) * BLOCK_SECTOR_SIZE <= device.bytes.Length && sectorOfs + chunk <= BLOCK_SECTOR_SIZE
      requires bounce.Length == BLOCK_SECTOR_SIZE && bounce != buffer && bounce != device.bytes
      requires buffer != device.bytes && to + chunk <= buffer.Length
      modifies buffer, bounce
      ensures var a := sector * BLOCK_SECTOR_SIZE + sectorOfs;
              buffer[..] == Patch(old(buffer[..]), to, device.bytes[..][a..a + chunk])
    {
      hide Patch;
      ghost var a := sector * BLOCK_SECTOR_SIZE;
      device.Read(sector, bounce, 0);
      PatchAll(old(bounce[..]), device.bytes[..][a..a + BLOCK_SECTOR_SIZE]);
      SliceOfSlice(device.bytes[..], a, a + BLOCK_SECTOR_SIZE, sectorOfs, sectorOfs + chunk);
      Copy(buffer, to, bounce, sectorOfs, chunk);
    }

    /** inode_read_at: the bytes of the file from offset on. It reads fewer only when memory for the
        bounce buffer runs out. */
    method ReadAt(device: Device, buffer: array<Byte>, size: int, offset: nat, reliable: bool)
      returns (bytesRead: nat)
      requires On(device) && buffer != device.bytes && size <= buffer.Length
      modifies buffer
      ensures bytesRead <= InFile(size, offset, length) && (reliable ==> bytesRead == InFile(size, offset, length))
      ensures bytesRead <= buffer.Length && buffer[bytesRead..] == old(buffer[bytesRead..])
      ensures bytesRead > 0 ==> offset + bytesRead <= length
                                && buffer[..bytesRead] == Data(device)[offset..offset + bytesRead]
    {
      hide Data, InFile, ChunkSize, On, Patch;
      bytesRead := 0;
      var left, at := size, offset;
      var bounce: array?<Byte> := null;
      ghost var before := buffer[..];
      ghost var data := if offset < length then Data(device)[offset..] else [];
      PatchNothing(before, 0);
      assert data[..0] == [];
      while left > 0
        invariant left == size - bytesRead && at == offset + bytesRead && bytesRead <= buffer.Length
        invariant bytesRead <= InFile(size, offset, length) && (bytesRead == 0 || offset + bytesRead <= length)
        invariant buffer[..] == Patch(before, 0, data[..bytesRead])
        invariant bounce != null ==> fresh(bounce) && bounce.Length == BLOCK_SECTOR_SIZE
      {
        var chunk := ChunkSize(left, at);
        Chunks(size, offset, bytesRead);
        if chunk <= 0 {
          break;
        }
        InFileFits(size, offset, bytesRead + chunk);
        var ok;
        ok, bounce := ReadChunk(device, buffer, bytesRead, at, chunk, bounce, reliable);
        if !ok {
          break;
        }
        PatchMore(before, 0, data, bytesRead, chunk);
        assert data == Data(device)[offset..length];
        SliceOfSlice(Data(device), offset, length, bytesRead, bytesRead + chunk);
        left, at, bytesRead := left - chunk, at + chunk, bytesRead + chunk;
      }
      Chunks(size, offset, bytesRead);
      PatchRest(before, data[..bytesRead]);
    }

    /** A part of a sector is written: the rest of the sector is read first. */
    method WritePart(device: Device, sector: nat, sectorOfs: nat, chunk: nat, bounce: array<Byte>,
                     buffer: array<Byte>, from: nat)
      requires (sector + 1) * BLOCK_SECTOR_SIZE <= device.bytes.Length && sectorOfs + chunk <= BLOCK_SECTOR_SIZE
      requires bounce.Length == BLOCK_SECTOR_SIZE && bounce != buffer && bounce != device.bytes
      requires buffer != device.bytes && from + chunk <= buffer.Length
      modifies device.bytes, bounce
      ensures device.bytes[..] == Patch(old(device.bytes[..]), sector * BLOCK_SECTOR_SIZE + sectorOfs,
                                        buffer[..][from..from + chunk])
    {
      hide Patch;
      ghost var before, data := device.bytes[..], buffer[..];
      if sectorOfs > 0 || chunk < BLOCK_SECTOR_SIZE - sectorOfs {
        device.Read(sector, bounce, 0);
      } else {
        var i := 0;
        while i < BLOCK_SECTOR_SIZE
          modifies bounce
        {
          bounce[i] := 0;
          i := i + 1;
        }
      }
      assert device.bytes[..] == before && buffer[..] == data;
      ghost var a, b := sector * BLOCK_SECTOR_SIZE, bounce[..];
      PatchAll(old(bounce[..]), before[a..a + BLOCK_SECTOR_SIZE]);
      Copy(bounce, sectorOfs, buffer, from, chunk);
      assert bounce[..][0..BLOCK_SECTOR_SIZE] == bounce[..];
      PatchInside(before, a, b, sectorOfs, data[from..from + chunk]);
      device.Write(sector, bounce, 0);
      assert buffer[..] == data;
    }

    /** One step of inode_write_at. */
    method WriteChunk(device: Device, buffer: array<Byte>, from: nat, at: nat, chunk: nat, bounce: array?<Byte>,
                      reliable: bool)
      returns (ok: bool, bounce': array?<Byte>)
      requires On(device) && buffer != device.bytes && at < length && 0 < chunk <= length - at
      requires chunk <= BLOCK_SECTOR_SIZE - at % BLOCK_SECTOR_SIZE && from + chunk <= buffer.Length
      requires bounce != null ==> bounce.Length == BLOCK_SECTOR_SIZE && bounce != buffer && bounce != device.bytes
      requires Base() + at + chunk <= device.bytes.Length
      modifies device.bytes, bounce
      ensures reliable ==> ok
      ensures bounce' == bounce || (bounce' != null && fresh(bounce') && bounce'.Length == BLOCK_SECTOR_SIZE)
      ensures device.bytes[..] == if ok then Patch(old(device.bytes[..]), Base() + at, buffer[..][from..from + chunk])
                                  else old(device.bytes[..])
    {
      hide Patch;
      ok, bounce' := true, bounce;
      SectorOf(device, at, chunk);
      var sector, sectorOfs := start + at / BLOCK_SECTOR_SIZE, at % BLOCK_SECTOR_SIZE;
      if sectorOfs == 0 && chunk == BLOCK_SECTOR_SIZE {
        device.Write(sector, buffer, from);
      } else {
        if bounce' == null {
          var granted: bool := *;
          if !(granted || reliable) {
            return false, bounce';
          }
          bounce' := new Byte[BLOCK_SECTOR_SIZE];
        }
        WritePart(device, sector, sectorOfs, chunk, bounce', buffer, from);
      }
    }

    /** The data lies on the device. */
    lemma OnDevice(device: Device)
      requires On(device)
      ensures Base() + length <= device.bytes.Length
    {}

    /** Outside the data of this inode nothing has changed. */
    ghost predicate OnlyData(before: seq<Byte>, after: seq<Byte>) {
      Base() + length <= |before| == |after| && before[..Base()] == after[..Base()]
      && before[Base() + length..] == after[Base() + length..]
    }

    lemma PatchedData(before: seq<Byte>, offset: nat, k: seq<Byte>)
      requires Base() + length <= |before| && offset + |k| <= length
      ensures var after := Patch(before, Base() + offset, k);
              OnlyData(before, after)
              && after[Base()..Base() + length] == Patch(before[Base()..Base() + length], offset, k)
    {}

    /** inode_write_at: the bytes of the file from offset on become those of the buffer, and no other byte
        of the device changes. It writes fewer only when memory for the bounce buffer runs out. */
    method WriteAt(device: Device, buffer: array<Byte>, size: int, offset: nat, reliable: bool)
      returns (bytesWritten: nat)
      requires On(device) && buffer != device.bytes && size <= buffer.Length
      modifies device.bytes
      ensures denyWriteCnt > 0 ==> bytesWritten == 0
      ensures denyWriteCnt == 0 ==> bytesWritten <= InFile(size, offset, length)
      ensures denyWriteCnt == 0 && reliable ==> bytesWritten == InFile(size, offset, length)
      ensures bytesWritten <= buffer.Length
      ensures if bytesWritten == 0 then device.bytes[..] == old(device.bytes[..])
              else offset + bytesWritten <= length && Base() + length <= device.bytes.Length
                   && device.bytes[..] == Patch(old(device.bytes[..]), Base() + offset, buffer[..][..bytesWritten])
    {
      hide InFile, ChunkSize, On, Patch;
      bytesWritten := 0;
      if denyWriteCnt > 0 {
        return;
      }
      OnDevice(device);
      var left, at := size, offset;
      var bounce: array?<Byte> := null;
      ghost var before, data := device.bytes[..], buffer[..];
      while left > 0
        invariant left == size - bytesWritten && at == offset + bytesWritten && bytesWritten <= buffer.Length
        invariant bytesWritten <= InFile(size, offset, length) && (bytesWritten == 0 || offset + bytesWritten <= length)
        invariant bytesWritten == 0 ==> device.bytes[..] == before
        invariant bytesWritten > 0 ==> device.bytes[..] == Patch(before, Base() + offset, data[..bytesWritten])
        invariant bounce != null ==> fresh(bounce) && bounce.Length == BLOCK_SECTOR_SIZE
        invariant buffer[..] == data
      {
        var chunk := ChunkSize(left, at);
        Chunks(size, offset, bytesWritten);
        if chunk <= 0 {
          break;
        }
        InFileFits(size, offset, bytesWritten + chunk);
        var ok;
        ok, bounce := WriteChunk(device, buffer, bytesWritten, at, chunk, bounce, reliable);
        if !ok {
          break;
        }
        if bytesWritten == 0 {
          PatchNothing(before, Base() + offset);
        }
        PatchMore(before, Base() + offset, data, bytesWritten, chunk);
        left, at, bytesWritten := left - chunk, at + chunk, bytesWritten + chunk;
      }
      Chunks(size, offset, bytesWritten);
    }
  }

  lemma SliceOfSlice(s: seq<Byte>, a: nat, b: nat, i: nat, j: nat)
    requires a <= b <= |s| && i <= j <= b - a
    ensures s[a..b][i..j] == s[a + i..a + j]
  {
    var x, y := s[a..b][i..j], s[a + i..a + j];
    forall k | 0 <= k < j - i ensures x[k] == y[k] {
      assert x[k] == s[a..b][i + k];
    }
    assert x == y;
  }

  /** Writing inside a file's data changes exactly the bytes from offset on, and data elsewhere on the
      device is not touched. */
  lemma WrittenData(s: seq<Byte>, base: nat, length: nat, offset: nat, k: seq<Byte>, p: nat, q: nat)
    requires base + length <= |s| && offset + |k| <= length
    requires p <= q <= |s| && (q <= base || base + length <= p)
    ensures var t := Patch(s, base + offset, k);
            t[base..base + length] == Patch(s[base..base + length], offset, k) && t[p..q] == s[p..q]
  {}

  /** Two files whose sectors do not overlap have data that do not overlap. */
  lemma SectorsApart(start: nat, length: nat, start': nat, length': nat)
    requires start + BytesToSectors(length) <= start' || start' + BytesToSectors(length') <= start
    ensures var b, b' := start * BLOCK_SECTOR_SIZE, start' * BLOCK_SECTOR_SIZE;
            b + length <= b' || b' + length' <= b
  {}
}
