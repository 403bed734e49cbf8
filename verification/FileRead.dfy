/**
  Reading file content through a flattened extent list (`read_file_at`, `file_block` in
  `src/reader/mod.rs`; the ordering check of `verify_inode` in `src/reader/verify.rs`).
*/
module FileRead {
  import opened Bytes
  import opened ExtentWalk

  function First(e: FileExtent): nat { e.logical as int * BLOCK_SIZE }
  function After(e: FileExtent): nat { First(e) + e.len as int * BLOCK_SIZE }

  /** The extent maps the byte at `pos` and it has been written. */
  predicate Maps(e: FileExtent, pos: int) {
    !e.unwritten && First(e) <= pos < After(e)
  }

  /** Where on the device the byte at `pos` of the file is. */
  function DiskOffset(e: FileExtent, pos: int): nat
    requires First(e) <= pos
  {
    e.physical as int * BLOCK_SIZE + (pos - First(e))
  }

  function DiskByte(fs: Fs, at: nat): byte {
    if at < |fs.disk| then fs.disk[at] else 0
  }

  /** A written extent that contains the block. */
  predicate Backs(e: FileExtent, logical: nat) {
    !e.unwritten && e.logical <= logical < e.logical as int + e.len as int
  }

  /** The block backing `logical`: the first written extent that contains it. */
  function FileBlock(extents: seq<FileExtent>, logical: nat): Option<nat> {
    if extents == [] then None
    else if Backs(extents[0], logical) then Some(extents[0].physical as int + (logical - extents[0].logical))
    else FileBlock(extents[1..], logical)
  }

  /** The file's byte at `pos` as reading leaves it: the last written extent wins, holes are zero. */
  function FileByte(fs: Fs, extents: seq<FileExtent>, pos: nat): byte {
    if extents == [] then 0
    else
      var e := extents[|extents| - 1];
      if Maps(e, pos) then DiskByte(fs, DiskOffset(e, pos)) else FileByte(fs, extents[..|extents| - 1], pos)
  }

  /** The byte at `pos` of a file when `block` backs it; no block backs a hole. */
  function ByteOf(fs: Fs, block: Option<nat>, pos: nat): byte {
    match block
    case None => 0
    case Some(b) => DiskByte(fs, b * BLOCK_SIZE + pos % BLOCK_SIZE)
  }

  /** The bytes a read of `n` bytes at `offset` delivers; short only at the end of the file. */
  function Window(fs: Fs, extents: seq<FileExtent>, size: nat, offset: nat, n: nat): seq<byte> {
    seq<byte>(Max(Min(size - offset, n), 0), k requires 0 <= k => FileByte(fs, extents, offset + k))
  }

  /** The part of the request that the extent maps lies on the device. */
  predicate OnDevice(fs: Fs, e: FileExtent, lo: nat, hi: nat) {
    var start, end := Max(First(e), lo), Min(After(e), hi);
    !e.unwritten && start < end ==> DiskOffset(e, start) + (end - start) <= |fs.disk|
  }

  /**
    Every part of the request that some written extent maps lies on the device; past the end there is
    nothing to read.
  */
  predicate Readable(fs: Fs, extents: seq<FileExtent>, size: nat, offset: nat, n: nat) {
    offset < size ==> forall i :: 0 <= i < |extents| ==> OnDevice(fs, extents[i], offset, Min(size, offset + n))
  }

  /** The byte at `pos` is on the device wherever this extent puts it. */
  predicate Backed(fs: Fs, e: FileExtent, pos: nat) {
    Maps(e, pos) ==> e.physical as int * BLOCK_SIZE + (pos - First(e)) < |fs.disk|
  }

  lemma OnDeviceByBytes(fs: Fs, e: FileExtent, lo: nat, hi: nat)
    ensures OnDevice(fs, e, lo, hi) <==> forall pos: nat :: lo <= pos < hi ==> Backed(fs, e, pos)
  {
    var start, end := Max(First(e), lo), Min(After(e), hi);
    if !e.unwritten && start < end && forall pos: nat :: lo <= pos < hi ==> Backed(fs, e, pos) {
      assert Maps(e, end - 1) && Backed(fs, e, end - 1);
    }
  }

  /** A request can be read exactly when each of its bytes that a written extent maps lies on the device. */
  lemma ReadableByBytes(fs: Fs, extents: seq<FileExtent>, size: nat, offset: nat, n: nat)
    ensures Readable(fs, extents, size, offset, n) <==>
            forall i, pos: nat :: 0 <= i < |extents| && offset <= pos < Min(size, offset + n)
                                  ==> Backed(fs, extents[i], pos)
  {
    hide OnDevice, Backed;
    forall i | 0 <= i < |extents|
      ensures OnDevice(fs, extents[i], offset, Min(size, offset + n))
              <==> forall pos: nat :: offset <= pos < Min(size, offset + n) ==> Backed(fs, extents[i], pos)
    {
      OnDeviceByBytes(fs, extents[i], offset, Min(size, offset + n));
    }
  }

  /** Fills `buf[lo..hi]` from the device, or fails without touching it. */
  method ReadExactAt(fs: Fs, at: nat, buf: array<byte>, lo: nat, hi: nat) returns (ok: bool)
    requires lo <= hi <= buf.Length
    modifies buf
    ensures ok <==> at + (hi - lo) <= |fs.disk|
    ensures forall k :: 0 <= k < buf.Length ==>
              buf[k] == if ok && lo <= k < hi then DiskByte(fs, at + (k - lo)) else old(buf[k])
  {
    ok := at + (hi - lo) <= |fs.disk|;
    if ok {
      forall k | lo <= k < hi {
        buf[k] := fs.disk[at + (k - lo)];
      }
    }
  }

  /** One extent's share of a request for `want` bytes at `offset`, over what the extents before it left. */
  method CopyExtent(fs: Fs, e: FileExtent, offset: nat, want: nat, buf: array<byte>, ghost before: seq<FileExtent>)
                    returns (ok: bool)
    requires want <= buf.Length && forall k :: 0 <= k < want ==> buf[k] == FileByte(fs, before, offset + k)
    modifies buf
    ensures ok <==> OnDevice(fs, e, offset, offset + want)
    ensures ok ==> forall k :: 0 <= k < want ==> buf[k] == FileByte(fs, before + [e], offset + k)
    ensures forall k :: want <= k < buf.Length ==> buf[k] == old(buf[k])
  {
    ok := true;
    assert (before + [e])[..|before|] == before;
    if !e.unwritten {
      var start, end := Max(First(e), offset), Min(After(e), offset + want);
      if start < end {
        ok := ReadExactAt(fs, DiskOffset(e, start), buf, start - offset, end - offset);
      }
    }
  }

  method ReadFileAt(fs: Fs, size: u64, extents: seq<FileExtent>, offset: u64, buf: array<byte>) returns (r: Result<nat>)
    modifies buf
    ensures r.Ok? <==> Readable(fs, extents, size, offset, buf.Length)
    ensures r.Ok? ==> r.value == |Window(fs, extents, size, offset, buf.Length)| <= buf.Length
    ensures r.Ok? ==> buf[..r.value] == Window(fs, extents, size, offset, buf.Length)
    ensures r.Ok? ==> buf[r.value..] == old(buf[r.value..])
    ensures r.Err? ==> r.error == Io
  {
    if size <= offset {
      return Ok(0);
    }
    hide OnDevice;
    var want := Min(size - offset, buf.Length);
    forall k | 0 <= k < want {
      buf[k] := 0;
    }
    for i := 0 to |extents|
      invariant forall j :: 0 <= j < i ==> OnDevice(fs, extents[j], offset, offset + want)
      invariant forall k :: 0 <= k < want ==> buf[k] == FileByte(fs, extents[..i], offset + k)
      invariant forall k :: want <= k < buf.Length ==> buf[k] == old(buf[k])
    {
      assert extents[..i + 1] == extents[..i] + [extents[i]];
      var ok := CopyExtent(fs, extents[i], offset, want, buf, extents[..i]);
      if !ok {
        return Err(Io);
      }
    }
    assert extents[..|extents|] == extents;
    return Ok(want);
  }

  // ----- extents that pass the ordering check -----

  /** The adjacent-pair condition of the verifier. */
  predicate Ordered(extents: seq<FileExtent>) {
    forall i, j :: 0 <= i && j == i + 1 < |extents|
      ==> extents[i].logical as int + extents[i].len as int <= extents[j].logical
  }

  /** The verifier's scan over neighbouring extents; it stops at the first bad pair. */
  method ReportsDisorder(extents: seq<FileExtent>) returns (issue: bool)
    ensures issue <==> !Ordered(extents)
  {
    issue := false;
    var i := 0;
    while i + 1 < |extents|
      invariant 0 <= i
      invariant forall k, j ::
                  0 <= k < i && j == k + 1 < |extents|
                  ==> extents[k].logical as int + extents[k].len as int <= extents[j].logical
    {
      if extents[i].logical as int + extents[i].len as int > extents[i + 1].logical {
        assert !Ordered(extents);
        return true;
      }
      i := i + 1;
    }
  }

  /** Checking neighbours is enough: all pairs are in order, whatever the lengths. */
  lemma {:induction false} AllPairsOrdered(extents: seq<FileExtent>, i: nat, j: nat)
    requires Ordered(extents) && i < j < |extents|
    ensures extents[i].logical as int + extents[i].len as int <= extents[j].logical
    decreases j - i
  {
    if i + 1 < j { AllPairsOrdered(extents, i, j - 1); }
  }

  lemma MapsBlock(e: FileExtent, pos: nat)
    ensures Maps(e, pos) <==> Backs(e, pos / BLOCK_SIZE)
    ensures Maps(e, pos) ==>
              DiskOffset(e, pos) == (e.physical as int + (pos / BLOCK_SIZE - e.logical)) * BLOCK_SIZE + pos % BLOCK_SIZE
  {
  }

  /** Where exactly one extent can map a position, first match and last write agree. */
  lemma {:induction false} FirstIsLast(fs: Fs, extents: seq<FileExtent>, pos: nat)
    requires Ordered(extents)
    ensures FileByte(fs, extents, pos) == ByteOf(fs, FileBlock(extents, pos / BLOCK_SIZE), pos)
    decreases |extents|
  {
    hide Maps, DiskOffset, DiskByte;
    if extents != [] {
      var e, rest := extents[0], extents[1..];
      FirstIsLast(fs, rest, pos);
      MapsBlock(e, pos);
      FileByteCons(fs, e, rest, pos);
      assert extents == [e] + rest;
      if Maps(e, pos) {
        forall j | 0 <= j < |rest| ensures !Maps(rest[j], pos) {
          AllPairsOrdered(extents, 0, j + 1);
          MapsBlock(rest[j], pos);
        }
      }
    }
  }

  /** Putting an extent in front matters only where no later one maps the position. */
  lemma {:induction false} FileByteCons(fs: Fs, e: FileExtent, rest: seq<FileExtent>, pos: nat)
    ensures FileByte(fs, [e] + rest, pos) ==
            if exists j :: 0 <= j < |rest| && Maps(rest[j], pos) then FileByte(fs, rest, pos)
            else if Maps(e, pos) then DiskByte(fs, DiskOffset(e, pos)) else 0
    ensures (forall j :: 0 <= j < |rest| ==> !Maps(rest[j], pos)) ==> FileByte(fs, rest, pos) == 0
    decreases |rest|
  {
    if rest == [] {
      assert [e] + rest == [e];
    } else {
      var most := rest[..|rest| - 1];
      assert ([e] + rest)[..|rest|] == [e] + most;
      FileByteCons(fs, e, most, pos);
    }
  }

  /** The block whose bytes reading leaves at `logical`: the last written extent that contains it. */
  function LastBlock(extents: seq<FileExtent>, logical: nat): Option<nat> {
    if extents == [] then None
    else
      var e := extents[|extents| - 1];
      if Backs(e, logical) then Some(e.physical as int + (logical - e.logical))
      else LastBlock(extents[..|extents| - 1], logical)
  }

  lemma {:induction false} ReadIsLast(fs: Fs, extents: seq<FileExtent>, pos: nat)
    ensures FileByte(fs, extents, pos) == ByteOf(fs, LastBlock(extents, pos / BLOCK_SIZE), pos)
    decreases |extents|
  {
    if extents != [] {
      MapsBlock(extents[|extents| - 1], pos);
      hide Maps, DiskOffset, DiskByte;
      ReadIsLast(fs, extents[..|extents| - 1], pos);
    }
  }

  lemma {:induction false} FirstMatches(extents: seq<FileExtent>, logical: nat)
    ensures FileBlock(extents, logical).None? <==>
            forall i :: 0 <= i < |extents| ==> !Backs(extents[i], logical)
    decreases |extents|
  {
    if extents != [] {
      FirstMatches(extents[1..], logical);
      assert forall i :: 0 <= i < |extents| - 1 ==> extents[1..][i] == extents[i + 1];
    }
  }

  lemma {:induction false} LastMatches(extents: seq<FileExtent>, logical: nat)
    ensures LastBlock(extents, logical).None? <==>
            forall i :: 0 <= i < |extents| ==> !Backs(extents[i], logical)
    decreases |extents|
  {
    if extents != [] { LastMatches(extents[..|extents| - 1], logical); }
  }

  /** A disk on which exactly one byte of two blocks is set. */
  lemma MarkedDisk(b: nat, c: nat, pos: nat)
    requires b != c
    ensures var fs := Fs(Zeros(c * BLOCK_SIZE + pos % BLOCK_SIZE) + [1], false, 0);
            ByteOf(fs, Some(b), pos) != ByteOf(fs, Some(c), pos)
  {
  }

  /**
    Whatever the extents are, the two lookups agree on every disk exactly when the first and the last
    written match of the block are backed by the same device block.
  */
  lemma LookupsAgreeExactly(extents: seq<FileExtent>, pos: nat)
    ensures (forall fs :: FileByte(fs, extents, pos) == ByteOf(fs, FileBlock(extents, pos / BLOCK_SIZE), pos))
            <==> FileBlock(extents, pos / BLOCK_SIZE) == LastBlock(extents, pos / BLOCK_SIZE)
  {
    var first, last := FileBlock(extents, pos / BLOCK_SIZE), LastBlock(extents, pos / BLOCK_SIZE);
    FirstMatches(extents, pos / BLOCK_SIZE);
    LastMatches(extents, pos / BLOCK_SIZE);
    hide FileByte, FileBlock, LastBlock, ByteOf;
    forall fs ensures FileByte(fs, extents, pos) == ByteOf(fs, last, pos) { ReadIsLast(fs, extents, pos); }
    if first != last {
      MarkedDisk(first.value, last.value, pos);
      var fs := Fs(Zeros(last.value * BLOCK_SIZE + pos % BLOCK_SIZE) + [1], false, 0);
      assert FileByte(fs, extents, pos) != ByteOf(fs, first, pos);
    }
  }

  // ----- adjacent reads -----

  lemma OnDeviceSplits(fs: Fs, e: FileExtent, lo: nat, mid: nat, hi: nat)
    requires lo <= mid <= hi
    ensures OnDevice(fs, e, lo, hi) <==> OnDevice(fs, e, lo, mid) && OnDevice(fs, e, mid, hi)
  {
  }

  /**
    A read of both succeeds exactly when both adjacent reads do, and delivers what they deliver one after
    the other.
  */
  lemma AdjacentReads(fs: Fs, extents: seq<FileExtent>, size: nat, offset: nat, m: nat, n: nat)
    ensures Readable(fs, extents, size, offset, m + n)
            <==> Readable(fs, extents, size, offset, m) && Readable(fs, extents, size, offset + m, n)
    ensures Window(fs, extents, size, offset, m) + Window(fs, extents, size, offset + m, n)
            == Window(fs, extents, size, offset, m + n)
    ensures |Window(fs, extents, size, offset, m)| + |Window(fs, extents, size, offset + m, n)|
            == |Window(fs, extents, size, offset, m + n)|
  {
    hide OnDevice;
    if offset < size {
      var mid, hi := Min(size, offset + m), Min(size, offset + m + n);
      forall i | 0 <= i < |extents|
        ensures OnDevice(fs, extents[i], offset, hi)
                <==> OnDevice(fs, extents[i], offset, mid) && OnDevice(fs, extents[i], mid, hi)
      {
        OnDeviceSplits(fs, extents[i], offset, mid, hi);
      }
      if size <= offset + m {
        forall i | 0 <= i < |extents|
          ensures OnDevice(fs, extents[i], size, size)
        {
          NothingToRead(fs, extents[i], size);
        }
      }
    }
  }

  lemma NothingToRead(fs: Fs, e: FileExtent, at: nat)
    ensures OnDevice(fs, e, at, at)
  {
  }
}
