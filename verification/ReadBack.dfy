/**
  From the builder to the reader: a file that was placed by the allocator, planned by
  `plan_extents` (`src/build/seal.rs`) and filled by the writer (`src/build/writer.rs`) is what
  the reader's walk and `read_file_at` (`src/reader/mod.rs`) find on the finished image.
*/
module ReadBack {
  import opened Bytes
  import opened Allocator
  import opened Writer
  import Extent
  import ExtentBuild
  import ExtentTree
  import ExtentWalk
  import FileRead
  import opened FilePlacement
  import Csum

  // ----- where the content lies -----

  /** The byte of the content that run `i` holds at image position `x`. */
  lemma {:induction false} PlacedAt(runs: seq<Run>, content: seq<byte>, i: nat, x: int)
    requires DisjointRuns(runs) && i < |runs| && InRun(runs[i], x / BLOCK_SIZE)
    ensures PlacedByte(runs, content, x)
            == ByteIn(content, TotalLen(runs[..i]) * BLOCK_SIZE + (x - runs[i].start * BLOCK_SIZE))
    decreases |runs|
  {
    var k := |runs| - 1;
    if i < k {
      assert runs[..k][..i] == runs[..i];
      PlacedAt(runs[..k], content, i, x);
    }
  }

  /** Extent `i` maps run `i`, at any logical position. */
  predicate Backs(extents: seq<ExtentWalk.FileExtent>, runs: seq<Run>) {
    && |extents| == |runs|
    && forall i ::
         0 <= i < |runs| ==>
           extents[i].physical == runs[i].start && extents[i].len as int == runs[i].len && !extents[i].unwritten
  }

  /** The content seen through the extents: each shows its run's share, and there is nothing between them. */
  function Seen(extents: seq<ExtentWalk.FileExtent>, runs: seq<Run>, content: seq<byte>, pos: nat): byte
    requires |extents| == |runs|
  {
    if extents == [] then 0
    else
      var k := |extents| - 1;
      if FileRead.Maps(extents[k], pos)
        then ByteIn(content, TotalLen(runs[..k]) * BLOCK_SIZE + (pos - FileRead.First(extents[k])))
      else Seen(extents[..k], runs[..k], content, pos)
  }

  lemma MappedBlock(e: ExtentWalk.FileExtent, r: Run, pos: nat)
    requires FileRead.Maps(e, pos) && e.physical == r.start && e.len as int == r.len
    ensures InRun(r, FileRead.DiskOffset(e, pos) / BLOCK_SIZE)
    ensures FileRead.DiskOffset(e, pos) - r.start * BLOCK_SIZE == pos - FileRead.First(e)
  {
  }

  /** The disk is the image of a sealed layout. */
  ghost predicate IsImage(fs: ExtentWalk.Fs, l: Layout, contents: seq<seq<byte>>) {
    Sealed(l) && |contents| == |l.files| && fs.disk == ImageOf(l, contents)
  }

  /** And slot `s` of it has not been dropped. */
  ghost predicate Holds(fs: ExtentWalk.Fs, l: Layout, contents: seq<seq<byte>>, s: nat) {
    IsImage(fs, l, contents) && s < |l.files| && !l.files[s].dropped
  }

  lemma HeldByte(fs: ExtentWalk.Fs, l: Layout, contents: seq<seq<byte>>, s: nat, i: nat, x: nat)
    requires Holds(fs, l, contents, s) && i < |l.files[s].runs| && InRun(l.files[s].runs[i], x / BLOCK_SIZE)
    ensures x < |fs.disk|
    ensures FileRead.DiskByte(fs, x)
            == ByteIn(contents[s], TotalLen(l.files[s].runs[..i]) * BLOCK_SIZE
            + (x - l.files[s].runs[i].start * BLOCK_SIZE))
  {
    SealedFile(l, s);
    hide Sealed, PlacedByte, TotalLen, ImageByte, ByteIn;
    assert InRuns(l.files[s].runs, x / BLOCK_SIZE);
    ImageOfFile(l, contents, s, x);
    PlacedAt(l.files[s].runs, contents[s], i, x);
  }

  lemma {:induction false} SeenPrefix(fs: ExtentWalk.Fs, l: Layout, contents: seq<seq<byte>>, s: nat,
                                      extents: seq<ExtentWalk.FileExtent>, pos: nat, n: nat)
    requires Holds(fs, l, contents, s) && Backs(extents, l.files[s].runs) && n <= |extents|
    ensures FileRead.FileByte(fs, extents[..n], pos) == Seen(extents[..n], l.files[s].runs[..n], contents[s], pos)
    decreases n
  {
    if 0 < n {
      var k, runs := n - 1, l.files[s].runs;
      SeenPrefix(fs, l, contents, s, extents, pos, k);
      assert extents[..n][..k] == extents[..k] && runs[..n][..k] == runs[..k];
      if FileRead.Maps(extents[k], pos) {
        MappedBlock(extents[k], runs[k], pos);
        HeldByte(fs, l, contents, s, k, FileRead.DiskOffset(extents[k], pos));
      }
    }
  }

  /** On the image, the reader sees a filled file's content through any extents that map its runs. */
  lemma FilledFileIsSeen(fs: ExtentWalk.Fs, l: Layout, contents: seq<seq<byte>>, s: nat,
                         extents: seq<ExtentWalk.FileExtent>, pos: nat)
    requires Holds(fs, l, contents, s) && Backs(extents, l.files[s].runs)
    ensures FileRead.FileByte(fs, extents, pos) == Seen(extents, l.files[s].runs, contents[s], pos)
  {
    SeenPrefix(fs, l, contents, s, extents, pos, |extents|);
    assert extents[..|extents|] == extents && l.files[s].runs[..|extents|] == l.files[s].runs;
  }

  /** And no such extent leads off the image. */
  lemma FilledFileIsReadable(fs: ExtentWalk.Fs, l: Layout, contents: seq<seq<byte>>, s: nat,
                             extents: seq<ExtentWalk.FileExtent>, size: nat, offset: nat, n: nat)
    requires Holds(fs, l, contents, s) && Backs(extents, l.files[s].runs)
    ensures FileRead.Readable(fs, extents, size, offset, n)
  {
    if extents != [] { SealedFile(l, s); }
    hide Sealed;
    forall i | 0 <= i < |extents| ensures FileRead.OnDevice(fs, extents[i], offset, Min(size, offset + n)) {
      assert l.files[s].runs[i].End() <= l.totalBlocks;
    }
  }

  // ----- what the planned extents show -----

  /** What the file was declared to hold: each stretch shows its share of the content, and the rest is zero. */
  function DeclaredByte(segs: seq<DataSeg>, content: seq<byte>, pos: nat): byte {
    if segs == [] then 0
    else
      var k := |segs| - 1;
      var s := segs[k];
      if s.offset <= pos < s.offset as int + s.len as int then ByteIn(content, BytesIn(segs[..k]) + (pos - s.offset))
      else DeclaredByte(segs[..k], content, pos)
  }

  /** The same with every stretch rounded up to whole blocks. */
  function RoundedByte(segs: seq<DataSeg>, content: seq<byte>, pos: nat): byte {
    if segs == [] then 0
    else
      var k := |segs| - 1;
      var s := segs[k];
      if s.offset <= pos < s.offset as int + BlocksFor(s.len) as int * BLOCK_SIZE
        then ByteIn(content, BytesIn(segs[..k]) + (pos - s.offset))
      else RoundedByte(segs[..k], content, pos)
  }

  lemma {:induction false} WholeIsRounded(segs: seq<DataSeg>, content: seq<byte>, pos: nat)
    requires forall i :: 0 <= i < |segs| ==> segs[i].len % BLOCK_SIZE == 0
    ensures RoundedByte(segs, content, pos) == DeclaredByte(segs, content, pos)
    decreases |segs|
  {
    hide BlocksFor, ByteIn;
    if segs != [] {
      BlocksCover(segs[|segs| - 1].len);
      WholeIsRounded(segs[..|segs| - 1], content, pos);
    }
  }

  lemma {:induction false} BeforeAll(segs: seq<DataSeg>, content: seq<byte>, pos: nat)
    requires forall i :: 0 <= i < |segs| ==> segs[i].offset as int + segs[i].len as int <= pos
    ensures DeclaredByte(segs, content, pos) == 0
    decreases |segs|
  {
    if segs != [] { BeforeAll(segs[..|segs| - 1], content, pos); }
  }

  /** Rounding shows only the zeros after the content's end. */
  lemma RoundedIsDeclared(segs: seq<DataSeg>, content: seq<byte>, pos: nat)
    requires Aligned(segs) && InOrder(segs) && |content| == BytesIn(segs)
    ensures RoundedByte(segs, content, pos) == DeclaredByte(segs, content, pos)
  {
    hide BlocksFor;
    if segs != [] {
      var k := |segs| - 1;
      BlocksCover(segs[k].len);
      WholeIsRounded(segs[..k], content, pos);
      if segs[k].offset as int + segs[k].len as int <= pos { BeforeAll(segs[..k], content, pos); }
    }
  }

  function Mapped(extents: seq<Extent.Extent>): (r: seq<ExtentWalk.FileExtent>)
    ensures |r| == |extents|
  {
    seq(|extents|, i requires 0 <= i < |extents| => ExtentWalk.Mapping(extents[i]))
  }

  lemma MappedAppend(a: seq<Extent.Extent>, b: seq<Extent.Extent>)
    ensures Mapped(a + b) == Mapped(a) + Mapped(b)
  {
  }

  lemma {:induction false} TotalAppend(a: seq<Run>, b: seq<Run>)
    ensures TotalLen(a + b) == TotalLen(a) + TotalLen(b)
    decreases |b|
  {
    if b == [] {
      assert a + b == a;
    } else {
      assert (a + b)[..|a + b| - 1] == a + b[..|b| - 1];
      TotalAppend(a, b[..|b| - 1]);
    }
  }

  lemma {:induction false} FlattenTotal(runs: seq<Run>)
    ensures |Flatten(runs)| == TotalLen(runs)
    decreases |runs|
  {
    if runs != [] { FlattenTotal(runs[..|runs| - 1]); }
  }

  lemma NumberedMapping(part: seq<Run>, offset: u64, j: nat)
    requires j < |part| && RunsCapped(part, MAX_EXTENT) && offset % BLOCK_SIZE == 0
    requires offset / BLOCK_SIZE + TotalLen(part[..j]) < 0x1_0000_0000
    ensures var e := Mapped(Numbered(part, offset / BLOCK_SIZE))[j];
            && FileRead.First(e) == offset + TotalLen(part[..j]) * BLOCK_SIZE && e.len as int == part[j].len
               && !e.unwritten
  {
    hide TotalLen;
  }

  lemma SeenStep(extents: seq<ExtentWalk.FileExtent>, runs: seq<Run>, e: ExtentWalk.FileExtent, r: Run,
                 content: seq<byte>, pos: nat)
    requires |extents| == |runs|
    ensures Seen(extents + [e], runs + [r], content, pos) ==
            if FileRead.Maps(e, pos) then ByteIn(content, TotalLen(runs) * BLOCK_SIZE + (pos - FileRead.First(e)))
              else Seen(extents, runs, content, pos)
  {
    assert (extents + [e])[..|extents|] == extents && (runs + [r])[..|runs|] == runs;
  }

  /** Numbered from `logical` on, no run starts at or past block 2^32. */
  predicate Below(logical: nat, part: seq<Run>) {
    forall j :: 0 <= j < |part| ==> logical + TotalLen(part[..j]) < 0x1_0000_0000
  }

  /** The first `j` runs of a stretch, after whatever came before it. */
  lemma {:induction false} StretchSeen(before: seq<ExtentWalk.FileExtent>, runs: seq<Run>, part: seq<Run>,
                                       offset: u64, content: seq<byte>, pos: nat, j: nat)
    requires |before| == |runs| && j <= |part| && RunsCapped(part, MAX_EXTENT) && offset % BLOCK_SIZE == 0
    requires Below(offset / BLOCK_SIZE, part)
    ensures Seen(before + Mapped(Numbered(part, offset / BLOCK_SIZE))[..j], runs + part[..j], content, pos)
            == if offset <= pos < offset as int + TotalLen(part[..j]) * BLOCK_SIZE
              then ByteIn(content, TotalLen(runs) * BLOCK_SIZE + (pos - offset))
               else Seen(before, runs, content, pos)
    decreases j
  {
    var all := Mapped(Numbered(part, offset / BLOCK_SIZE));
    if j == 0 {
      assert before + all[..0] == before && runs + part[..0] == runs && part[..0] == [];
    } else {
      var k := j - 1;
      StretchSeen(before, runs, part, offset, content, pos, k);
      StepOf(before, all, k);
      StepOf(runs, part, k);
      NextDone(part, k);
      PrefixLen(part, k);
      TotalAppend(runs, part[..k]);
      NumberedMapping(part, offset, k);
      hide TotalLen, Mapped, Numbered, ByteIn, RunsCapped, Seen;
      SeenStep(before + all[..k], runs + part[..k], all[k], part[k], content, pos);
    }
  }

  lemma WholeStretchSeen(before: seq<ExtentWalk.FileExtent>, runs: seq<Run>, part: seq<Run>, s: DataSeg,
                         content: seq<byte>, pos: nat)
    requires |before| == |runs| && RunsCapped(part, MAX_EXTENT) && s.offset % BLOCK_SIZE == 0
             && TotalLen(part) == BlocksFor(s.len)
    requires Below(s.offset / BLOCK_SIZE, part)
    ensures Seen(before + Mapped(Numbered(part, s.offset / BLOCK_SIZE)), runs + part, content, pos)
            == if s.offset <= pos < s.offset as int + BlocksFor(s.len) as int * BLOCK_SIZE
              then ByteIn(content, TotalLen(runs) * BLOCK_SIZE + (pos - s.offset))
               else Seen(before, runs, content, pos)
  {
    hide Seen, TotalLen, BlocksFor, Numbered, Mapped, ByteIn, RunsCapped, Below;
    StretchSeen(before, runs, part, s.offset, content, pos, |part|);
    WholeSlice(part);
    WholeSlice(Mapped(Numbered(part, s.offset / BLOCK_SIZE)));
  }

  lemma WholeSlice<T>(s: seq<T>)
    ensures s[..|s|] == s
  {
  }

  lemma RoundedStep(segs: seq<DataSeg>, content: seq<byte>, pos: nat)
    requires segs != []
    ensures var k := |segs| - 1; var s := segs[k];
            RoundedByte(segs, content, pos) ==
              if s.offset <= pos < s.offset as int + BlocksFor(s.len) as int * BLOCK_SIZE
                then ByteIn(content, BytesIn(segs[..k]) + (pos - s.offset))
              else RoundedByte(segs[..k], content, pos)
  {
  }

  lemma StepOf<T>(a: seq<T>, b: seq<T>, k: nat)
    requires k < |b|
    ensures a + b[..k + 1] == (a + b[..k]) + [b[k]]
  {
  }

  // ----- which data can be addressed -----

  /** The logical block that the file's data block `t` was declared for. */
  function DeclaredBlock(segs: seq<DataSeg>, t: nat): nat {
    if segs == [] then t
    else
      var k := |segs| - 1;
      var before := BlocksForAll(segs[..k]);
      if before <= t then segs[k].offset / BLOCK_SIZE + (t - before) else DeclaredBlock(segs[..k], t)
  }

  /** Every run starts at a block that 32 bits can number. */
  predicate Addressable(segs: seq<DataSeg>, runs: seq<Run>) {
    forall i :: 0 <= i < |runs| ==> DeclaredBlock(segs, TotalLen(runs[..i])) < 0x1_0000_0000
  }

  /** Where the runs of earlier stretches, and those of the last one, were declared. */
  lemma RunDeclared(segs: seq<DataSeg>, before: seq<Run>, part: seq<Run>, i: nat)
    requires segs != [] && PositiveRuns(before) && TotalLen(before) == BlocksForAll(segs[..|segs| - 1])
             && i < |before + part|
    ensures DeclaredBlock(segs, TotalLen((before + part)[..i])) ==
            if i < |before| then DeclaredBlock(segs[..|segs| - 1], TotalLen(before[..i]))
            else segs[|segs| - 1].offset / BLOCK_SIZE + TotalLen(part[..i - |before|])
  {
    hide TotalLen, BlocksForAll;
    if i < |before| {
      assert (before + part)[..i] == before[..i];
      PrefixLen(before, i);
    } else {
      assert (before + part)[..i] == before + part[..i - |before|];
      TotalAppend(before, part[..i - |before|]);
    }
  }

  lemma AddressableInit(segs: seq<DataSeg>, before: seq<Run>, part: seq<Run>)
    requires segs != [] && PositiveRuns(before) && TotalLen(before) == BlocksForAll(segs[..|segs| - 1])
    requires Addressable(segs, before + part)
    ensures Addressable(segs[..|segs| - 1], before) && Below(segs[|segs| - 1].offset / BLOCK_SIZE, part)
  {
    hide TotalLen, BlocksForAll, DeclaredBlock;
    forall i | 0 <= i < |before| ensures DeclaredBlock(segs[..|segs| - 1], TotalLen(before[..i])) < 0x1_0000_0000 {
      RunDeclared(segs, before, part, i);
    }
    forall j | 0 <= j < |part| ensures segs[|segs| - 1].offset / BLOCK_SIZE + TotalLen(part[..j]) < 0x1_0000_0000 {
      RunDeclared(segs, before, part, |before| + j);
    }
  }

  /** The definitions over lists of stretches, one step from the end. */
  lemma PartsInit(segs: seq<DataSeg>, parts: seq<seq<Run>>)
    requires PartsOf(segs, parts)
    ensures segs == [] ==> Concat(parts) == [] && TotalLen([]) == 0 && BlocksForAll(segs) == 0 && Mapped([]) == []
    ensures segs != [] ==>
              var k := |segs| - 1;
              && PartsOf(segs[..k], parts[..k]) && |Flatten(parts[k])| == BlocksFor(segs[k].len)
              && BlocksForAll(segs) == BlocksForAll(segs[..k]) + BlocksFor(segs[k].len)
  {
    hide Numbered, Flatten, RunsCapped, BlocksFor;
  }

  /** A file's runs hold one block for each block that was declared. */
  lemma {:induction false} PartsTotal(segs: seq<DataSeg>, parts: seq<seq<Run>>)
    requires PartsOf(segs, parts)
    ensures TotalLen(Concat(parts)) == BlocksForAll(segs) && PositiveRuns(Concat(parts))
    decreases |segs|
  {
    PartsInit(segs, parts);
    NumberedInit(segs, parts);
    if segs != [] {
      var k := |segs| - 1;
      assert PositiveRuns(parts[k]);
      hide TotalLen, Flatten, BlocksFor, BlocksForAll, Concat, PartsOf, AllCapped, RunsCapped;
      FlattenTotal(parts[k]);
      PartsTotal(segs[..k], parts[..k]);
      TotalAppend(Concat(parts[..k]), parts[k]);
    }
  }

  lemma AlignedInit(segs: seq<DataSeg>)
    requires Aligned(segs) && segs != []
    ensures Aligned(segs[..|segs| - 1]) && segs[|segs| - 1].offset % BLOCK_SIZE == 0
    ensures BytesIn(segs[..|segs| - 1]) == BlocksForAll(segs[..|segs| - 1]) * BLOCK_SIZE
  {
    WholeSegs(segs[..|segs| - 1]);
  }

  /** Numbered by the file loop, the runs of addressable data show every stretch where it was declared. */
  lemma {:induction false} PlannedSeen(segs: seq<DataSeg>, parts: seq<seq<Run>>, content: seq<byte>, pos: nat)
    requires Aligned(segs) && PartsOf(segs, parts) && Addressable(segs, Concat(parts))
    ensures Follows(NumberedAll(segs, parts), Concat(parts))
    ensures Seen(Mapped(NumberedAll(segs, parts)), Concat(parts), content, pos) == RoundedByte(segs, content, pos)
    decreases |segs|
  {
    PartsInit(segs, parts);
    NumberedInit(segs, parts);
    NumberedFollows(segs, parts);
    if segs != [] {
      var k := |segs| - 1;
      var before, runs, part := NumberedAll(segs[..k], parts[..k]), Concat(parts[..k]), parts[k];
      hide Aligned, Addressable, Below, Seen, TotalLen, Flatten, BlocksFor, Numbered, Mapped, ByteIn, RunsCapped,
        NumberedAll, Concat, PartsOf, AllCapped, BlocksForAll, BytesIn, RoundedByte, DeclaredBlock;
      FlattenTotal(part);
      AlignedInit(segs);
      PartsTotal(segs[..k], parts[..k]);
      AddressableInit(segs, runs, part);
      PlannedSeen(segs[..k], parts[..k], content, pos);
      MappedAppend(before, Numbered(part, segs[k].offset / BLOCK_SIZE));
      WholeStretchSeen(Mapped(before), runs, part, segs[k], content, pos);
      RoundedStep(segs, content, pos);
    }
  }

  // ----- and which cannot -----

  /** Zeros, but for a one at `at`. */
  function Marked(size: nat, at: nat): seq<byte> {
    seq<byte>(size, k => if k == at then 1 else 0)
  }

  /** A declared block starts before its stretch ends. */
  lemma {:induction false} DeclaredBelow(segs: seq<DataSeg>, t: nat, x: nat)
    requires Aligned(segs) && t < BlocksForAll(segs)
    requires forall i :: 0 <= i < |segs| ==> segs[i].offset as int + segs[i].len as int <= x
    ensures DeclaredBlock(segs, t) * BLOCK_SIZE < x
    decreases |segs|
  {
    hide BlocksFor;
    var k := |segs| - 1;
    BlocksCover(segs[k].len);
    if t < BlocksForAll(segs[..k]) { DeclaredBelow(segs[..k], t, x); }
  }

  /** The first byte of data block `t` is declared at the start of its declared block. */
  lemma {:induction false} DeclaredAt(segs: seq<DataSeg>, content: seq<byte>, t: nat)
    requires Aligned(segs) && InOrder(segs) && t < BlocksForAll(segs)
    ensures t * BLOCK_SIZE < BytesIn(segs)
    ensures DeclaredByte(segs, content, DeclaredBlock(segs, t) * BLOCK_SIZE) == ByteIn(content, t * BLOCK_SIZE)
    decreases |segs|
  {
    hide BlocksFor, ByteIn;
    var k := |segs| - 1;
    BlocksCover(segs[k].len);
    AlignedInit(segs);
    if t < BlocksForAll(segs[..k]) {
      DeclaredBelow(segs[..k], t, segs[k].offset);
      DeclaredAt(segs[..k], content, t);
    }
  }

  lemma LogicalNext(segs: seq<DataSeg>, extents: seq<Extent.Extent>, before: seq<Run>, part: seq<Run>, i: nat)
    requires segs != [] && PositiveRuns(before) && TotalLen(before) == BlocksForAll(segs[..|segs| - 1])
    requires |extents| == |before| && RunsCapped(part, MAX_EXTENT) && i < |before + part|
    requires i < |before| ==>
               extents[i].logical as int
               == DeclaredBlock(segs[..|segs| - 1], TotalLen(before[..i])) % 0x1_0000_0000
    ensures (extents + Numbered(part, segs[|segs| - 1].offset / BLOCK_SIZE))[i].logical as int
            == DeclaredBlock(segs, TotalLen((before + part)[..i])) % 0x1_0000_0000
  {
    hide TotalLen, BlocksForAll, DeclaredBlock;
    RunDeclared(segs, before, part, i);
  }

  /** The number that the loop gives a run is its declared block, cut to 32 bits. */
  lemma {:induction false} NumberedLogical(segs: seq<DataSeg>, parts: seq<seq<Run>>, i: nat)
    requires PartsOf(segs, parts) && i < |Concat(parts)|
    ensures |NumberedAll(segs, parts)| == |Concat(parts)|
    ensures NumberedAll(segs, parts)[i].logical as int
            == DeclaredBlock(segs, TotalLen(Concat(parts)[..i])) % 0x1_0000_0000
    decreases |segs|
  {
    PartsInit(segs, parts);
    NumberedInit(segs, parts);
    NumberedFollows(segs, parts);
    hide NumberedAll, Numbered, Concat, PartsOf, AllCapped, RunsCapped, Flatten, BlocksForAll, BlocksFor, TotalLen,
      DeclaredBlock;
    var k := |segs| - 1;
    var extents, before := NumberedAll(segs[..k], parts[..k]), Concat(parts[..k]);
    PartsTotal(segs[..k], parts[..k]);
    NumberedFollows(segs[..k], parts[..k]);
    if i < |before| { NumberedLogical(segs[..k], parts[..k], i); }
    LogicalNext(segs, extents, before, parts[k], i);
  }

  /** Extent `i` shows nothing but zero at `pos`. */
  predicate Blank(extents: seq<ExtentWalk.FileExtent>, runs: seq<Run>, content: seq<byte>, pos: nat, i: nat)
    requires i < |extents| == |runs|
  {
    FileRead.Maps(extents[i], pos) ==>
      ByteIn(content, TotalLen(runs[..i]) * BLOCK_SIZE + (pos - FileRead.First(extents[i]))) == 0
  }

  lemma {:induction false} AllBlank(extents: seq<ExtentWalk.FileExtent>, runs: seq<Run>, content: seq<byte>, pos: nat)
    requires |extents| == |runs| && forall i :: 0 <= i < |extents| ==> Blank(extents, runs, content, pos, i)
    ensures Seen(extents, runs, content, pos) == 0
    decreases |extents|
  {
    if extents != [] {
      var k := |extents| - 1;
      assert Blank(extents, runs, content, pos, k);
      forall i | 0 <= i < k ensures Blank(extents[..k], runs[..k], content, pos, i) {
        assert runs[..k][..i] == runs[..i] && Blank(extents, runs, content, pos, i);
      }
      hide Blank, TotalLen, ByteIn;
      AllBlank(extents[..k], runs[..k], content, pos);
    }
  }

  lemma SharesApart(runs: seq<Run>, i: nat, j: nat)
    requires PositiveRuns(runs) && i < j < |runs|
    ensures TotalLen(runs[..i]) + runs[i].len <= TotalLen(runs[..j])
  {
    assert runs[..j][..i] == runs[..i];
    PrefixLen(runs[..j], i);
  }

  /** Where run `k` was declared past the last number, its first byte is not shown there by any extent. */
  lemma MarkBlank(extents: seq<ExtentWalk.FileExtent>, runs: seq<Run>, size: nat, d: nat, k: nat, i: nat)
    requires Backs(extents, runs) && PositiveRuns(runs) && k < |runs| && i < |runs|
    requires 0x1_0000_0000 <= d && extents[k].logical as int == d % 0x1_0000_0000
    ensures Blank(extents, runs, Marked(size, TotalLen(runs[..k]) * BLOCK_SIZE), d * BLOCK_SIZE, i)
  {
    hide TotalLen;
    if i < k { SharesApart(runs, i, k); }
    if k < i { SharesApart(runs, k, i); }
  }

  /**
    Data that is not addressable is misread whatever lies on the device: some content does not show where
    it was declared.
  */
  lemma Misread(segs: seq<DataSeg>, parts: seq<seq<Run>>) returns (content: seq<byte>, pos: nat)
    requires Aligned(segs) && InOrder(segs) && PartsOf(segs, parts) && !Addressable(segs, Concat(parts))
    requires Backs(Mapped(NumberedAll(segs, parts)), Concat(parts))
    ensures |content| == BytesIn(segs) && Seen(Mapped(NumberedAll(segs, parts)), Concat(parts), content, pos) == 0
    ensures DeclaredByte(segs, content, pos) == 1
  {
    var runs, extents := Concat(parts), Mapped(NumberedAll(segs, parts));
    var k: nat :| k < |runs| && 0x1_0000_0000 <= DeclaredBlock(segs, TotalLen(runs[..k]));
    PartsTotal(segs, parts);
    PrefixLen(runs, k);
    NumberedLogical(segs, parts, k);
    hide TotalLen, DeclaredBlock, NumberedAll, Concat, PartsOf, Aligned, InOrder, Addressable, BytesIn, BlocksForAll,
      Seen, DeclaredByte, Blank, Backs;
    var t, d := TotalLen(runs[..k]), DeclaredBlock(segs, TotalLen(runs[..k]));
    content, pos := Marked(BytesIn(segs), t * BLOCK_SIZE), d * BLOCK_SIZE;
    DeclaredAt(segs, content, t);
    forall i | 0 <= i < |extents| ensures Blank(extents, runs, content, pos, i) {
      MarkBlank(extents, runs, BytesIn(segs), d, k, i);
    }
    AllBlank(extents, runs, content, pos);
  }

  lemma {:induction false} DeclaredWithin(segs: seq<DataSeg>, t: nat, x: nat)
    requires t < BlocksForAll(segs)
    requires forall i :: 0 <= i < |segs| ==> segs[i].offset / BLOCK_SIZE + BlocksFor(segs[i].len) <= x
    ensures DeclaredBlock(segs, t) < x
    decreases |segs|
  {
    hide BlocksFor;
    var k := |segs| - 1;
    if t < BlocksForAll(segs[..k]) { DeclaredWithin(segs[..k], t, x); }
  }

  /**
    What a caller can see beforehand: data within 2^32 blocks is addressable, and no stretch of addressable
    data starts past them. In between, it depends on where the allocator splits the stretch.
  */
  lemma AddressableWithin(segs: seq<DataSeg>, parts: seq<seq<Run>>)
    requires Aligned(segs) && InOrder(segs) && PartsOf(segs, parts)
    ensures (forall i :: 0 <= i < |segs| ==> segs[i].offset / BLOCK_SIZE + BlocksFor(segs[i].len) <= 0x1_0000_0000)
            ==> Addressable(segs, Concat(parts))
    ensures Addressable(segs, Concat(parts)) ==> forall i ::
              0 <= i < |segs| ==> segs[i].offset / BLOCK_SIZE < 0x1_0000_0000
  {
    var runs := Concat(parts);
    PartsTotal(segs, parts);
    if forall i :: 0 <= i < |segs| ==> segs[i].offset / BLOCK_SIZE + BlocksFor(segs[i].len) <= 0x1_0000_0000 {
      hide BlocksFor, DeclaredBlock, TotalLen;
      forall i | 0 <= i < |runs| ensures DeclaredBlock(segs, TotalLen(runs[..i])) < 0x1_0000_0000 {
        PrefixLen(runs, i);
        DeclaredWithin(segs, TotalLen(runs[..i]), 0x1_0000_0000);
      }
    }
    if Addressable(segs, runs) && segs != [] { LastStarts(segs, parts); }
  }

  lemma LastStarts(segs: seq<DataSeg>, parts: seq<seq<Run>>)
    requires Aligned(segs) && PartsOf(segs, parts) && segs != [] && Addressable(segs, Concat(parts))
    ensures segs[|segs| - 1].offset / BLOCK_SIZE < 0x1_0000_0000
  {
    var k := |segs| - 1;
    PartsInit(segs, parts);
    NumberedInit(segs, parts);
    PartsTotal(segs[..k], parts[..k]);
    BlocksCover(segs[k].len);
    AddressableInit(segs, Concat(parts[..k]), parts[k]);
    hide DeclaredBlock, Addressable, Concat, BlocksForAll;
    assert parts[k] != [];
    assert parts[k][..0] == [];
  }

  // ----- the whole way -----

  /** The layout has the plan's blocks among its segments. */
  predicate Carries(l: Layout, segments: seq<ExtentBuild.Segment>) {
    forall i :: 0 <= i < |segments| ==> Writer.Segment(segments[i].block, 1, Whole(segments[i].bytes)) in l.segments
  }

  lemma SealedSegment(l: Layout, i: nat)
    requires Sealed(l) && SegmentsOnDevice(l) && i < |l.segments|
    ensures AllSound(l.segments) && Sound(l.segments[i]) && l.segments[i].End() <= l.totalBlocks
  {
  }

  lemma InBlocks(block: nat, len: nat, j: nat)
    requires j < len * BLOCK_SIZE
    ensures block <= (block * BLOCK_SIZE + j) / BLOCK_SIZE < block + len
  {
  }

  /** The segment holds `w` from its byte `from` on. */
  predicate SegmentHas(g: Writer.Segment, from: nat, w: seq<byte>) {
    Sound(g) && from + |w| <= |SegmentBytes(g)| && SegmentBytes(g)[from..from + |w|] == w
  }

  lemma StretchByte(l: Layout, contents: seq<seq<byte>>, i: nat, from: nat, w: seq<byte>, j: nat)
    requires Sealed(l) && |contents| == |l.files| && i < |l.segments| && SegmentHas(l.segments[i], from, w) && j < |w|
    ensures AllSound(l.segments)
    ensures ImageByte(l, contents, l.segments[i].block * BLOCK_SIZE + from + j) == w[j]
  {
    var g := l.segments[i];
    SegmentLength(g);
    hide Sealed, ImageByte, SegmentBytes, AllSound, Sound;
    InBlocks(g.block, g.len, from + j);
    ImageOfSegment(l, contents, i, g.block * BLOCK_SIZE + from + j);
    SliceAt(SegmentBytes(g), from, |w|, j);
  }

  lemma StretchWithin(g: Writer.Segment, from: nat, w: seq<byte>)
    requires SegmentHas(g, from, w)
    ensures from + |w| <= g.len * BLOCK_SIZE
  {
    SegmentLength(g);
  }

  /** Any stretch of a segment is on the image. */
  lemma StretchOnImage(fs: ExtentWalk.Fs, l: Layout, contents: seq<seq<byte>>, i: nat, from: nat, w: seq<byte>)
    requires IsImage(fs, l, contents) && SegmentsOnDevice(l) && i < |l.segments| && SegmentHas(l.segments[i], from, w)
    ensures var at := l.segments[i].block * BLOCK_SIZE + from; at + |w| <= |fs.disk| && fs.disk[at..at + |w|] == w
  {
    SealedSegment(l, i);
    var g := l.segments[i];
    StretchWithin(g, from, w);
    hide Sealed, SegmentsOnDevice, ImageByte, SegmentHas, AllSound, Sound;
    var at := g.block * BLOCK_SIZE + from;
    forall x | at <= x < at + |w| ensures fs.disk[x] == w[x - at] { StretchByte(l, contents, i, from, w, x - at); }
    SliceIs(fs.disk, at, w);
  }

  lemma SliceAt<T>(s: seq<T>, from: nat, n: nat, j: nat)
    requires from + n <= |s| && j < n
    ensures s[from..from + n][j] == s[from + j]
  {
  }

  lemma SegmentReads(fs: ExtentWalk.Fs, l: Layout, contents: seq<seq<byte>>, b: u64, bytes: seq<byte>)
    requires IsImage(fs, l, contents) && SegmentsOnDevice(l)
    requires Writer.Segment(b, 1, Whole(bytes)) in l.segments
    ensures ExtentWalk.ReadBlock(fs, b) == Ok(bytes)
  {
    var i :| 0 <= i < |l.segments| && l.segments[i] == Writer.Segment(b, 1, Whole(bytes));
    SealedSegment(l, i);
    assert bytes[0..|bytes|] == bytes;
    assert SegmentHas(l.segments[i], 0, bytes);
    hide IsImage, SegmentsOnDevice, SegmentHas;
    StretchOnImage(fs, l, contents, i, 0, bytes);
  }

  lemma SliceIs(s: seq<byte>, at: nat, w: seq<byte>)
    requires at + |w| <= |s| && forall x :: at <= x < at + |w| ==> s[x] == w[x - at]
    ensures s[at..at + |w|] == w
  {
  }

  lemma PlanOnImage(fs: ExtentWalk.Fs, l: Layout, contents: seq<seq<byte>>, segments: seq<ExtentBuild.Segment>)
    requires IsImage(fs, l, contents) && SegmentsOnDevice(l) && Carries(l, segments)
    ensures ExtentBuild.OnDisk(fs, segments)
  {
    hide Sealed, SegmentsOnDevice;
    forall i | 0 <= i < |segments| ensures ExtentWalk.ReadBlock(fs, segments[i].block) == Ok(segments[i].bytes) {
      SegmentReads(fs, l, contents, segments[i].block, segments[i].bytes);
    }
  }

  /** The extents of a placed file map its runs and can all be planned. */
  lemma PlacedBacks(segs: seq<DataSeg>, parts: seq<seq<Run>>, runs: seq<Run>, totalBlocks: nat)
    requires PartsOf(segs, parts) && runs == Concat(parts) && RunsCapped(runs, MAX_EXTENT)
    requires totalBlocks < 0x1_0000_0000 && forall i :: 0 <= i < |runs| ==> runs[i].End() <= totalBlocks
    ensures Backs(Mapped(NumberedAll(segs, parts)), runs) && ExtentBuild.Plannable(NumberedAll(segs, parts))
  {
    hide NumberedAll, Concat;
    NumberedFollows(segs, parts);
    var extents := NumberedAll(segs, parts);
    forall i | 0 <= i < |runs| ensures extents[i].start < Extent.U48 { assert runs[i].End() <= totalBlocks; }
  }

  lemma MappedIsRuns(extents: seq<Extent.Extent>)
    ensures ExtentTree.RunsIn(ExtentTree.Leaf(extents)) == Mapped(extents)
  {
  }

  /** Reading through the extents shows at every position what was declared there, and zeros elsewhere. */
  ghost predicate Shows(fs: ExtentWalk.Fs, extents: seq<ExtentWalk.FileExtent>, segs: seq<DataSeg>,
                        content: seq<byte>) {
    forall pos: nat :: FileRead.FileByte(fs, extents, pos) == DeclaredByte(segs, content, pos)
  }

  /** The extents that the reader's walk finds under the root of a plan. */
  function Walked(fs: ExtentWalk.Fs, d: Declared, q: FilePlan): ExtentWalk.Walk {
    ExtentWalk.WalkNode(fs, ExtentWalk.Owner(d.ino, 0), q.plan.root, None)
  }

  /**
    A placed and filled file, read from the finished image: the walk of its root passes and returns one
    extent per run, and through those every read succeeds and shows the runs' content.
  */
  lemma FileIsWalked(fs: ExtentWalk.Fs, l: Layout, contents: seq<seq<byte>>, s: nat, d: Declared, q: FilePlan,
                     size: nat, offset: nat, n: nat, parts: seq<seq<Run>>, leafBlocks: seq<u64>, indexBlocks: seq<u64>)
    requires Holds(fs, l, contents, s) && SegmentsOnDevice(l) && l.totalBlocks < 0x1_0000_0000
    requires Arranged(d, l.files[s], q, fs.fsSeed, parts, leafBlocks, indexBlocks) && Carries(l, q.plan.segments)
    ensures q.extents == NumberedAll(d.segs, parts) && Backs(Mapped(q.extents), l.files[s].runs)
    ensures Walked(fs, d, q).status == Pass && Walked(fs, d, q).out == Mapped(q.extents)
    ensures FileRead.Readable(fs, Mapped(q.extents), size, offset, n)
    ensures forall pos: nat ::
              FileRead.FileByte(fs, Mapped(q.extents), pos)
                == Seen(Mapped(q.extents), l.files[s].runs, contents[s], pos)
  {
    if l.files[s].runs != [] { SealedFile(l, s); }
    hide Sealed, ImageOf, ExtentWalk.WalkNode, ExtentBuild.OnDisk, FileRead.Readable, Carries, SegmentsOnDevice,
      ExtentBuild.IsPlan, ExtentBuild.Shallow, ExtentBuild.Plannable, FileRead.FileByte, Seen, Mapped, NumberedAll,
      Concat, PartsOf, BytesIn, ExtentTree.RunsIn, FitsRuns;
    PlacedBacks(d.segs, parts, l.files[s].runs, l.totalBlocks);
    PlanOnImage(fs, l, contents, q.plan.segments);
    ExtentBuild.PlanIsWalked(fs, d.ino, q.plan, q.extents, leafBlocks, indexBlocks);
    MappedIsRuns(q.extents);
    FilledFileIsReadable(fs, l, contents, s, Mapped(q.extents), size, offset, n);
    forall pos: nat
      ensures FileRead.FileByte(fs, Mapped(q.extents), pos)
              == Seen(Mapped(q.extents), l.files[s].runs, contents[s], pos)
    {
      FilledFileIsSeen(fs, l, contents, s, Mapped(q.extents), pos);
    }
  }

  /**
    The walk passes and every read succeeds; and where the data is addressable, reading shows what was
    declared, holes as zeros.
  */
  lemma FileComesBack(fs: ExtentWalk.Fs, l: Layout, contents: seq<seq<byte>>, s: nat, d: Declared, q: FilePlan,
                      size: nat, offset: nat, n: nat)
    requires Holds(fs, l, contents, s) && SegmentsOnDevice(l) && l.totalBlocks < 0x1_0000_0000
    requires |contents[s]| == l.files[s].size && Aligned(d.segs) && InOrder(d.segs)
    requires PlacedAs(d, l.files[s], q, fs.fsSeed) && Carries(l, q.plan.segments)
    ensures Walked(fs, d, q).status == Pass && FileRead.Readable(fs, Walked(fs, d, q).out, size, offset, n)
    ensures Addressable(d.segs, l.files[s].runs) ==> Shows(fs, Walked(fs, d, q).out, d.segs, contents[s])
  {
    var parts: seq<seq<Run>>, leafBlocks: seq<u64>, indexBlocks: seq<u64> :|
      Arranged(d, l.files[s], q, fs.fsSeed, parts, leafBlocks, indexBlocks);
    hide Holds, Walked, Carries, SegmentsOnDevice, FileRead.Readable, FileRead.FileByte, DeclaredByte, RoundedByte,
      Seen, Aligned, InOrder, Addressable, Mapped, NumberedAll, Concat, PartsOf, BytesIn, ExtentBuild.IsPlan,
      ExtentBuild.Shallow;
    FileIsWalked(fs, l, contents, s, d, q, size, offset, n, parts, leafBlocks, indexBlocks);
    if Addressable(d.segs, l.files[s].runs) {
      forall pos: nat ensures FileRead.FileByte(fs, Mapped(q.extents), pos) == DeclaredByte(d.segs, contents[s], pos) {
        PlannedSeen(d.segs, parts, contents[s], pos);
        RoundedIsDeclared(d.segs, contents[s], pos);
      }
    }
  }

  /** On every image of the layout, the slot shows the content that it was filled with where it was declared. */
  ghost predicate AlwaysShows(l: Layout, s: nat, d: Declared, q: FilePlan, fsSeed: bv32) {
    forall fs: ExtentWalk.Fs, contents: seq<seq<byte>> ::
      Holds(fs, l, contents, s) && fs.fsSeed == fsSeed && |contents[s]| == l.files[s].size
      ==> Shows(fs, Walked(fs, d, q).out, d.segs, contents[s])
  }

  /** A placed file reads back whatever its content is if and only if its data is addressable. */
  lemma ComesBackExactly(l: Layout, s: nat, d: Declared, q: FilePlan, fsSeed: bv32)
    requires Sealed(l) && SegmentsOnDevice(l) && l.totalBlocks < 0x1_0000_0000 && s < |l.files|
    requires Aligned(d.segs) && InOrder(d.segs) && PlacedAs(d, l.files[s], q, fsSeed) && Carries(l, q.plan.segments)
    ensures AlwaysShows(l, s, d, q, fsSeed) <==> Addressable(d.segs, l.files[s].runs)
  {
    if Addressable(d.segs, l.files[s].runs) {
      forall fs: ExtentWalk.Fs, contents: seq<seq<byte>> |
        Holds(fs, l, contents, s) && fs.fsSeed == fsSeed && |contents[s]| == l.files[s].size
        ensures Shows(fs, Walked(fs, d, q).out, d.segs, contents[s])
      {
        hide Holds, Sealed, SegmentsOnDevice, Walked, Shows, Carries, PlacedAs, Addressable, Aligned, InOrder;
        FileComesBack(fs, l, contents, s, d, q, 0, 0, 0);
      }
    } else {
      var fs, contents := MisreadImage(l, s, d, q, fsSeed);
      hide Sealed, SegmentsOnDevice, Walked, Shows, Carries, PlacedAs, Addressable, Aligned, InOrder;
      assert Holds(fs, l, contents, s) && !Shows(fs, Walked(fs, d, q).out, d.segs, contents[s]);
    }
  }

  /** The image on which the data that is not addressable does not show. */
  lemma MisreadImage(l: Layout, s: nat, d: Declared, q: FilePlan, fsSeed: bv32)
    returns (fs: ExtentWalk.Fs, contents: seq<seq<byte>>)
    requires Sealed(l) && SegmentsOnDevice(l) && l.totalBlocks < 0x1_0000_0000 && s < |l.files|
    requires Aligned(d.segs) && InOrder(d.segs) && PlacedAs(d, l.files[s], q, fsSeed) && Carries(l, q.plan.segments)
    requires !Addressable(d.segs, l.files[s].runs)
    ensures Holds(fs, l, contents, s) && fs.fsSeed == fsSeed && |contents[s]| == l.files[s].size
    ensures !Shows(fs, Walked(fs, d, q).out, d.segs, contents[s])
  {
    if l.files[s].runs != [] { SealedFile(l, s); }
    var parts: seq<seq<Run>>, leafBlocks: seq<u64>, indexBlocks: seq<u64> :|
      Arranged(d, l.files[s], q, fsSeed, parts, leafBlocks, indexBlocks);
    hide Sealed, Walked, Carries, SegmentsOnDevice, FileRead.Readable, FileRead.FileByte, DeclaredByte, Seen, Aligned,
      InOrder, Addressable, Mapped, NumberedAll, Concat, PartsOf, BytesIn, ExtentBuild.IsPlan, ExtentBuild.Shallow,
      ImageByte;
    PlacedBacks(d.segs, parts, l.files[s].runs, l.totalBlocks);
    var content, pos := Misread(d.segs, parts);
    contents := seq(|l.files|, i => content);
    fs := ExtentWalk.Fs(ImageOf(l, contents), true, fsSeed);
    FileIsWalked(fs, l, contents, s, d, q, 0, 0, 0, parts, leafBlocks, indexBlocks);
  }

  /** A file without holes: any range of it reads as that range of the content. */
  lemma RegularFileComesBack(fs: ExtentWalk.Fs, l: Layout, contents: seq<seq<byte>>, s: nat, d: Declared, q: FilePlan,
                             offset: nat, n: nat)
    requires Holds(fs, l, contents, s) && Fillable(l.files[s]) && SegmentsOnDevice(l) && l.totalBlocks < 0x1_0000_0000
    requires |contents[s]| == l.files[s].size && d.segs == [DataSeg(0, |contents[s]|)] && offset + n <= |contents[s]|
    requires PlacedAs(d, l.files[s], q, fs.fsSeed) && Carries(l, q.plan.segments)
    ensures Walked(fs, d, q).status == Pass && FileRead.Readable(fs, Walked(fs, d, q).out, l.files[s].size, offset, n)
    ensures FileRead.Window(fs, Walked(fs, d, q).out, l.files[s].size, offset, n) == contents[s][offset..offset + n]
  {
    var content := contents[s];
    SealedFile(l, s);
    OneStretch(d.segs, content, l.files[s], l.totalBlocks);
    hide Sealed, ImageOf, Walked, PlacedAs, FileRead.Readable, Carries, SegmentsOnDevice, FileRead.FileByte,
      FileRead.Window, DeclaredByte, Addressable;
    FileComesBack(fs, l, contents, s, d, q, |content|, offset, n);
    WindowOfContent(fs, Walked(fs, d, q).out, content, offset, n);
  }

  lemma OneStretch(segs: seq<DataSeg>, content: seq<byte>, f: File, totalBlocks: nat)
    requires Placeable(f, totalBlocks) && f.runs != [] && |content| == f.size && totalBlocks < 0x1_0000_0000
    requires segs == [DataSeg(0, |content|)]
    ensures Aligned(segs) && InOrder(segs) && Addressable(segs, f.runs)
    ensures forall pos: nat :: pos < |content| ==> DeclaredByte(segs, content, pos) == content[pos]
  {
    RunsFit(f.runs, totalBlocks);
    SomethingPlaced(f, totalBlocks);
    assert segs[..0] == [];
    hide Placeable, TotalLen;
    FromStartAddressable(segs, f.runs);
  }

  lemma FromStartAddressable(segs: seq<DataSeg>, runs: seq<Run>)
    requires |segs| == 1 && segs[0].offset == 0 && TotalLen(runs) < 0x1_0000_0000
    ensures Addressable(segs, runs)
  {
    forall i | 0 <= i < |runs| ensures DeclaredBlock(segs, TotalLen(runs[..i])) < 0x1_0000_0000 {
      PrefixLen(runs, i);
      hide TotalLen;
    }
  }

  lemma SomethingPlaced(f: File, totalBlocks: nat)
    requires Placeable(f, totalBlocks) && f.runs != []
    ensures 0 < f.size <= TotalLen(f.runs) * BLOCK_SIZE
  {
    NextDone(f.runs, |f.runs| - 1);
    assert f.runs[..|f.runs|] == f.runs;
  }

  /** Runs in order on a device of `n` blocks hold at most `n` of them. */
  lemma {:induction false} RunsFit(runs: seq<Run>, n: nat)
    requires DisjointRuns(runs) && forall i :: 0 <= i < |runs| ==> runs[i].End() <= n
    ensures TotalLen(runs) <= n
    decreases |runs|
  {
    if runs != [] {
      var k := |runs| - 1;
      RunsFit(runs[..k], runs[k].start);
    }
  }

  lemma WindowOfContent(fs: ExtentWalk.Fs, extents: seq<ExtentWalk.FileExtent>, content: seq<byte>, offset: nat, n: nat)
    requires offset + n <= |content|
             && forall pos: nat :: pos < |content| ==> FileRead.FileByte(fs, extents, pos) == content[pos]
    ensures FileRead.Window(fs, extents, |content|, offset, n) == content[offset..offset + n]
  {
  }

  /**
    The format has no room beyond 2^32 blocks, and nothing refuses data there. One block declared at 2^44
    bytes is found at the start of the file, and nothing where it was declared.
  */
  lemma FarStretchWraps(fs: ExtentWalk.Fs, l: Layout, contents: seq<seq<byte>>, s: nat, d: Declared, q: FilePlan)
    requires Holds(fs, l, contents, s) && SegmentsOnDevice(l) && l.totalBlocks < 0x1_0000_0000
    requires d.segs == [DataSeg(0x1000_0000_0000, BLOCK_SIZE)] && |contents[s]| == l.files[s].size == BLOCK_SIZE
    requires PlacedAs(d, l.files[s], q, fs.fsSeed) && Carries(l, q.plan.segments)
    ensures Aligned(d.segs) && InOrder(d.segs) && !Addressable(d.segs, l.files[s].runs)
    ensures var out := Walked(fs, d, q).out;
            && FileRead.FileByte(fs, out, 0) == contents[s][0] && DeclaredByte(d.segs, contents[s], 0) == 0
            && FileRead.FileByte(fs, out, 0x1000_0000_0000) == 0
            && DeclaredByte(d.segs, contents[s], 0x1000_0000_0000) == contents[s][0]
  {
    var f, content := l.files[s], contents[s];
    var parts: seq<seq<Run>>, leafBlocks: seq<u64>, indexBlocks: seq<u64> :|
      Arranged(d, l.files[s], q, fs.fsSeed, parts, leafBlocks, indexBlocks);
    hide Holds, PlacedAs, Walked, Carries, SegmentsOnDevice, FileRead.Readable, FileRead.FileByte, Seen, DeclaredByte,
      Addressable, Aligned, InOrder, Mapped, NumberedAll, Concat, PartsOf, BytesIn, ExtentBuild.IsPlan,
      ExtentBuild.Shallow;
    FileIsWalked(fs, l, contents, s, d, q, 0, 0, 0, parts, leafBlocks, indexBlocks);
    FarShown(d.segs, parts, content);
    assert FileRead.FileByte(fs, Mapped(q.extents), 0) == Seen(Mapped(q.extents), f.runs, content, 0);
  }

  lemma FarShown(segs: seq<DataSeg>, parts: seq<seq<Run>>, content: seq<byte>)
    requires segs == [DataSeg(0x1000_0000_0000, BLOCK_SIZE)] && PartsOf(segs, parts) && |content| == BLOCK_SIZE
    ensures Aligned(segs) && InOrder(segs) && !Addressable(segs, Concat(parts))
    ensures var extents, runs := Mapped(NumberedAll(segs, parts)), Concat(parts);
            && |extents| == |runs|
            && Seen(extents, runs, content, 0) == content[0] && DeclaredByte(segs, content, 0) == 0
            && Seen(extents, runs, content, 0x1000_0000_0000) == 0
            && DeclaredByte(segs, content, 0x1000_0000_0000) == content[0]
  {
    FarDeclared(segs, content);
    FarNumber(segs, parts);
    var run := Concat(parts)[0];
    FarSeen(run, content);
    hide NumberedAll, Concat, PartsOf, DeclaredByte, DeclaredBlock, Aligned, InOrder, Seen, Addressable;
    assert Mapped(NumberedAll(segs, parts)) == [ExtentWalk.FileExtent(0, run.start, 1, false)];
    assert Concat(parts) == [run];
  }

  lemma FarNumber(segs: seq<DataSeg>, parts: seq<seq<Run>>)
    requires segs == [DataSeg(0x1000_0000_0000, BLOCK_SIZE)] && PartsOf(segs, parts)
    ensures |Concat(parts)| == 1 && Concat(parts)[0].len == 1
    ensures NumberedAll(segs, parts) == [Extent.Extent(0, 1, Concat(parts)[0].start)]
    ensures !Addressable(segs, Concat(parts))
  {
    var part := parts[0];
    FlattenLength(part, MAX_EXTENT);
    NumberedInit(segs, parts);
    NumberedInit(segs[..0], parts[..0]);
    NoneIn();
    assert part[..0] == [] && Concat(parts) == part && segs[..0] == [];
  }

  lemma FarSeen(run: Run, content: seq<byte>)
    requires |content| == BLOCK_SIZE
    ensures Seen([ExtentWalk.FileExtent(0, run.start, 1, false)], [run], content, 0) == content[0]
    ensures Seen([ExtentWalk.FileExtent(0, run.start, 1, false)], [run], content, 0x1000_0000_0000) == 0
  {
    assert [run][..0] == [];
  }

  lemma FarDeclared(segs: seq<DataSeg>, content: seq<byte>)
    requires segs == [DataSeg(0x1000_0000_0000, BLOCK_SIZE)] && |content| == BLOCK_SIZE
    ensures Aligned(segs) && InOrder(segs) && DeclaredByte(segs, content, 0) == 0
    ensures DeclaredByte(segs, content, 0x1000_0000_0000) == content[0]
  {
    assert segs[..0] == [];
  }
}
