/**
  Placing file data when a layout is sealed (the file loop of `seal` in `src/build/seal.rs`): each
  declared stretch of data takes the next free blocks, then the file's extent tree takes the next.
*/
module FilePlacement {
  import opened Bytes
  import opened Allocator
  import opened Writer
  import Extent
  import ExtentBuild
  import ExtentTree
  import Csum

  /** No run is longer than one extent can say. */
  const MAX_EXTENT: nat := 32768

  /** A stretch of data at a byte offset of its file. */
  datatype DataSeg = DataSeg(offset: u64, len: u64)

  /** A slot: the inode number of its file and the file's data; zero when it was dropped or holds no file. */
  datatype Declared = Declared(ino: u32, segs: seq<DataSeg>)

  function BlocksFor(len: u64): u64 {
    (len as int + (BLOCK_SIZE - 1)) / BLOCK_SIZE
  }

  function BlocksForAll(segs: seq<DataSeg>): nat {
    if segs == [] then 0 else BlocksForAll(segs[..|segs| - 1]) + BlocksFor(segs[|segs| - 1].len)
  }

  function BytesIn(segs: seq<DataSeg>): nat {
    if segs == [] then 0 else BytesIn(segs[..|segs| - 1]) + segs[|segs| - 1].len
  }

  /**
    What declaring a file checks: data stretches are not empty, start on block boundaries, and only the
    last ends off one.
  */
  predicate Aligned(segs: seq<DataSeg>) {
    forall i :: 0 <= i < |segs|
      ==> 0 < segs[i].len && segs[i].offset % BLOCK_SIZE == 0 && (i + 1 < |segs| ==> segs[i].len % BLOCK_SIZE == 0)
  }

  /** And what it builds: the stretches ascend. */
  predicate InOrder(segs: seq<DataSeg>) {
    forall i, j :: 0 <= i < j < |segs| ==> segs[i].offset as int + segs[i].len as int <= segs[j].offset
  }

  // ----- one file -----

  /** Runs under consecutive logical numbers; the 32-bit counter wraps. */
  function Numbered(runs: seq<Run>, logical: nat): (r: seq<Extent.Extent>)
    requires RunsCapped(runs, MAX_EXTENT)
    ensures |r| == |runs|
  {
    seq(|runs|, i requires 0 <= i < |runs| =>
      Extent.Extent((logical + TotalLen(runs[..i])) % 0x1_0000_0000, runs[i].len, runs[i].start))
  }

  predicate AllCapped(parts: seq<seq<Run>>) {
    forall i :: 0 <= i < |parts| ==> RunsCapped(parts[i], MAX_EXTENT)
  }

  function Concat<T>(parts: seq<seq<T>>): seq<T> {
    if parts == [] then [] else Concat(parts[..|parts| - 1]) + parts[|parts| - 1]
  }

  /** The runs of each stretch, numbered from where the stretch starts. */
  function NumberedAll(segs: seq<DataSeg>, parts: seq<seq<Run>>): seq<Extent.Extent>
    requires |segs| == |parts| && AllCapped(parts)
  {
    if segs == [] then []
    else
      var k := |segs| - 1;
      NumberedAll(segs[..k], parts[..k]) + Numbered(parts[k], segs[k].offset / BLOCK_SIZE)
  }

  lemma {:induction false} FlattenAppend(a: seq<Run>, b: seq<Run>)
    ensures Flatten(a + b) == Flatten(a) + Flatten(b)
    decreases |b|
  {
    if b == [] {
      assert a + b == a;
    } else {
      var k := |b| - 1;
      assert (a + b)[..|a + b| - 1] == a + b[..k];
      FlattenAppend(a, b[..k]);
      AppendAssociates(Flatten(a), Flatten(b[..k]), Blocks(b[k].start, b[k].len));
    }
  }

  lemma NoneIn()
    ensures TotalLen([]) == 0
  {
  }

  method NumberRuns(runs: seq<Run>, logical: u32) returns (r: seq<Extent.Extent>)
    requires RunsCapped(runs, MAX_EXTENT)
    ensures r == Numbered(runs, logical)
  {
    r := [];
    var next: u32 := logical;
    assert runs[..0] == [];
    hide TotalLen;
    assert TotalLen(runs[..0]) == 0 by { NoneIn(); }
    for i := 0 to |runs|
      invariant next == (logical as int + TotalLen(runs[..i])) % 0x1_0000_0000
      invariant |r| == i && forall j :: 0 <= j < i ==> r[j] == Numbered(runs, logical)[j]
    {
      r := r + [Extent.Extent(next, runs[i].len, runs[i].start)];
      NextDone(runs, i);
      WrapsOnce(logical + TotalLen(runs[..i]), runs[i].len);
      next := (next + runs[i].len) % 0x1_0000_0000;
    }
  }

  lemma WrapsOnce(x: nat, y: nat)
    ensures (x % 0x1_0000_0000 + y) % 0x1_0000_0000 == (x + y) % 0x1_0000_0000
  {
  }

  /** How the parts of a file's data were placed. */
  ghost predicate PartsOf(segs: seq<DataSeg>, parts: seq<seq<Run>>) {
    && |parts| == |segs| && AllCapped(parts)
    && forall i :: 0 <= i < |segs| ==> |Flatten(parts[i])| == BlocksFor(segs[i].len)
  }

  /** Cutting the first number to 32 bits changes none of them. */
  lemma WrapNumber(logical: nat, runs: seq<Run>)
    requires RunsCapped(runs, MAX_EXTENT)
    ensures Numbered(runs, logical % 0x1_0000_0000) == Numbered(runs, logical)
  {
    hide TotalLen;
    forall i | 0 <= i < |runs| ensures Numbered(runs, logical % 0x1_0000_0000)[i] == Numbered(runs, logical)[i] {
      WrapsOnce(logical, TotalLen(runs[..i]));
    }
  }

  lemma CappedAppend(a: seq<Run>, b: seq<Run>)
    requires RunsCapped(a, MAX_EXTENT) && RunsCapped(b, MAX_EXTENT)
    ensures RunsCapped(a + b, MAX_EXTENT)
  {
  }

  lemma PartsNext(segs: seq<DataSeg>, parts: seq<seq<Run>>, i: nat, p: seq<Run>)
    requires i < |segs| && PartsOf(segs[..i], parts) && RunsCapped(p, MAX_EXTENT)
             && |Flatten(p)| == BlocksFor(segs[i].len)
    ensures PartsOf(segs[..i + 1], parts + [p])
    ensures NumberedAll(segs[..i + 1], parts + [p])
            == NumberedAll(segs[..i], parts) + Numbered(p, segs[i].offset / BLOCK_SIZE)
    ensures Concat(parts + [p]) == Concat(parts) + p
    ensures BlocksForAll(segs[..i + 1]) == BlocksForAll(segs[..i]) + BlocksFor(segs[i].len)
            && BytesIn(segs[..i + 1]) == BytesIn(segs[..i]) + segs[i].len
  {
    hide Numbered, BlocksFor, RunsCapped, Flatten;
    assert segs[..i + 1][..i] == segs[..i] && segs[..i + 1][i] == segs[i];
    assert (parts + [p])[..i] == parts;
  }

  lemma {:induction false} NeededGrows(segs: seq<DataSeg>, i: nat)
    requires i <= |segs|
    ensures BlocksForAll(segs[..i]) <= BlocksForAll(segs)
            && (i < |segs| ==> BlocksForAll(segs[..i]) + BlocksFor(segs[i].len) <= BlocksForAll(segs))
    decreases |segs|
  {
    if i == |segs| {
      assert segs[..i] == segs;
    } else if i < |segs| - 1 {
      var k := |segs| - 1;
      assert segs[..k][..i] == segs[..i] && segs[..k][i] == segs[i];
      NeededGrows(segs[..k], i);
    }
  }

  // ----- how many extents it takes -----

  /** Into how many runs of at most `cap` blocks these fall when taken in order, and how long the last one is. */
  function Pieces(blocks: seq<nat>, cap: nat): (nat, nat) {
    if blocks == [] then (0, 0)
    else
      var k := |blocks| - 1;
      var (n, last) := Pieces(blocks[..k], cap);
      if 0 < k && blocks[k] == blocks[k - 1] + 1 && last < cap then (n, last + 1) else (n + 1, 1)
  }

  lemma PiecesNext(blocks: seq<nat>, b: nat, cap: nat)
    ensures var (n, last) := Pieces(blocks, cap);
            Pieces(blocks + [b], cap) ==
              if blocks != [] && b == blocks[|blocks| - 1] + 1 && last < cap then (n, last + 1) else (n + 1, 1)
  {
    assert (blocks + [b])[..|blocks|] == blocks;
  }

  function LastLen(runs: seq<Run>): nat {
    if runs == [] then 0 else runs[|runs| - 1].len
  }

  /** The runs `init` and `r` without their last block. */
  function Shortened(init: seq<Run>, r: Run): seq<Run>
    requires 1 <= r.len
  {
    if r.len == 1 then init else init + [Run(r.start, r.len - 1)]
  }

  lemma ShortenedKeeps(init: seq<Run>, r: Run, cap: nat)
    requires RunsCapped(init + [r], cap) && SplitsJustified(init + [r], cap)
    ensures 1 <= r.len <= cap && RunsCapped(Shortened(init, r), cap) && SplitsJustified(Shortened(init, r), cap)
    ensures init != [] ==>
              1 <= LastLen(init) && (LastLen(init) == cap || init[|init| - 1].End() < r.start)
  {
    assert (init + [r])[|init|] == r;
    assert forall i :: 0 <= i < |init| ==> (init + [r])[i] == init[i];
  }

  lemma ShortenedFlat(init: seq<Run>, r: Run)
    requires 1 <= r.len
    ensures Flatten(init + [r]) == Flatten(Shortened(init, r)) + [r.End() - 1]
  {
    hide Flatten, Blocks;
    var last: seq<nat> := [r.End() - 1];
    FlattenSnoc(init, r);
    BlocksShortened(r);
    if r.len != 1 {
      FlattenSnoc(init, Run(r.start, r.len - 1));
      AppendAssociates(Flatten(init), Blocks(r.start, r.len - 1), last);
    }
  }

  lemma BlocksShortened(r: Run)
    requires 1 <= r.len
    ensures Blocks(r.start, r.len) == Blocks(r.start, r.len - 1) + [r.End() - 1]
    ensures r.len == 1 ==> Blocks(r.start, r.len) == [r.End() - 1]
  {
  }

  lemma LastBlock(runs: seq<Run>)
    requires runs != [] && 1 <= runs[|runs| - 1].len
    ensures Flatten(runs) != [] && Flatten(runs)[|Flatten(runs)| - 1] == runs[|runs| - 1].End() - 1
  {
  }

  /** A new run starts only after a full one or a gap. */
  lemma PiecesFresh(init: seq<Run>, r: Run, cap: nat)
    requires r.len == 1 && (init != [] ==> 1 <= LastLen(init))
    requires init != [] ==> LastLen(init) == cap || init[|init| - 1].End() < r.start
    requires Pieces(Flatten(init), cap) == (|init|, LastLen(init))
    ensures Pieces(Flatten(init + [r]), cap) == (|init| + 1, 1)
  {
    ShortenedFlat(init, r);
    NoPieces();
    if init != [] { LastBlock(init); }
    hide Flatten, Pieces;
    PiecesNext(Flatten(init), r.End() - 1, cap);
  }

  /** And a run goes on while it may. */
  lemma PiecesLonger(init: seq<Run>, r: Run, cap: nat)
    requires 1 < r.len <= cap
    requires Pieces(Flatten(init + [Run(r.start, r.len - 1)]), cap) == (|init| + 1, r.len - 1)
    ensures Pieces(Flatten(init + [r]), cap) == (|init| + 1, r.len)
  {
    var fewer := init + [Run(r.start, r.len - 1)];
    ShortenedFlat(init, r);
    LastBlock(fewer);
    hide Flatten, Pieces;
    PiecesNext(Flatten(fewer), r.End() - 1, cap);
  }

  lemma {:induction false} PiecesLast(init: seq<Run>, r: Run, cap: nat)
    requires RunsCapped(init + [r], cap) && SplitsJustified(init + [r], cap)
    ensures Pieces(Flatten(init + [r]), cap) == (|init| + 1, r.len)
    decreases |init|, r.len
  {
    ShortenedKeeps(init, r, cap);
    hide Flatten, Pieces, SplitsJustified, RunsCapped;
    if r.len > 1 {
      PiecesLast(init, Run(r.start, r.len - 1), cap);
      PiecesLonger(init, r, cap);
    } else {
      if init == [] {
        NoPieces();
      } else {
        LastApart(init);
        PiecesLast(init[..|init| - 1], init[|init| - 1], cap);
      }
      PiecesFresh(init, r, cap);
    }
  }

  /** The allocator splits no more than it has to: its runs are as many as the blocks fall into. */
  lemma PiecesOf(runs: seq<Run>, cap: nat)
    requires RunsCapped(runs, cap) && SplitsJustified(runs, cap)
    ensures Pieces(Flatten(runs), cap) == (|runs|, LastLen(runs))
  {
    if runs == [] {
      NoPieces();
    } else {
      LastApart(runs);
      hide Flatten, Pieces, SplitsJustified, RunsCapped;
      PiecesLast(runs[..|runs| - 1], runs[|runs| - 1], cap);
    }
  }

  lemma NoPieces()
    ensures Flatten([]) == []
    ensures forall cap :: Pieces([], cap) == (0, 0)
  {
  }

  /** Blocks in a row fall into full extents of 32768 blocks and what is left over. */
  lemma {:induction false} RowPieces(blocks: seq<nat>)
    requires forall i :: 0 <= i < |blocks| ==> blocks[i] == blocks[0] + i
    ensures Pieces(blocks, MAX_EXTENT) == if blocks == [] then (0, 0)
              else ((|blocks| + 32767) / 32768, (|blocks| - 1) % 32768 + 1)
    decreases blocks
  {
    if blocks != [] { RowPieces(blocks[..|blocks| - 1]); }
  }

  /** How many extents map a file's data when it takes the blocks `free` in order, each stretch from its own run on. */
  function ExtentsNeeded(segs: seq<DataSeg>, free: seq<nat>): nat
    requires BlocksForAll(segs) <= |free|
  {
    if segs == [] then 0
    else
      var k := |segs| - 1;
      ExtentsNeeded(segs[..k], free) + Pieces(free[BlocksForAll(segs[..k])..][..BlocksFor(segs[k].len)], MAX_EXTENT).0
  }

  /** A stretch whose blocks lie in a row takes one extent per 32768 of them. */
  lemma RowOfExtents(seg: DataSeg, free: seq<nat>)
    requires BlocksFor(seg.len) <= |free| && forall i :: 0 <= i < BlocksFor(seg.len) ==> free[i] == free[0] + i
    ensures BlocksForAll([seg]) <= |free| && ExtentsNeeded([seg], free) == (BlocksFor(seg.len) + 32767) / 32768
  {
    hide BlocksFor, Pieces;
    var n := BlocksFor(seg.len);
    assert [seg][..0] == [];
    assert BlocksForAll([]) == 0 && BlocksForAll([seg]) == n;
    assert free[0..] == free;
    assert forall i :: 0 <= i < n ==> free[..n][i] == free[i];
    RowPieces(free[..n]);
  }

  lemma ExtentsNext(segs: seq<DataSeg>, i: nat, free: seq<nat>)
    requires i < |segs| && BlocksForAll(segs[..i]) + BlocksFor(segs[i].len) <= |free|
    ensures BlocksForAll(segs[..i + 1]) <= |free|
    ensures ExtentsNeeded(segs[..i + 1], free) ==
            ExtentsNeeded(segs[..i], free)
              + Pieces(free[BlocksForAll(segs[..i])..][..BlocksFor(segs[i].len)], MAX_EXTENT).0
  {
    hide Pieces, BlocksFor;
    assert segs[..i + 1][..i] == segs[..i] && segs[..i + 1][i] == segs[i];
  }

  /** How many blocks a file takes when `free` are left, tree blocks included; or why it is refused. */
  function FileNeeds(segs: seq<DataSeg>, free: seq<nat>): (r: Result<nat>)
    ensures r.Ok? ==> r.value <= |free|
  {
    var n := BlocksForAll(segs);
    if |free| < n then Err(Invalid)
    else
      var m := ExtentsNeeded(segs, free);
      var leaves, indices := ExtentBuild.LeafCount(m), ExtentBuild.IndexCount(m);
      if n + leaves <= |free| && !ExtentBuild.Shallow(m) then Err(Unsupported)
      else if |free| < n + leaves + indices then Err(Invalid)
      else Ok(n + leaves + indices)
  }

  /**
    With `n` blocks of data in `m` extents, up to four of which need no tree block: a file is placed exactly when at
    most 4 * 340 * 340 extents and enough blocks are left; too many extents are reported where the leaves would fit.
  */
  lemma FileNeedsExactly(segs: seq<DataSeg>, free: seq<nat>)
    requires BlocksForAll(segs) <= |free|
    ensures var n, m := BlocksForAll(segs), ExtentsNeeded(segs, free);
            var leaves := if m <= 4 then 0 else ExtentBuild.CeilOf340(m);
            var indices := if m <= 1360 then 0 else ExtentBuild.CeilOf340(leaves);
            && (FileNeeds(segs, free).Ok? <==> m <= 462400 && n + leaves + indices <= |free|)
            && (FileNeeds(segs, free).Ok? ==> FileNeeds(segs, free).value == n + leaves + indices)
            && (FileNeeds(segs, free) == Err(Unsupported) <==> 462400 < m && n + leaves <= |free|)
            && (FileNeeds(segs, free).Err? ==> FileNeeds(segs, free).error in {Unsupported, Invalid})
  {
    ExtentBuild.PlanShape(ExtentsNeeded(segs, free));
    hide ExtentBuild.LeafCount, ExtentBuild.IndexCount, ExtentBuild.Shallow, BlocksForAll, ExtentsNeeded;
  }

  // ----- placing one file -----

  /** Takes the blocks of each stretch in turn; fails exactly when they do not all fit. */
  method PlaceSegs(a: Allocator, segs: seq<DataSeg>)
    returns (r: Option<(seq<Extent.Extent>, seq<Run>)>, ghost parts: seq<seq<Run>>)
    requires a.Valid()
    modifies a
    ensures a.Valid()
    ensures r.Some? <==> BlocksForAll(segs) <= |old(a.Rest())|
    ensures r.Some? ==>
              a.Rest() == old(a.Rest())[BlocksForAll(segs)..]
              && Flatten(r.value.1) == old(a.Rest())[..BlocksForAll(segs)]
    ensures r.Some? ==>
              PartsOf(segs, parts) && r.value == (NumberedAll(segs, parts), Concat(parts))
              && RunsCapped(r.value.1, MAX_EXTENT)
    ensures r.Some? && PositiveRuns(a.reserved) ==> |r.value.0| == ExtentsNeeded(segs, old(a.Rest()))
  {
    hide Pieces, ExtentsNeeded, PositiveRuns, SplitsJustified, Numbered, NumberedAll, Flatten, FreeFrom,
      Allocator.Valid, Allocator.Rest, Concat, BlocksFor, BlocksForAll, TotalLen, AllCapped, RunsCapped;
    var pairs: seq<Extent.Extent>, runs: seq<Run> := [], [];
    parts := [];
    ghost var free := a.Rest();
    NothingPlaced();
    assert segs[..0] == [] && free[..0] == [] && free[0..] == free;
    for i := 0 to |segs|
      invariant a.Valid() && BlocksForAll(segs[..i]) <= |free|
      invariant a.Rest() == free[BlocksForAll(segs[..i])..] && Flatten(runs) == free[..BlocksForAll(segs[..i])]
      invariant PartsOf(segs[..i], parts) && pairs == NumberedAll(segs[..i], parts) && runs == Concat(parts)
                && RunsCapped(runs, MAX_EXTENT)
      invariant PositiveRuns(a.reserved) ==> |pairs| == ExtentsNeeded(segs[..i], free)
    {
      NeededGrows(segs, i);
      var n := BlocksFor(segs[i].len);
      var taken := a.Take(n, MAX_EXTENT);
      if taken.None? { return None, parts; }
      var more := NumberRuns(taken.value, segs[i].offset / BLOCK_SIZE % 0x1_0000_0000);
      WrapNumber(segs[i].offset / BLOCK_SIZE, taken.value);
      PartsNext(segs, parts, i, taken.value);
      TakeTwice(free, BlocksForAll(segs[..i]), n);
      FlattenAppend(runs, taken.value);
      CappedAppend(runs, taken.value);
      ExtentsNext(segs, i, free);
      if PositiveRuns(a.reserved) { PiecesOf(taken.value, MAX_EXTENT); }
      pairs := pairs + more;
      runs := runs + taken.value;
      parts := parts + [taken.value];
    }
    assert segs[..|segs|] == segs;
    return Some((pairs, runs)), parts;
  }

  lemma NothingPlaced()
    ensures Flatten([]) == [] && NumberedAll([], []) == [] && Concat<Run>([]) == [] && PartsOf([], [])
            && BlocksForAll([]) == 0
    ensures forall free: seq<nat> :: ExtentsNeeded([], free) == 0
    ensures RunsCapped([], MAX_EXTENT)
  {
  }

  // ----- blocks handed out in order -----

  ghost predicate Increasing(s: seq<nat>) {
    forall i, j :: 0 <= i < j < |s| ==> s[i] < s[j]
  }

  lemma Prefixes<T>(free: seq<T>, a: seq<T>, b: seq<T>)
    requires |a| + |b| <= |free| && free[..|a| + |b|] == a + b
    ensures free[..|a|] == a && free[|a|..|a| + |b|] == b
  {
    assert free[..|a|] == free[..|a| + |b|][..|a|];
    assert free[|a|..|a| + |b|] == free[..|a| + |b|][|a|..];
  }

  lemma BlocksEnds(start: nat, len: nat)
    requires 0 < len
    ensures Blocks(start, len)[0] == start && Blocks(start, len)[len - 1] == start + len - 1
  {
  }

  lemma LastTaken(free: seq<nat>, init: seq<Run>, r: Run, n: nat) returns (m: nat)
    requires n <= |free| && Flatten(init + [r]) == free[..n] && 0 < r.len
    ensures m + r.len == n && Flatten(init) == free[..m] && Blocks(r.start, r.len) == free[m..n]
    ensures free[m] == r.start && free[n - 1] == r.End() - 1
  {
    m := |Flatten(init)|;
    FlattenSnoc(init, r);
    BlocksEnds(r.start, r.len);
    assert |Blocks(r.start, r.len)| == r.len;
    hide Flatten, Blocks;
    Prefixes(free, Flatten(init), Blocks(r.start, r.len));
    assert free[m..n][0] == free[m] && free[m..n][r.len - 1] == free[n - 1];
  }

  /** Runs over the next free blocks are in order and hold exactly those blocks. */
  lemma {:induction false} RunsAscend(free: seq<nat>, runs: seq<Run>, n: nat)
    requires Increasing(free) && n <= |free| && Flatten(runs) == free[..n] && RunsCapped(runs, MAX_EXTENT)
    ensures DisjointRuns(runs) && TotalLen(runs) == n
    ensures runs != [] ==> 0 < n && runs[|runs| - 1].End() == free[n - 1] + 1
    ensures forall b: int :: InRuns(runs, b) <==> 0 <= b && b in free[..n]
    decreases |runs|
  {
    if runs == [] {
      assert n == 0;
    } else {
      var k := |runs| - 1;
      assert runs == runs[..k] + [runs[k]];
      var m := LastTaken(free, runs[..k], runs[k], n);
      hide Flatten, Blocks;
      RunsAscend(free, runs[..k], m);
      LastRunApart(runs[..k], runs[k], free, m);
      forall b: int ensures InRuns(runs, b) <==> 0 <= b && b in free[..n] {
        InRunsStep(runs[..k], runs[k], b);
        BlocksHold(runs[k], b);
        assert free[..n] == free[..m] + free[m..n];
      }
    }
  }

  lemma BlocksHold(r: Run, b: int)
    ensures 0 <= b && b in Blocks(r.start, r.len) <==> InRun(r, b)
  {
    if InRun(r, b) { assert Blocks(r.start, r.len)[b - r.start] == b; }
  }

  lemma LastRunApart(runs: seq<Run>, r: Run, free: seq<nat>, m: nat)
    requires Increasing(free) && m < |free| && free[m] == r.start && DisjointRuns(runs)
    requires runs != [] ==> 0 < m && runs[|runs| - 1].End() == free[m - 1] + 1
    ensures DisjointRuns(runs + [r])
  {
    forall i | 0 <= i < |runs| ensures runs[i].End() <= r.start {
      if i < |runs| - 1 { assert runs[i].End() <= runs[|runs| - 1].start; }
    }
  }

  // ----- all files -----

  /** A file's extents and the tree over them. */
  datatype FilePlan = FilePlan(extents: seq<Extent.Extent>, plan: ExtentBuild.Plan)

  /** What the file loop adds to a layout: the files, their runs in order, and the blocks of their trees. */
  datatype Placement = Placement(files: seq<File>, plans: seq<FilePlan>, dataRuns: seq<Run>,
                                 trees: seq<ExtentBuild.Segment>)

  /** A slot without a file: nothing to fill, nothing planned. */
  const NO_FILE: File := File(true, [], 0)
  const NO_PLAN: FilePlan := FilePlan([], ExtentBuild.Plan([], [], 0))

  /** The file's data lies in whole runs per stretch, and its extents number them and are planned. */
  ghost predicate PlacedAs(d: Declared, f: File, q: FilePlan, fsSeed: bv32) {
    exists parts: seq<seq<Run>>, leafBlocks: seq<u64>, indexBlocks: seq<u64> ::
      Arranged(d, f, q, fsSeed, parts, leafBlocks, indexBlocks)
  }

  ghost predicate Arranged(d: Declared, f: File, q: FilePlan, fsSeed: bv32, parts: seq<seq<Run>>,
                           leafBlocks: seq<u64>, indexBlocks: seq<u64>) {
    && PartsOf(d.segs, parts) && q.extents == NumberedAll(d.segs, parts)
    && !f.dropped && f.runs == Concat(parts) && f.size as int == BytesIn(d.segs) && RunsCapped(f.runs, MAX_EXTENT)
    && ExtentBuild.IsPlan(q.plan, q.extents, leafBlocks, indexBlocks, Csum.InodeSeed(fsSeed, d.ino, 0))
    && ExtentBuild.Shallow(|q.extents|) && ExtentBuild.Numbers48(leafBlocks) && ExtentBuild.Numbers48(indexBlocks)
  }

  lemma BlocksCover(len: u64)
    ensures BlocksFor(len) * BLOCK_SIZE >= len && (0 < len ==> (BlocksFor(len) - 1) * BLOCK_SIZE < len)
    ensures len % BLOCK_SIZE == 0 ==> BlocksFor(len) * BLOCK_SIZE == len
  {
  }

  lemma {:induction false} WholeSegs(segs: seq<DataSeg>)
    requires forall i :: 0 <= i < |segs| ==> segs[i].len % BLOCK_SIZE == 0
    ensures BytesIn(segs) == BlocksForAll(segs) * BLOCK_SIZE
    decreases |segs|
  {
    hide BlocksFor;
    if segs != [] {
      WholeSegs(segs[..|segs| - 1]);
      BlocksCover(segs[|segs| - 1].len);
    }
  }

  /** Only the file's last block can be partly filled. */
  lemma SizeFits(segs: seq<DataSeg>)
    requires Aligned(segs)
    ensures (BlocksForAll(segs) - 1) * BLOCK_SIZE < BytesIn(segs) <= BlocksForAll(segs) * BLOCK_SIZE
  {
    hide BlocksFor;
    if segs != [] {
      WholeSegs(segs[..|segs| - 1]);
      BlocksCover(segs[|segs| - 1].len);
    }
  }

  lemma {:induction false} FreeCount(lo: nat, hi: nat, reserved: seq<Run>)
    ensures |FreeFrom(lo, hi, reserved)| <= if lo < hi then hi - lo else 0
    decreases hi - lo
  {
    if lo < hi { FreeCount(lo + 1, hi, reserved); }
  }

  /** One extent for each run, over its blocks. */
  predicate Follows(extents: seq<Extent.Extent>, runs: seq<Run>) {
    && |extents| == |runs|
    && forall i :: 0 <= i < |runs| ==> extents[i].start == runs[i].start && extents[i].rawLen as int == runs[i].len
  }

  lemma FollowsNext(extents: seq<Extent.Extent>, runs: seq<Run>, part: seq<Run>, logical: nat)
    requires Follows(extents, runs) && RunsCapped(part, MAX_EXTENT)
    ensures Follows(extents + Numbered(part, logical), runs + part)
  {
    hide TotalLen;
  }

  /** The definitions over lists of stretches, one step from the end. */
  lemma NumberedInit(segs: seq<DataSeg>, parts: seq<seq<Run>>)
    requires |segs| == |parts| && AllCapped(parts)
    ensures segs == [] ==> NumberedAll(segs, parts) == [] && Concat(parts) == []
    ensures segs != [] ==>
              var k := |segs| - 1;
              && AllCapped(parts[..k]) && RunsCapped(parts[k], MAX_EXTENT)
              && NumberedAll(segs, parts)
                 == NumberedAll(segs[..k], parts[..k]) + Numbered(parts[k], segs[k].offset / BLOCK_SIZE)
              && Concat(parts) == Concat(parts[..k]) + parts[k]
  {
    hide Numbered, RunsCapped;
  }

  lemma {:induction false} NumberedFollows(segs: seq<DataSeg>, parts: seq<seq<Run>>)
    requires |segs| == |parts| && AllCapped(parts)
    ensures Follows(NumberedAll(segs, parts), Concat(parts))
    decreases |segs|
  {
    NumberedInit(segs, parts);
    hide NumberedAll, Numbered, Concat, RunsCapped, AllCapped, TotalLen;
    if segs != [] {
      var k := |segs| - 1;
      NumberedFollows(segs[..k], parts[..k]);
      FollowsNext(NumberedAll(segs[..k], parts[..k]), Concat(parts[..k]), parts[k], segs[k].offset / BLOCK_SIZE);
    }
  }

  /** The tree's segments are in the order of the numbers handed in. */
  lemma SegmentNumbers(runs: seq<Extent.Extent>, leafBlocks: seq<u64>, indexBlocks: seq<u64>, seed: bv32)
    requires |leafBlocks| == ExtentBuild.LeafCount(|runs|) && |indexBlocks| == ExtentBuild.IndexCount(|runs|)
    ensures var r := ExtentBuild.PlannedSegments(runs, leafBlocks, indexBlocks, seed);
            |r| == |leafBlocks + indexBlocks|
              && forall i :: 0 <= i < |r| ==> r[i].block == (leafBlocks + indexBlocks)[i]
  {
    hide ExtentBuild.Block, ExtentBuild.Chunks, ExtentBuild.Level1, ExtentBuild.Level2;
    if ExtentBuild.ROOT_ROOM < |runs| {
      ExtentBuild.Level1Counts(runs, leafBlocks);
      var level1 := ExtentBuild.Level1(runs, leafBlocks);
      Level1Numbers(runs, leafBlocks);
      if ExtentBuild.Depth(|runs|) == 2 {
        ExtentBuild.Level2Counts(level1, indexBlocks);
        Level2Numbers(level1, indexBlocks);
      }
    }
  }

  lemma Level1Numbers(runs: seq<Extent.Extent>, blocks: seq<u64>)
    requires |blocks| == ExtentBuild.Chunks(|runs|)
    ensures forall i :: 0 <= i < |blocks| ==> ExtentBuild.Level1(runs, blocks)[i].idx.leaf == blocks[i]
  {
  }

  lemma Level2Numbers(level1: seq<ExtentTree.Child>, blocks: seq<u64>)
    requires |blocks| == ExtentBuild.Chunks(|level1|)
    ensures forall i :: 0 <= i < |blocks| ==> ExtentBuild.Level2(level1, blocks)[i].idx.leaf == blocks[i]
  {
  }

  /**
    What one placed file took, of which `t` blocks were used before: its data the next `n`, and its tree
    the next after those.
  */
  ghost predicate Took(f: File, q: FilePlan, free: seq<nat>, t: nat, n: nat) {
    && t + n + |q.plan.segments| <= |free|
    && !f.dropped && RunsCapped(f.runs, MAX_EXTENT) && FitsRuns(f.runs, f.size) && Flatten(f.runs) == free[t..][..n]
    && forall i :: 0 <= i < |q.plan.segments| ==> q.plan.segments[i].block == free[t + n + i]
  }

  /** The blocks of every stretch, then those of the tree. */
  method PlaceFile(a: Allocator, d: Declared, fsSeed: bv32, ghost free: seq<nat>, ghost t: nat)
                   returns (r: Result<(File, FilePlan)>)
    requires a.Valid() && a.end < 0x1_0000_0000 && Aligned(d.segs) && t <= |free| && a.Rest() == free[t..]
    modifies a
    ensures a.Valid()
    ensures r.Ok? ==>
              PlacedAs(d, r.value.0, r.value.1, fsSeed) && Took(r.value.0, r.value.1, free, t, BlocksForAll(d.segs))
    ensures r.Ok? ==> a.Rest() == free[t + BlocksForAll(d.segs) + |r.value.1.plan.segments|..]
    ensures PositiveRuns(a.reserved) ==>
              FileNeeds(d.segs, free[t..]) ==
              if r.Ok? then Ok(BlocksForAll(d.segs) + |r.value.1.plan.segments|) else Err(r.error)
  {
    hide FreeFrom, Allocator.Valid, NumberedAll, Flatten, Concat, TotalLen, ExtentBuild.IsPlan, ExtentBuild.LeafCount,
      ExtentBuild.IndexCount, ExtentBuild.Shallow, ExtentBuild.Numbers48, Csum.InodeSeed, BytesIn, BlocksForAll,
      PartsOf, RunsCapped, FitsRuns, Took, Aligned, Increasing, PositiveRuns, ExtentsNeeded;
    ghost var rest, n := a.Rest(), BlocksForAll(d.segs);
    FreeOrder(a.cursor, a.end, a.reserved);
    hide Allocator.Rest;
    var placed, parts := PlaceSegs(a, d.segs);
    if placed.None? { return Err(Invalid); }
    var (extents, runs) := placed.value;
    SegsPlaced(d.segs, parts, rest, n);
    var plan := ExtentBuild.PlanExtents(extents, d.ino, fsSeed, a);
    if plan.Err? { return Err(plan.error); }
    var size := SumSizes(d.segs);
    r := Ok((File(false, runs, size), FilePlan(extents, plan.value)));
    ghost var m := ExtentBuild.LeafCount(|extents|) + ExtentBuild.IndexCount(|extents|);
    ghost var leafBlocks: seq<u64>, indexBlocks: seq<u64> :|
      && leafBlocks + indexBlocks == rest[n..][..m]
      && ExtentBuild.IsPlan(plan.value, extents, leafBlocks, indexBlocks, Csum.InodeSeed(fsSeed, d.ino, 0));
    SmallNumbers(leafBlocks, indexBlocks, rest, n, m);
    assert Arranged(d, r.value.0, r.value.1, fsSeed, parts, leafBlocks, indexBlocks);
    PlanNumbers(r.value.1, leafBlocks, indexBlocks, Csum.InodeSeed(fsSeed, d.ino, 0));
    TookNext(r.value.0, r.value.1, leafBlocks + indexBlocks, free, t, n);
    DropThrice(free, t, n, m);
  }

  lemma DropThrice<T>(s: seq<T>, a: nat, b: nat, c: nat)
    requires a + b + c <= |s|
    ensures s[a..][b..][c..] == s[a + b + c..]
  {
  }

  lemma TookNext(f: File, q: FilePlan, numbers: seq<u64>, free: seq<nat>, t: nat, n: nat)
    requires !f.dropped && RunsCapped(f.runs, MAX_EXTENT) && FitsRuns(f.runs, f.size)
    requires t <= |free| && n + |numbers| <= |free[t..]| && Flatten(f.runs) == free[t..][..n]
    requires |q.plan.segments| == |numbers| && forall i :: 0 <= i < |numbers| ==> q.plan.segments[i].block == numbers[i]
    requires forall i :: 0 <= i < |numbers| ==> numbers[i] == free[t..][n + i]
    ensures Took(f, q, free, t, n)
  {
    hide FitsRuns, Flatten, RunsCapped;
    forall i | 0 <= i < |numbers| ensures q.plan.segments[i].block == free[t + n + i] {
      assert free[t..][n + i] == free[t + n + i];
    }
  }

  lemma FreeOrder(lo: nat, hi: nat, reserved: seq<Run>)
    ensures var f := FreeFrom(lo, hi, reserved);
            Increasing(f) && |f| <= hi && forall i :: 0 <= i < |f| ==> f[i] < hi
  {
    FreeCount(lo, hi, reserved);
    FreeFromIsFreeSet(lo, hi, reserved);
    var f := FreeFrom(lo, hi, reserved);
    forall i | 0 <= i < |f| ensures f[i] < hi { assert f[i] in f; }
  }

  lemma SegsPlaced(segs: seq<DataSeg>, parts: seq<seq<Run>>, free: seq<nat>, n: nat)
    requires Aligned(segs) && PartsOf(segs, parts) && n == BlocksForAll(segs) <= |free| < 0x1_0000_0000
             && Increasing(free)
    requires Flatten(Concat(parts)) == free[..n] && RunsCapped(Concat(parts), MAX_EXTENT)
    ensures |NumberedAll(segs, parts)| < 0x1_0000_0000
    ensures BytesIn(segs) < 0x1_0000_0000_0000_0000 && FitsRuns(Concat(parts), BytesIn(segs))
  {
    hide NumberedAll, Flatten, Concat, TotalLen, BytesIn, BlocksForAll, RunsCapped;
    FlattenLength(Concat(parts), MAX_EXTENT);
    NumberedFollows(segs, parts);
    SizeFits(segs);
    RunsAscend(free, Concat(parts), n);
  }

  method SumSizes(segs: seq<DataSeg>) returns (n: u64)
    requires BytesIn(segs) < 0x1_0000_0000_0000_0000
    ensures n as int == BytesIn(segs)
  {
    var total: nat := 0;
    assert segs[..0] == [];
    for i := 0 to |segs|
      invariant total == BytesIn(segs[..i])
    {
      assert segs[..i + 1][..i] == segs[..i];
      total := total + segs[i].len;
    }
    assert segs[..|segs|] == segs;
    n := total;
  }

  lemma PlanNumbers(q: FilePlan, leafBlocks: seq<u64>, indexBlocks: seq<u64>, seed: bv32)
    requires ExtentBuild.IsPlan(q.plan, q.extents, leafBlocks, indexBlocks, seed)
    ensures |q.plan.segments| == |leafBlocks + indexBlocks|
    ensures forall i :: 0 <= i < |q.plan.segments| ==> q.plan.segments[i].block == (leafBlocks + indexBlocks)[i]
  {
    SegmentNumbers(q.extents, leafBlocks, indexBlocks, seed);
  }

  lemma SmallNumbers(a: seq<u64>, b: seq<u64>, free: seq<nat>, n: nat, m: nat)
    requires n + m <= |free| && a + b == free[n..][..m] && forall i :: 0 <= i < |free| ==> free[i] < 0x1_0000_0000
    ensures ExtentBuild.Numbers48(a) && ExtentBuild.Numbers48(b)
    ensures |a + b| == m && forall i :: 0 <= i < m ==> (a + b)[i] == free[n + i]
  {
    forall i | 0 <= i < |a| ensures a[i] < Extent.U48 { assert (a + b)[i] == a[i] && free[n..][..m][i] == free[n + i]; }
    forall i | 0 <= i < |b|
      ensures b[i] < Extent.U48
    {
      assert (a + b)[|a| + i] == b[i] && free[n..][..m][|a| + i] == free[n + |a| + i];
    }
  }

  // ----- no block is handed out twice -----

  /** Everything placed so far lies in `used`, every data block has one owner, and no tree block is a data block. */
  ghost predicate Settled(p: Placement, used: seq<nat>, totalBlocks: nat) {
    && DisjointRuns(p.dataRuns) && PositiveRuns(p.dataRuns)
    && (forall b: int :: InRuns(p.dataRuns, b) ==> 0 <= b && b in used)
    && (forall b: int :: OwnedAt(p.files, b, |p.files|) == if InRuns(p.dataRuns, b) then 1 else 0)
    && (forall i :: 0 <= i < |p.trees| ==> p.trees[i].block in used && !InRuns(p.dataRuns, p.trees[i].block))
    && (forall i, j :: 0 <= i < j < |p.trees| ==> p.trees[i].block < p.trees[j].block)
    && (forall s :: 0 <= s < |p.files| && Fillable(p.files[s]) ==> Placeable(p.files[s], totalBlocks))
  }

  lemma {:induction false} OwnedPrefix(files: seq<File>, f: File, block: int, k: nat)
    requires k <= |files|
    ensures OwnedAt(files + [f], block, k) == OwnedAt(files, block, k)
    decreases k
  {
    if 0 < k { OwnedPrefix(files, f, block, k - 1); }
  }

  lemma OwnedNext(files: seq<File>, f: File, block: int)
    ensures OwnedAt(files + [f], block, |files| + 1) == OwnedAt(files, block, |files|)
            + if Fillable(f) && InRuns(f.runs, block) then 1 else 0
  {
    OwnedPrefix(files, f, block, |files|);
  }

  lemma InRunsAppend(a: seq<Run>, b: seq<Run>, block: int)
    ensures InRuns(a + b, block) <==> InRuns(a, block) || InRuns(b, block)
  {
    if InRuns(a, block) {
      var i :| 0 <= i < |a| && InRun(a[i], block);
      assert InRun((a + b)[i], block);
    }
    if InRuns(b, block) {
      var i :| 0 <= i < |b| && InRun(b[i], block);
      assert InRun((a + b)[|a| + i], block);
    }
  }

  lemma EarlierIsLess(free: seq<nat>, t: nat, c: int, b: int)
    requires Increasing(free) && t <= |free| && 0 <= c && c in free[..t] && 0 <= b && b in free[t..]
    ensures c < b
  {
    var i :| 0 <= i < t && free[..t][i] == c;
    var j :| 0 <= j < |free| - t && free[t..][j] == b;
    assert free[i] < free[t + j];
  }

  lemma NotBoth(free: seq<nat>, t: nat, b: int)
    requires Increasing(free) && t <= |free|
    ensures !(0 <= b && b in free[..t] && b in free[t..])
  {
    if 0 <= b && b in free[..t] && b in free[t..] { EarlierIsLess(free, t, b, b); }
  }

  lemma RunsJoin(a: seq<Run>, b: seq<Run>, free: seq<nat>, t: nat)
    requires Increasing(free) && t <= |free| && DisjointRuns(a) && DisjointRuns(b) && PositiveRuns(b)
    requires forall x: int :: InRuns(a, x) ==> 0 <= x && x in free[..t]
    requires forall x: int :: InRuns(b, x) ==> 0 <= x && x in free[t..]
    requires PositiveRuns(a)
    ensures DisjointRuns(a + b)
  {
    forall i, j | 0 <= i < |a| && 0 <= j < |b| ensures a[i].End() <= b[j].start {
      assert InRun(a[i], a[i].End() - 1) && InRun(b[j], b[j].start);
      EarlierIsLess(free, t, a[i].End() - 1, b[j].start);
    }
  }

  /** The new runs lie over blocks that nothing has used yet. */
  lemma NewRuns(free: seq<nat>, t: nat, n: nat, f: File, totalBlocks: nat)
    requires Increasing(free) && t + n <= |free| && forall i :: 0 <= i < |free| ==> free[i] < totalBlocks
    requires Flatten(f.runs) == free[t..][..n] && RunsCapped(f.runs, MAX_EXTENT) && FitsRuns(f.runs, f.size)
    ensures Placeable(f, totalBlocks)
    ensures forall b: int :: InRuns(f.runs, b) ==> 0 <= b && b in free[t..] && b in free[..t + n] && b !in free[t + n..]
  {
    hide TotalLen, FitsRuns, Flatten;
    RunsAscend(free[t..], f.runs, n);
    assert free[..t + n] == free[..t] + free[t..][..n];
    forall b: int | InRuns(f.runs, b)
      ensures 0 <= b && b in free[t..] && b in free[..t + n] && b !in free[t + n..] && b < totalBlocks
    {
      var i :| 0 <= i < n && free[t..][..n][i] == b;
      assert free[t + i] == b && free[t..][i] == b;
    }
    forall i | 0 <= i < |f.runs| ensures f.runs[i].End() <= totalBlocks {
      assert InRun(f.runs[i], f.runs[i].End() - 1);
    }
  }

  lemma DataNext(dataRuns: seq<Run>, runs: seq<Run>, free: seq<nat>, t: nat, k: nat)
    requires Increasing(free) && t <= k <= |free| && DisjointRuns(dataRuns) && PositiveRuns(dataRuns)
             && DisjointRuns(runs) && PositiveRuns(runs)
    requires forall b: int :: InRuns(dataRuns, b) ==> 0 <= b && b in free[..t]
    requires forall b: int :: InRuns(runs, b) ==> 0 <= b && b in free[t..] && b in free[..k]
    ensures DisjointRuns(dataRuns + runs) && PositiveRuns(dataRuns + runs)
    ensures forall b: int :: InRuns(dataRuns + runs, b) ==> 0 <= b && b in free[..k]
  {
    hide InRuns, Increasing;
    RunsJoin(dataRuns, runs, free, t);
    assert free[..t] <= free[..k];
    forall b: int | InRuns(dataRuns + runs, b) ensures 0 <= b && b in free[..k] { InRunsAppend(dataRuns, runs, b); }
  }

  /** A block has at most one owner: the new file's blocks are past all earlier ones. */
  lemma OwnersNext(files: seq<File>, dataRuns: seq<Run>, f: File, free: seq<nat>, t: nat)
    requires Increasing(free) && t <= |free| && !f.dropped
    requires forall b: int :: OwnedAt(files, b, |files|) == if InRuns(dataRuns, b) then 1 else 0
    requires forall b: int :: InRuns(dataRuns, b) ==> 0 <= b && b in free[..t]
    requires forall b: int :: InRuns(f.runs, b) ==> 0 <= b && b in free[t..]
    ensures forall b: int :: OwnedAt(files + [f], b, |files + [f]|) == if InRuns(dataRuns + f.runs, b) then 1 else 0
  {
    hide Increasing, OwnedAt;
    forall b: int ensures OwnedAt(files + [f], b, |files + [f]|) == if InRuns(dataRuns + f.runs, b) then 1 else 0 {
      OwnedNext(files, f, b);
      InRunsAppend(dataRuns, f.runs, b);
      NotBoth(free, t, b);
    }
  }

  lemma TreesNext(dataRuns: seq<Run>, runs: seq<Run>, trees: seq<ExtentBuild.Segment>,
                  more: seq<ExtentBuild.Segment>, free: seq<nat>, t: nat, k: nat)
    requires Increasing(free) && t <= k && k + |more| <= |free|
    requires forall b: int :: InRuns(dataRuns, b) ==> 0 <= b && b in free[..t]
    requires forall b: int :: InRuns(runs, b) ==> 0 <= b && b in free[t..] && b in free[..k]
    requires forall i :: 0 <= i < |trees| ==> trees[i].block in free[..t] && !InRuns(dataRuns, trees[i].block)
    requires forall i, j :: 0 <= i < j < |trees| ==> trees[i].block < trees[j].block
    requires forall i :: 0 <= i < |more| ==> more[i].block == free[k + i]
    ensures var all := trees + more;
            && (forall i ::
                 0 <= i < |all| ==> all[i].block in free[..k + |more|] && !InRuns(dataRuns + runs, all[i].block))
            && (forall i, j :: 0 <= i < j < |all| ==> all[i].block < all[j].block)
  {
    var all := trees + more;
    assert free[..t] <= free[..k + |more|] && free[..t] <= free[..k];
    forall i | 0 <= i < |all| ensures all[i].block in free[..k + |more|] && !InRuns(dataRuns + runs, all[i].block) {
      InRunsAppend(dataRuns, runs, all[i].block);
      if i < |trees| {
        NotBoth(free, t, trees[i].block);
      } else {
        var b: int := free[k + (i - |trees|)];
        assert free[..k + |more|][k + (i - |trees|)] == b && free[k..][i - |trees|] == b;
        NotBoth(free, k, b);
      }
    }
    forall i, j | 0 <= i < |trees| && 0 <= j < |more| ensures trees[i].block < more[j].block {
      assert free[k..][j] == more[j].block;
      EarlierIsLess(free, k, trees[i].block, more[j].block);
    }
  }

  /** Placing one more file keeps everything settled. */
  lemma SettledNext(p: Placement, f: File, q: FilePlan, free: seq<nat>, t: nat, n: nat, totalBlocks: nat)
    requires Increasing(free) && (forall i :: 0 <= i < |free| ==> free[i] < totalBlocks)
             && t + n + |q.plan.segments| <= |free|
    requires Settled(p, free[..t], totalBlocks) && Took(f, q, free, t, n)
    ensures Settled(With(p, f, q), free[..t + n + |q.plan.segments|], totalBlocks)
  {
    NewRuns(free, t, n, f, totalBlocks);
    assert DisjointRuns(f.runs) && PositiveRuns(f.runs);
    hide Increasing, OwnedAt, InRuns, DisjointRuns, PositiveRuns, Placeable, Flatten, FitsRuns, RunsCapped;
    DataNext(p.dataRuns, f.runs, free, t, t + n);
    OwnersNext(p.files, p.dataRuns, f, free, t);
    TreesNext(p.dataRuns, f.runs, p.trees, q.plan.segments, free, t, t + n);
    assert free[..t + n] <= free[..t + n + |q.plan.segments|];
    PlaceableNext(p.files, f, totalBlocks);
  }

  lemma PlaceableNext(files: seq<File>, f: File, totalBlocks: nat)
    requires forall s :: 0 <= s < |files| && Fillable(files[s]) ==> Placeable(files[s], totalBlocks)
    requires Fillable(f) ==> Placeable(f, totalBlocks)
    ensures forall s ::
              0 <= s < |files + [f]| && Fillable((files + [f])[s]) ==> Placeable((files + [f])[s], totalBlocks)
  {
    hide Placeable, Fillable;
  }

  lemma SettledWithout(p: Placement, used: seq<nat>, totalBlocks: nat)
    requires Settled(p, used, totalBlocks)
    ensures Settled(With(p, NO_FILE, NO_PLAN), used, totalBlocks)
  {
    assert p.dataRuns + [] == p.dataRuns && p.trees + [] == p.trees;
    PlaceableNext(p.files, NO_FILE, totalBlocks);
    hide InRuns, Placeable, DisjointRuns, PositiveRuns, OwnedAt;
    forall b: int
      ensures OwnedAt(p.files + [NO_FILE], b, |p.files + [NO_FILE]|) == OwnedAt(p.files, b, |p.files|)
    {
      OwnedNext(p.files, NO_FILE, b);
    }
  }

  /** The slot has its file and plan, and the plan's blocks are among the trees; or it has no file. */
  ghost predicate SlotPlaced(d: Declared, f: File, q: FilePlan, trees: seq<ExtentBuild.Segment>, fsSeed: bv32) {
    if d.ino == 0 then f == NO_FILE
    else PlacedAs(d, f, q, fsSeed) && forall i :: 0 <= i < |q.plan.segments| ==> q.plan.segments[i] in trees
  }

  /** The first `n` slots are placed. */
  ghost predicate SlotsPlaced(decls: seq<Declared>, p: Placement, n: nat, fsSeed: bv32) {
    && n <= |decls| && |p.files| == |p.plans| == n
    && forall s :: 0 <= s < n ==> SlotPlaced(decls[s], p.files[s], p.plans[s], p.trees, fsSeed)
  }

  lemma SlotsNext(decls: seq<Declared>, p: Placement, f: File, q: FilePlan, i: nat, fsSeed: bv32)
    requires SlotsPlaced(decls, p, i, fsSeed) && i < |decls|
    requires if decls[i].ino == 0 then f == NO_FILE else PlacedAs(decls[i], f, q, fsSeed)
    ensures SlotsPlaced(decls, With(p, f, q), i + 1, fsSeed)
  {
    hide PlacedAs;
    var r := With(p, f, q);
    forall s | 0 <= s < i ensures SlotPlaced(decls[s], r.files[s], r.plans[s], r.trees, fsSeed) {
      assert SlotPlaced(decls[s], p.files[s], p.plans[s], p.trees, fsSeed);
    }
  }

  function With(p: Placement, f: File, q: FilePlan): Placement {
    Placement(p.files + [f], p.plans + [q], p.dataRuns + f.runs, p.trees + q.plan.segments)
  }

  /** How many blocks all slots take together; or the refusal of the first slot that is refused. */
  function FilesNeed(decls: seq<Declared>, free: seq<nat>): (r: Result<nat>)
    ensures r.Ok? ==> r.value <= |free|
  {
    if decls == [] then Ok(0)
    else
      var d := decls[|decls| - 1];
      var before :- FilesNeed(decls[..|decls| - 1], free);
      if d.ino == 0 then Ok(before)
      else
        var more :- FileNeeds(d.segs, free[before..]);
        Ok(before + more)
  }

  /** Slot `i` is refused, and no slot before it. */
  predicate RefusedAt(decls: seq<Declared>, free: seq<nat>, i: nat, e: Error)
    requires i < |decls|
  {
    var before := FilesNeed(decls[..i], free);
    before.Ok? && decls[i].ino != 0 && FileNeeds(decls[i].segs, free[before.value..]) == Err(e)
  }

  lemma FilesNeedNext(decls: seq<Declared>, i: nat, free: seq<nat>)
    requires i < |decls| && FilesNeed(decls[..i], free).Ok?
    ensures var before := FilesNeed(decls[..i], free).value;
            FilesNeed(decls[..i + 1], free) ==
              if decls[i].ino == 0 then Ok(before)
              else match FileNeeds(decls[i].segs, free[before..]) case Ok(more) => Ok(before + more)
                case Err(e) => Err(e)
  {
    hide FileNeeds;
    assert decls[..i + 1][..i] == decls[..i] && decls[..i + 1][i] == decls[i];
  }

  /** Once a slot is refused, the slots after it no longer matter. */
  lemma {:induction false} RefusalStays(decls: seq<Declared>, i: nat, free: seq<nat>)
    requires i <= |decls| && FilesNeed(decls[..i], free).Err?
    ensures FilesNeed(decls, free) == FilesNeed(decls[..i], free)
    decreases |decls|
  {
    hide FileNeeds;
    if i == |decls| {
      assert decls[..i] == decls;
    } else {
      var k := |decls| - 1;
      assert decls[..k][..i] == decls[..i];
      RefusalStays(decls[..k], i, free);
    }
  }

  lemma {:induction false} RefusedSlot(decls: seq<Declared>, free: seq<nat>, e: Error) returns (i: nat)
    requires FilesNeed(decls, free) == Err(e)
    ensures i < |decls| && RefusedAt(decls, free, i, e)
    decreases |decls|
  {
    hide FileNeeds;
    i := |decls| - 1;
    if FilesNeed(decls[..i], free).Err? {
      var k := i;
      i := RefusedSlot(decls[..k], free, e);
      assert decls[..k][..i] == decls[..i];
    }
  }

  /** The loop fails exactly at the first slot that is refused, for that slot's reason. */
  lemma FirstRefusal(decls: seq<Declared>, free: seq<nat>, e: Error)
    ensures FilesNeed(decls, free) == Err(e) <==> exists i :: 0 <= i < |decls| && RefusedAt(decls, free, i, e)
  {
    hide FileNeeds, FilesNeed;
    if FilesNeed(decls, free) == Err(e) {
      var i := RefusedSlot(decls, free, e);
    }
    if i :| 0 <= i < |decls| && RefusedAt(decls, free, i, e) {
      FilesNeedNext(decls, i, free);
      RefusalStays(decls, i + 1, free);
    }
  }

  /**
    The file loop. On success every declared file is placed and planned, every data block has exactly
    one owner, tree blocks and data blocks are apart, and all of them come from the blocks that were free.
  */
  method PlaceFiles(a: Allocator, decls: seq<Declared>, fsSeed: bv32) returns (r: Result<Placement>, ghost used: nat)
    requires a.Valid() && a.end < 0x1_0000_0000 && forall d :: d in decls ==> Aligned(d.segs)
    modifies a
    ensures a.Valid()
    ensures r.Ok? ==> used <= |old(a.Rest())| && a.Rest() == old(a.Rest())[used..]
    ensures r.Ok? ==> Settled(r.value, old(a.Rest())[..used], a.end)
    ensures r.Ok? ==> SlotsPlaced(decls, r.value, |decls|, fsSeed)
    ensures PositiveRuns(a.reserved) ==>
              FilesNeed(decls, old(a.Rest())) == if r.Ok? then Ok(used) else Err(r.error)
  {
    hide FreeFrom, Allocator.Valid, Settled, Took, PlacedAs, BlocksForAll, FileNeeds, FilesNeed, PositiveRuns;
    ghost var free := a.Rest();
    Begins(a.cursor, a.end, a.reserved);
    NoneNeeded(decls, free);
    hide Allocator.Rest, Increasing, SlotsPlaced, With;
    var p := Placement([], [], [], []);
    used := 0;
    for i := 0 to |decls|
      invariant a.Valid() && used <= |free| && a.Rest() == free[used..]
      invariant Settled(p, free[..used], a.end) && SlotsPlaced(decls, p, i, fsSeed)
      invariant PositiveRuns(a.reserved) ==> FilesNeed(decls[..i], free) == Ok(used)
    {
      if PositiveRuns(a.reserved) { FilesNeedNext(decls, i, free); }
      if decls[i].ino == 0 {
        SettledWithout(p, free[..used], a.end);
        SlotsNext(decls, p, NO_FILE, NO_PLAN, i, fsSeed);
        p := With(p, NO_FILE, NO_PLAN);
      } else {
        var tried := PlaceFile(a, decls[i], fsSeed, free, used);
        if tried.Err? {
          if PositiveRuns(a.reserved) { RefusalStays(decls, i + 1, free); }
          return Err(tried.error), used;
        }
        var placed := tried.value;
        ghost var n := BlocksForAll(decls[i].segs);
        TookBounds(placed.0, placed.1, free, used, n);
        SettledNext(p, placed.0, placed.1, free, used, n, a.end);
        SlotsNext(decls, p, placed.0, placed.1, i, fsSeed);
        used := used + n + |placed.1.plan.segments|;
        p := With(p, placed.0, placed.1);
      }
    }
    assert decls[..|decls|] == decls;
    r := Ok(p);
  }

  lemma NoneNeeded(decls: seq<Declared>, free: seq<nat>)
    ensures FilesNeed(decls[..0], free) == Ok(0)
    ensures forall fsSeed :: SlotsPlaced(decls, Placement([], [], [], []), 0, fsSeed)
  {
  }

  lemma TookBounds(f: File, q: FilePlan, free: seq<nat>, t: nat, n: nat)
    requires Took(f, q, free, t, n)
    ensures t + n + |q.plan.segments| <= |free|
  {
  }

  lemma Begins(lo: nat, hi: nat, reserved: seq<Run>)
    ensures var free := FreeFrom(lo, hi, reserved);
            && Increasing(free) && (forall k :: 0 <= k < |free| ==> free[k] < hi)
            && free[0..] == free && Settled(Placement([], [], [], []), free[..0], hi)
  {
    FreeOrder(lo, hi, reserved);
  }

  // ----- the sealed layout -----

  /** Apart from the trees, no segment touches the blocks that were free for files. */
  ghost predicate OthersApart(l: Layout, trees: seq<ExtentBuild.Segment>, free: seq<nat>) {
    forall i, b: nat :: 0 <= i < |l.segments| && Spans(l.segments[i], b) && b in free
      ==> exists j :: 0 <= j < |trees| && trees[j].block == b
  }

  /** What the file loop leaves is what the writer needs of a sealed layout. */
  lemma PlacedIsSealed(l: Layout, p: Placement, used: seq<nat>)
    requires Settled(p, used, l.totalBlocks) && l.files == p.files && l.dataRuns == p.dataRuns
             && forall b :: b in used ==> b < l.totalBlocks
    requires Laid(l) && (l.totalBlocks + 1) * BLOCK_SIZE < 0x1_0000_0000_0000_0000 && OthersApart(l, p.trees, used)
    ensures Sealed(l)
  {
    hide Laid, OwnedAt, Placeable, DisjointRuns, PositiveRuns;
    forall b: int | InRuns(l.dataRuns, b) ensures 0 <= b < l.totalBlocks && !InSegments(l.segments, b) {
      forall i | 0 <= i < |l.segments| ensures !Spans(l.segments[i], b) {}
    }
  }
}
