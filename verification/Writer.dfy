/**
  Emitting an image (`src/build/writer.rs`): one metadata pass over everything that is not
  file data, then one fill per file, in any order. A writer that finishes has emitted every
  byte up to the end of the image or of the last segment, whichever is later, exactly once.
*/
module Writer {
  import opened Bytes
  import opened Allocator
  import opened Sink

  /** How much of a file is passed on at a time. */
  const SCRATCH: nat := 1024 * BLOCK_SIZE

  /** A segment's bytes, or an inode table of which only some blocks are in use. */
  datatype Source = Whole(bytes: seq<byte>) | Itable(used: seq<seq<byte>>)

  datatype Segment = Segment(block: nat, len: nat, src: Source) {
    function End(): nat { block + len }
  }

  /** A slot's content runs; dropped slots and files without runs have nothing to fill. */
  datatype File = File(dropped: bool, runs: seq<Run>, size: u64)

  datatype Layout = Layout(totalBlocks: nat, segments: seq<Segment>, dataRuns: seq<Run>, files: seq<File>)

  ghost predicate InRuns(runs: seq<Run>, block: int) {
    exists i :: 0 <= i < |runs| && InRun(runs[i], block)
  }

  predicate Sound(s: Segment) {
    match s.src
    case Whole(bytes) => |bytes| == s.len * BLOCK_SIZE
    case Itable(used) => |used| <= s.len && forall i :: 0 <= i < |used| ==> |used[i]| == BLOCK_SIZE
  }

  // ----- what a stretch of calls adds -----

  /** Exactly the bytes `w` were added from `lo` on, once each, and nothing reaches past them. */
  ghost predicate Writes(before: seq<Emission>, after: seq<Emission>, lo: int, w: seq<byte>) {
    && (forall x :: Count(after, x) == Count(before, x) + if lo <= x < lo + |w| then 1 else 0)
    && (forall x :: Sum(after, x) == Sum(before, x) + if lo <= x < lo + |w| then w[x - lo] as int else 0)
    && Length(after) <= Max(Length(before), lo + |w|)
  }

  lemma OneWrite(before: seq<Emission>, e: Emission)
    ensures Writes(before, before + [e], e.offset, e.Payload())
  {
    hide Count, Sum, Length;
    RunSnoc(before, e, 0);
    forall x
      ensures Count(before + [e], x) == Count(before, x) + e.Hits(x)
      ensures Sum(before + [e], x) == Sum(before, x) + e.ByteAt(x) as int
    {
      RunSnoc(before, e, x);
    }
  }

  lemma WritesJoin(a: seq<Emission>, b: seq<Emission>, c: seq<Emission>, lo: int, v: seq<byte>, w: seq<byte>)
    requires Writes(a, b, lo, v) && Writes(b, c, lo + |v|, w)
    ensures Writes(a, c, lo, v + w)
  {
  }

  lemma WritesNothing(a: seq<Emission>, lo: int)
    ensures Writes(a, a, lo, [])
  {
  }

  // ----- the gaps between segments -----

  /** Of the blocks `[from, to)`, exactly the bytes outside the data runs were added, once each and all zero. */
  ghost predicate ZeroesGap(before: seq<Emission>, after: seq<Emission>, from: nat, to: nat, dataRuns: seq<Run>) {
    && (forall x ::
         Count(after, x) == Count(before, x)
         + if from * BLOCK_SIZE <= x < to * BLOCK_SIZE && !InRuns(dataRuns, x / BLOCK_SIZE) then 1 else 0)
    && (forall x :: Sum(after, x) == Sum(before, x))
    && Length(after) <= Max(Length(before), to * BLOCK_SIZE)
  }

  lemma GapGrows(a: seq<Emission>, b: seq<Emission>, c: seq<Emission>, from: nat, at: nat, to: nat, dataRuns: seq<Run>)
    requires from <= at <= to && ZeroesGap(a, b, from, at, dataRuns) && ZeroesGap(b, c, at, to, dataRuns)
    ensures ZeroesGap(a, c, from, to, dataRuns)
  {
  }

  lemma BlockOf(x: int, from: nat, to: nat)
    ensures from * BLOCK_SIZE <= x < to * BLOCK_SIZE <==> from <= x / BLOCK_SIZE < to
  {
  }

  /** A stretch without data runs is zeroed by one call; a stretch inside one needs none. */
  lemma ClearStretch(a: seq<Emission>, b: seq<Emission>, from: nat, to: nat, dataRuns: seq<Run>)
    requires from <= to && Writes(a, b, from * BLOCK_SIZE, Zeros((to - from) * BLOCK_SIZE))
             && forall k :: from <= k < to ==> !InRuns(dataRuns, k)
    ensures ZeroesGap(a, b, from, to, dataRuns)
  {
  }

  lemma DataStretch(a: seq<Emission>, from: nat, to: nat, dataRuns: seq<Run>)
    requires forall k :: from <= k < to ==> InRuns(dataRuns, k)
    ensures ZeroesGap(a, a, from, to, dataRuns)
  {
  }

  predicate Passed(dataRuns: seq<Run>, next: nat, at: nat) {
    next <= |dataRuns| && forall i :: 0 <= i < next ==> dataRuns[i].End() <= at
  }

  lemma NothingBetween(dataRuns: seq<Run>, next: nat, at: nat, to: nat)
    requires DisjointRuns(dataRuns) && Passed(dataRuns, next, at)
    requires next < |dataRuns| ==> to <= dataRuns[next].start
    ensures forall k :: at <= k < to ==> !InRuns(dataRuns, k)
  {
  }

  lemma InsideRun(dataRuns: seq<Run>, i: nat, from: nat, to: nat)
    requires i < |dataRuns| && dataRuns[i].start <= from && to <= dataRuns[i].End()
    ensures forall k :: from <= k < to ==> InRuns(dataRuns, k)
  {
  }

  class Emitter {
    var emitted: seq<Emission>

    constructor ()
      ensures emitted == []
    {
      emitted := [];
    }

    method EmitZeros(from: nat, to: nat)
      requires from <= to && to * BLOCK_SIZE < 0x1_0000_0000_0000_0000
      modifies this
      ensures Writes(old(emitted), emitted, from * BLOCK_SIZE, Zeros((to - from) * BLOCK_SIZE))
    {
      var e := ZeroFill(from * BLOCK_SIZE, (to - from) * BLOCK_SIZE);
      OneWrite(emitted, e);
      emitted := emitted + [e];
    }

    method EmitData(offset: u64, bytes: seq<byte>)
      modifies this
      ensures Writes(old(emitted), emitted, offset, bytes)
    {
      var e := Data(offset, bytes);
      OneWrite(emitted, e);
      emitted := emitted + [e];
    }

    /** Everything in `[from, to)` but file data is zeroed; `next` is the first data run not yet passed. */
    method EmitGap(from: nat, to: nat, dataRuns: seq<Run>, next: nat) returns (next': nat)
      requires from <= to && to * BLOCK_SIZE < 0x1_0000_0000_0000_0000 && DisjointRuns(dataRuns)
               && Passed(dataRuns, next, from)
      modifies this
      ensures ZeroesGap(old(emitted), emitted, from, to, dataRuns) && Passed(dataRuns, next', to)
    {
      hide ZeroesGap;
      var at := from;
      next' := next;
      DataStretch(emitted, from, from, dataRuns);
      while at < to
        invariant from <= at <= to && Passed(dataRuns, next', at)
        invariant ZeroesGap(old(emitted), emitted, from, at, dataRuns)
      {
        ghost var before := emitted;
        var was := at;
        at, next' := EmitStretch(at, to, dataRuns, next');
        GapGrows(old(emitted), before, emitted, from, was, at, dataRuns);
      }
    }

    /** A stretch without data runs, in one call. */
    method EmitClear(from: nat, to: nat, dataRuns: seq<Run>)
      requires from <= to && to * BLOCK_SIZE < 0x1_0000_0000_0000_0000
               && forall k :: from <= k < to ==> !InRuns(dataRuns, k)
      modifies this
      ensures ZeroesGap(old(emitted), emitted, from, to, dataRuns)
    {
      hide ZeroesGap, Writes, InRuns;
      EmitZeros(from, to);
      ClearStretch(old(emitted), emitted, from, to, dataRuns);
    }

    /** Up to the end of the next data run that starts before `to`, or up to `to`. */
    method EmitStretch(at: nat, to: nat, dataRuns: seq<Run>, next: nat) returns (at': nat, next': nat)
      requires at < to && to * BLOCK_SIZE < 0x1_0000_0000_0000_0000 && DisjointRuns(dataRuns)
               && Passed(dataRuns, next, at)
      modifies this
      ensures at < at' <= to && Passed(dataRuns, next', at')
      ensures ZeroesGap(old(emitted), emitted, at, at', dataRuns)
    {
      hide ZeroesGap, InRuns, DisjointRuns;
      next' := next;
      while next' < |dataRuns| && dataRuns[next'].End() <= at
        invariant Passed(dataRuns, next', at)
      {
        next' := next' + 1;
      }
      if next' < |dataRuns| && dataRuns[next'].start < to {
        var r := dataRuns[next'];
        at' := Min(r.End(), to);
        var free := Max(r.start, at);
        if r.start > at {
          NothingBetween(dataRuns, next', at, r.start);
          EmitClear(at, r.start, dataRuns);
        } else {
          DataStretch(emitted, at, at, dataRuns);
        }
        InsideRun(dataRuns, next', free, at');
        DataStretch(emitted, free, at', dataRuns);
        GapGrows(old(emitted), emitted, emitted, at, free, at', dataRuns);
        if r.End() <= to {
          next' := next' + 1;
        }
      } else {
        NothingBetween(dataRuns, next', at, to);
        EmitClear(at, to, dataRuns);
        at' := to;
      }
    }
  }

  // ----- segments -----

  function Joined(blocks: seq<seq<byte>>): seq<byte> {
    if blocks == [] then [] else Joined(blocks[..|blocks| - 1]) + blocks[|blocks| - 1]
  }

  /** What a segment holds; an inode table is zero after the blocks in use. */
  function SegmentBytes(s: Segment): seq<byte>
    requires Sound(s)
  {
    match s.src
    case Whole(bytes) => bytes
    case Itable(used) => Joined(used) + Zeros((s.len - |used|) * BLOCK_SIZE)
  }

  lemma {:induction false} JoinedLength(blocks: seq<seq<byte>>)
    requires forall i :: 0 <= i < |blocks| ==> |blocks[i]| == BLOCK_SIZE
    ensures |Joined(blocks)| == |blocks| * BLOCK_SIZE
    decreases |blocks|
  {
    if blocks != [] { JoinedLength(blocks[..|blocks| - 1]); }
  }

  lemma SegmentLength(s: Segment)
    requires Sound(s)
    ensures |SegmentBytes(s)| == s.len * BLOCK_SIZE
  {
    if s.src.Itable? { JoinedLength(s.src.used); }
  }

  lemma JoinedNext(blocks: seq<seq<byte>>, i: nat)
    requires i < |blocks| && forall k :: 0 <= k < |blocks| ==> |blocks[k]| == BLOCK_SIZE
    ensures |Joined(blocks[..i])| == i * BLOCK_SIZE && Joined(blocks[..i + 1]) == Joined(blocks[..i]) + blocks[i]
  {
    JoinedLength(blocks[..i]);
    assert blocks[..i + 1][..i] == blocks[..i];
  }

  /** An inode table: its used blocks, then one stretch of zeros. */
  method EmitItable(e: Emitter, block: nat, len: nat, used: seq<seq<byte>>)
    requires |used| <= len && (block + len) * BLOCK_SIZE < 0x1_0000_0000_0000_0000
    requires forall i :: 0 <= i < |used| ==> |used[i]| == BLOCK_SIZE
    modifies e
    ensures Writes(old(e.emitted), e.emitted, block * BLOCK_SIZE, Joined(used) + Zeros((len - |used|) * BLOCK_SIZE))
  {
    hide Writes;
    WritesNothing(e.emitted, block * BLOCK_SIZE);
    for i := 0 to |used|
      invariant Writes(old(e.emitted), e.emitted, block * BLOCK_SIZE, Joined(used[..i]))
    {
      ghost var before := e.emitted;
      JoinedNext(used, i);
      e.EmitData((block + i) * BLOCK_SIZE, used[i]);
      WritesJoin(old(e.emitted), before, e.emitted, block * BLOCK_SIZE, Joined(used[..i]), used[i]);
    }
    assert used[..|used|] == used;
    JoinedLength(used);
    ghost var before := e.emitted;
    if |used| < len {
      e.EmitZeros(block + |used|, block + len);
      WritesJoin(old(e.emitted), before, e.emitted, block * BLOCK_SIZE, Joined(used),
        Zeros((len - |used|) * BLOCK_SIZE));
    } else {
      assert Joined(used) + Zeros(0) == Joined(used);
    }
  }

  method EmitSegment(e: Emitter, s: Segment)
    requires Sound(s) && s.End() * BLOCK_SIZE < 0x1_0000_0000_0000_0000
    modifies e
    ensures Writes(old(e.emitted), e.emitted, s.block * BLOCK_SIZE, SegmentBytes(s))
  {
    hide Writes;
    match s.src {
      case Whole(bytes) => e.EmitData(s.block * BLOCK_SIZE, bytes);
      case Itable(used) => EmitItable(e, s.block, s.len, used);
    }
  }

  // ----- the metadata pass -----

  predicate Spans(s: Segment, block: int) {
    s.block <= block < s.End()
  }

  ghost predicate InSegments(segments: seq<Segment>, block: int) {
    exists i :: 0 <= i < |segments| && Spans(segments[i], block)
  }

  predicate AllSound(segments: seq<Segment>) {
    forall i :: 0 <= i < |segments| ==> Sound(segments[i])
  }

  /** Segments ascend without touching each other's blocks. */
  predicate Ordered(segments: seq<Segment>) {
    forall i, j :: 0 <= i < j < |segments| ==> segments[i].End() <= segments[j].block
  }

  /** Where the pass ends: the image's last block, or a last segment that lies beyond it. */
  function Reach(l: Layout): nat {
    if l.segments == [] then l.totalBlocks else Max(l.totalBlocks, l.segments[|l.segments| - 1].End())
  }

  /** What the layout promises the writer. */
  predicate Laid(l: Layout) {
    && Reach(l) * BLOCK_SIZE < 0x1_0000_0000_0000_0000
    && AllSound(l.segments) && Ordered(l.segments) && DisjointRuns(l.dataRuns)
  }

  /** The bytes that the metadata pass owes: segments whole, and between them whatever is not file data. */
  ghost predicate Metadata(l: Layout, x: int) {
    0 <= x < Reach(l) * BLOCK_SIZE && (InSegments(l.segments, x / BLOCK_SIZE) || !InRuns(l.dataRuns, x / BLOCK_SIZE))
  }

  function ByteIn(w: seq<byte>, j: int): byte {
    if 0 <= j < |w| then w[j] else 0
  }

  /** The byte that the segments put at image position `x`. */
  function SegmentByte(segments: seq<Segment>, x: int): byte
    requires AllSound(segments)
  {
    if segments == [] then 0
    else
      var s := segments[|segments| - 1];
      if Spans(s, x / BLOCK_SIZE) then ByteIn(SegmentBytes(s), x - s.block * BLOCK_SIZE)
      else SegmentByte(segments[..|segments| - 1], x)
  }

  lemma {:induction false} OutsideSegments(segments: seq<Segment>, x: int)
    requires AllSound(segments) && !InSegments(segments, x / BLOCK_SIZE)
    ensures SegmentByte(segments, x) == 0
    decreases |segments|
  {
    if segments != [] {
      var most := segments[..|segments| - 1];
      assert forall i :: 0 <= i < |most| ==> most[i] == segments[i];
      OutsideSegments(most, x);
    }
  }

  lemma {:induction false} InsideSegment(segments: seq<Segment>, i: nat, x: int)
    requires AllSound(segments) && Ordered(segments) && i < |segments| && Spans(segments[i], x / BLOCK_SIZE)
    ensures SegmentByte(segments, x) == ByteIn(SegmentBytes(segments[i]), x - segments[i].block * BLOCK_SIZE)
    decreases |segments|
  {
    hide SegmentBytes;
    if i < |segments| - 1 { InsideSegment(segments[..|segments| - 1], i, x); }
  }

  /** The first `i` segments and the gaps below block `at` were added, once each, and nothing else. */
  ghost predicate EmittedTo(after: seq<Emission>, l: Layout, i: nat, at: nat)
    requires i <= |l.segments| && AllSound(l.segments)
  {
    && (forall x :: Count(after, x) == if Metadata(l, x) && x < at * BLOCK_SIZE then 1 else 0)
    && (forall x :: Sum(after, x) == SegmentByte(l.segments[..i], x) as int)
    && Length(after) <= at * BLOCK_SIZE
  }

  /** The first `i` segments lie below `at`, and no other starts below `to`. */
  predicate Between(segments: seq<Segment>, i: nat, at: nat, to: nat) {
    && i <= |segments|
    && (forall j :: 0 <= j < i ==> segments[j].End() <= at)
    && (i < |segments| ==> to <= segments[i].block)
  }

  lemma NoSegmentBetween(l: Layout, i: nat, at: nat, to: nat, block: int)
    requires Laid(l) && Between(l.segments, i, at, to) && at <= block < to
    ensures !InSegments(l.segments, block)
  {
    forall j | 0 <= j < |l.segments| ensures !Spans(l.segments[j], block) {
      if i < j { assert l.segments[i].End() <= l.segments[j].block; }
    }
  }

  lemma GapAdvances(a: seq<Emission>, b: seq<Emission>, l: Layout, i: nat, at: nat, to: nat)
    requires Laid(l) && Between(l.segments, i, at, to) && at <= to <= Reach(l)
    requires EmittedTo(a, l, i, at) && ZeroesGap(a, b, at, to, l.dataRuns)
    ensures EmittedTo(b, l, i, to)
  {
    hide Reach, Laid, Between, SegmentByte, InSegments, InRuns;
    forall x ensures Count(b, x) == if Metadata(l, x) && x < to * BLOCK_SIZE then 1 else 0 {
      BlockOf(x, at, to);
      if at <= x / BLOCK_SIZE < to { NoSegmentBetween(l, i, at, to, x / BLOCK_SIZE); }
    }
  }

  lemma SegmentWithinReach(l: Layout, i: nat)
    requires Laid(l) && i < |l.segments|
    ensures l.segments[i].End() <= Reach(l)
  {
  }

  /** Positions that the next segment covers were in no earlier one, and belong to the metadata. */
  lemma SegmentNext(l: Layout, i: nat, x: int)
    requires Laid(l) && i < |l.segments|
    ensures var s, next := l.segments[i], SegmentByte(l.segments[..i + 1], x);
            if s.block * BLOCK_SIZE <= x < s.End() * BLOCK_SIZE
            then Metadata(l, x) && SegmentByte(l.segments[..i], x) == 0
              && next == ByteIn(SegmentBytes(s), x - s.block * BLOCK_SIZE)
            else next == SegmentByte(l.segments[..i], x)
  {
    var s := l.segments[i];
    assert l.segments[..i + 1][..i] == l.segments[..i] && l.segments[..i + 1][i] == s;
    SegmentWithinReach(l, i);
    BlockOf(x, s.block, s.End());
    hide Reach, SegmentBytes;
    if Spans(s, x / BLOCK_SIZE) {
      assert InSegments(l.segments, x / BLOCK_SIZE);
      EarlierSegmentsApart(l, i, x / BLOCK_SIZE);
      OutsideSegments(l.segments[..i], x);
    }
  }

  lemma SegmentAdvances(a: seq<Emission>, b: seq<Emission>, l: Layout, i: nat)
    requires Laid(l) && i < |l.segments|
    requires var s := l.segments[i];
             EmittedTo(a, l, i, s.block) && Writes(a, b, s.block * BLOCK_SIZE, SegmentBytes(s))
    ensures EmittedTo(b, l, i + 1, l.segments[i].End())
  {
    var s := l.segments[i];
    SegmentLength(s);
    hide Metadata, Laid, SegmentBytes, SegmentByte;
    forall x
      ensures Count(b, x) == if Metadata(l, x) && x < s.End() * BLOCK_SIZE then 1 else 0
      ensures Sum(b, x) == SegmentByte(l.segments[..i + 1], x) as int
    {
      SegmentNext(l, i, x);
    }
  }

  lemma EarlierSegmentsApart(l: Layout, i: nat, block: int)
    requires Laid(l) && i < |l.segments| && Spans(l.segments[i], block)
    ensures !InSegments(l.segments[..i], block)
  {
  }

  /**
    One ascending sweep: every segment with its bytes, zeros in between, and no byte of file data outside a
    segment.
  */
  method EmitMetadata(e: Emitter, l: Layout)
    requires Laid(l) && e.emitted == []
    modifies e
    ensures EmittedTo(e.emitted, l, |l.segments|, Reach(l))
  {
    hide Metadata, ZeroesGap, Writes, EmittedTo, SegmentBytes;
    var cursor: nat, next: nat := 0, 0;
    NothingYet(l);
    for i := 0 to |l.segments|
      invariant cursor == (if i == 0 then 0 else l.segments[i - 1].End()) && Passed(l.dataRuns, next, cursor)
      invariant Between(l.segments, i, cursor, cursor) && EmittedTo(e.emitted, l, i, cursor)
    {
      var s := l.segments[i];
      SegmentWithinReach(l, i);
      ghost var before := e.emitted;
      if s.block > cursor {
        next := e.EmitGap(cursor, s.block, l.dataRuns, next);
        GapAdvances(before, e.emitted, l, i, cursor, s.block);
      }
      before := e.emitted;
      EmitSegment(e, s);
      SegmentAdvances(before, e.emitted, l, i);
      cursor := s.End();
    }
    if cursor < l.totalBlocks {
      ghost var before := e.emitted;
      next := e.EmitGap(cursor, l.totalBlocks, l.dataRuns, next);
      GapAdvances(before, e.emitted, l, |l.segments|, cursor, l.totalBlocks);
    }
  }

  lemma NothingYet(l: Layout)
    requires AllSound(l.segments)
    ensures EmittedTo([], l, 0, 0)
  {
  }

  // ----- filling one file -----

  /** Zeros from a position to the next block boundary. */
  function PadAfter(offset: nat): nat {
    (BLOCK_SIZE - offset % BLOCK_SIZE) % BLOCK_SIZE
  }

  /** What one run receives: its share of the content, padded to a block boundary. */
  function Share(content: seq<byte>, pos: nat, n: nat, offset: nat): seq<byte>
    requires pos + n <= |content|
  {
    content[pos..pos + n] + Zeros(PadAfter(offset + n))
  }

  method PutChunk(e: Emitter, at: u64, chunk: seq<byte>, ghost first: seq<Emission>, ghost lo: int,
                  ghost sofar: seq<byte>)
    requires Writes(first, e.emitted, lo, sofar) && at == lo + |sofar|
    modifies e
    ensures Writes(first, e.emitted, lo, sofar + chunk)
  {
    hide Writes;
    ghost var before := e.emitted;
    e.EmitData(at, chunk);
    OneWrite(before, Data(at, chunk));
    WritesJoin(first, before, e.emitted, lo, sofar, chunk);
  }

  /** Streams `n` bytes of the content, a scratch buffer at a time; stops where the content ends early. */
  method StreamRun(e: Emitter, offset: nat, n: nat, content: seq<byte>, pos: nat) returns (ok: bool)
    requires offset + n < 0x1_0000_0000_0000_0000 && pos <= |content|
    modifies e
    ensures ok <==> pos + n <= |content|
    ensures ok ==> Writes(old(e.emitted), e.emitted, offset, content[pos..pos + n])
  {
    hide Writes;
    var done := 0;
    WritesNothing(e.emitted, offset);
    assert content[pos..pos + 0] == [];
    while done < n
      invariant done <= n && pos + done <= |content|
      invariant Writes(old(e.emitted), e.emitted, offset, content[pos..pos + done])
    {
      var want := if n - done < SCRATCH then n - done else SCRATCH;
      if pos + done + want > |content| { return false; }
      var chunk := content[pos + done..pos + done + want];
      PutChunk(e, offset + done, chunk, old(e.emitted), offset, content[pos..pos + done]);
      SliceJoin(content, pos, pos + done, pos + done + want);
      done := done + want;
    }
    return true;
  }

  lemma SliceJoin<T>(s: seq<T>, a: nat, b: nat, c: nat)
    requires a <= b <= c <= |s|
    ensures s[a..b] + s[b..c] == s[a..c]
  {
  }

  method FillRun(e: Emitter, offset: nat, n: nat, content: seq<byte>, pos: nat) returns (ok: bool)
    requires offset + n + BLOCK_SIZE < 0x1_0000_0000_0000_0000 && pos <= |content|
    modifies e
    ensures ok <==> pos + n <= |content|
    ensures ok ==> Writes(old(e.emitted), e.emitted, offset, Share(content, pos, n, offset))
  {
    hide Writes;
    ok := StreamRun(e, offset, n, content, pos);
    if !ok { return; }
    var pad := PadAfter(offset + n);
    ghost var before := e.emitted;
    if pad > 0 {
      var z := ZeroFill(offset + n, pad);
      OneWrite(e.emitted, z);
      e.emitted := e.emitted + [z];
      WritesJoin(old(e.emitted), before, e.emitted, offset, content[pos..pos + n], Zeros(pad));
    } else {
      assert content[pos..pos + n] + Zeros(0) == content[pos..pos + n];
    }
  }

  function TotalLen(runs: seq<Run>): nat {
    if runs == [] then 0 else TotalLen(runs[..|runs| - 1]) + runs[|runs| - 1].len
  }

  /** The last block of the runs is needed, and no more than it. */
  predicate FitsRuns(runs: seq<Run>, size: nat) {
    (TotalLen(runs) - 1) * BLOCK_SIZE < size <= TotalLen(runs) * BLOCK_SIZE
  }

  /** The file's byte at image position `x`: content in run order, then zeros to the end of the last block. */
  function PlacedByte(runs: seq<Run>, content: seq<byte>, x: int): byte {
    if runs == [] then 0
    else
      var k := |runs| - 1;
      var j := TotalLen(runs[..k]) * BLOCK_SIZE + (x - runs[k].start * BLOCK_SIZE);
      if InRun(runs[k], x / BLOCK_SIZE) then ByteIn(content, j)
      else PlacedByte(runs[..k], content, x)
  }

  /** Exactly the bytes of the runs' blocks were added, once each, with the file's content. */
  ghost predicate FillsRuns(before: seq<Emission>, after: seq<Emission>, runs: seq<Run>, content: seq<byte>) {
    && (forall x :: Count(after, x) == Count(before, x) + if InRuns(runs, x / BLOCK_SIZE) then 1 else 0)
    && (forall x ::
         Sum(after, x) == Sum(before, x)
         + if InRuns(runs, x / BLOCK_SIZE) then PlacedByte(runs, content, x) as int else 0)
  }

  lemma InRunsStep(runs: seq<Run>, r: Run, b: int)
    ensures InRuns(runs + [r], b) <==> InRuns(runs, b) || InRun(r, b)
  {
    if InRuns(runs, b) {
      var i :| 0 <= i < |runs| && InRun(runs[i], b);
      assert InRun((runs + [r])[i], b);
    }
    if InRun(r, b) { assert InRun((runs + [r])[|runs|], b); }
  }

  lemma PlacedStep(runs: seq<Run>, r: Run, content: seq<byte>, x: int)
    ensures PlacedByte(runs + [r], content, x) ==
            if InRun(r, x / BLOCK_SIZE) then ByteIn(content, TotalLen(runs) * BLOCK_SIZE + (x - r.start * BLOCK_SIZE))
              else PlacedByte(runs, content, x)
  {
    assert (runs + [r])[..|runs|] == runs;
  }

  /** What one more run adds at `x`. */
  lemma RunAdds(b: seq<Emission>, c: seq<Emission>, runs: seq<Run>, r: Run, content: seq<byte>, w: seq<byte>, x: int)
    requires Writes(b, c, r.start * BLOCK_SIZE, w) && |w| == r.len * BLOCK_SIZE
    requires forall i :: 0 <= i < |w| ==> w[i] == ByteIn(content, TotalLen(runs) * BLOCK_SIZE + i)
    ensures if InRun(r, x / BLOCK_SIZE)
            then Count(c, x) == Count(b, x) + 1 && Sum(c, x) == Sum(b, x) + PlacedByte(runs + [r], content, x) as int
            else
              && Count(c, x) == Count(b, x) && Sum(c, x) == Sum(b, x)
              && PlacedByte(runs + [r], content, x) == PlacedByte(runs, content, x)
  {
    hide PlacedByte, TotalLen, ByteIn;
    PlacedStep(runs, r, content, x);
    BlockOf(x, r.start, r.End());
  }

  lemma RunFilled(a: seq<Emission>, b: seq<Emission>, c: seq<Emission>, runs: seq<Run>, r: Run, content: seq<byte>,
                  w: seq<byte>)
    requires FillsRuns(a, b, runs, content) && Writes(b, c, r.start * BLOCK_SIZE, w) && |w| == r.len * BLOCK_SIZE
    requires forall k :: InRun(r, k) ==> !InRuns(runs, k)
    requires forall i :: 0 <= i < |w| ==> w[i] == ByteIn(content, TotalLen(runs) * BLOCK_SIZE + i)
    ensures FillsRuns(a, c, runs + [r], content)
  {
    hide PlacedByte, InRuns, TotalLen, Writes, ByteIn, InRun;
    var now := runs + [r];
    forall x
      ensures Count(c, x) == Count(a, x) + if InRuns(now, x / BLOCK_SIZE) then 1 else 0
      ensures Sum(c, x) == Sum(a, x) + if InRuns(now, x / BLOCK_SIZE) then PlacedByte(now, content, x) as int else 0
    {
      RunAdds(b, c, runs, r, content, w, x);
      InRunsStep(runs, r, x / BLOCK_SIZE);
    }
  }

  lemma {:induction false} PrefixLen(runs: seq<Run>, i: nat)
    requires i <= |runs|
    ensures TotalLen(runs[..i]) <= TotalLen(runs)
            && (i < |runs| ==> TotalLen(runs[..i]) + runs[i].len <= TotalLen(runs))
    ensures PositiveRuns(runs) && i + 1 < |runs| ==> TotalLen(runs[..i]) + runs[i].len < TotalLen(runs)
    decreases |runs|
  {
    if i == |runs| {
      assert runs[..i] == runs;
    } else {
      var k := |runs| - 1;
      if i < k {
        assert runs[..k][..i] == runs[..i];
        PrefixLen(runs[..k], i);
      }
    }
  }

  /** Each run's share is exactly its blocks. */
  lemma ShareFillsRun(runs: seq<Run>, size: nat, content: seq<byte>, i: nat)
    requires PositiveRuns(runs) && FitsRuns(runs, size) && i < |runs|
    ensures var done := TotalLen(runs[..i]) * BLOCK_SIZE;
            var n := if runs[i].len * BLOCK_SIZE < size - done then runs[i].len * BLOCK_SIZE else size - done;
            && done <= size && 0 <= n
            && (done + n <= |content|
               ==> |Share(content, done, n, runs[i].start * BLOCK_SIZE)| == runs[i].len * BLOCK_SIZE)
            && (i + 1 < |runs| ==> n == runs[i].len * BLOCK_SIZE)
            && (i + 1 == |runs| ==> done + n == size)
  {
    PrefixLen(runs, i);
    if i + 1 == |runs| { assert runs[..|runs| - 1] == runs[..i]; }
    var done := TotalLen(runs[..i]) * BLOCK_SIZE;
    var n := if runs[i].len * BLOCK_SIZE < size - done then runs[i].len * BLOCK_SIZE else size - done;
    PadCompletes(runs[i].start, n, runs[i].len);
  }

  lemma PadCompletes(start: nat, n: nat, len: nat)
    ensures (len - 1) * BLOCK_SIZE < n <= len * BLOCK_SIZE ==> n + PadAfter(start * BLOCK_SIZE + n) == len * BLOCK_SIZE
  {
  }

  /** Where each run lies: apart from the others, inside the device. */
  predicate Placeable(f: File, totalBlocks: nat) {
    && PositiveRuns(f.runs) && DisjointRuns(f.runs) && FitsRuns(f.runs, f.size)
    && forall i :: 0 <= i < |f.runs| ==> f.runs[i].End() <= totalBlocks
  }

  lemma EarlierRunsApart(runs: seq<Run>, i: nat)
    requires DisjointRuns(runs) && i < |runs|
    ensures forall k :: InRun(runs[i], k) ==> !InRuns(runs[..i], k)
  {
  }

  /** The bytes of a run's share, in terms of the whole content. */
  lemma ShareBytes(content: seq<byte>, pos: nat, n: nat, offset: nat, size: nat)
    requires pos + n <= size == |content|
    requires pos + n == size || PadAfter(offset + n) == 0
    ensures var w := Share(content, pos, n, offset);
            forall i :: 0 <= i < |w| ==> w[i] == ByteIn(content, pos + i)
  {
  }

  /**
    Fills a file from a stream: the first `size` bytes of what the stream gives are placed over its runs,
    and the rest of its last block is zeroed. Fails exactly when the stream is short.
  */
  method FillInner(e: Emitter, f: File, totalBlocks: nat, stream: seq<byte>) returns (ok: bool)
    requires Placeable(f, totalBlocks) && (totalBlocks + 1) * BLOCK_SIZE < 0x1_0000_0000_0000_0000
    modifies e
    ensures ok <==> f.size <= |stream|
    ensures ok ==> FillsWithin(old(e.emitted), e.emitted, f.runs, stream[..f.size], totalBlocks)
  {
    hide FillsWithin, Writes, Share, FitsRuns, PositiveRuns, DisjointRuns;
    var remaining: nat := f.size;
    var done: nat := 0;
    FillsNone(e.emitted, totalBlocks);
    NoRuns(f);
    assert f.runs[..0] == [];
    var short := |stream| < f.size;
    ghost var content := if short then [] else stream[..f.size];
    for i := 0 to |f.runs|
      invariant done + remaining == f.size && done <= |stream|
      invariant done == if i < |f.runs| then TotalLen(f.runs[..i]) * BLOCK_SIZE else f.size as int
      invariant !short ==> FillsWithin(old(e.emitted), e.emitted, f.runs[..i], content, totalBlocks)
    {
      var r := f.runs[i];
      ShareFillsRun(f.runs, f.size, stream, i);
      var n := if r.len * BLOCK_SIZE < remaining then r.len * BLOCK_SIZE else remaining;
      ghost var before := e.emitted;
      assert r.End() <= totalBlocks;
      ok := FillRun(e, r.start * BLOCK_SIZE, n, stream, done);
      if !ok { return false; }
      if !short {
        RunStep(f, i, old(e.emitted), before, e.emitted, stream, done, n, totalBlocks);
      }
      NextDone(f.runs, i);
      done := done + n;
      remaining := remaining - n;
    }
    assert f.runs[..|f.runs|] == f.runs;
    return true;
  }

  /** The runs' blocks were added with the content, and nothing reaches past the device. */
  ghost predicate FillsWithin(before: seq<Emission>, after: seq<Emission>, runs: seq<Run>, content: seq<byte>,
                              totalBlocks: nat) {
    FillsRuns(before, after, runs, content) && Length(after) <= Max(Length(before), totalBlocks * BLOCK_SIZE)
  }

  lemma FillsNone(a: seq<Emission>, totalBlocks: nat)
    ensures forall c: seq<byte> :: FillsWithin(a, a, [], c, totalBlocks)
  {
  }

  lemma LengthGrows(a: seq<Emission>, b: seq<Emission>, lo: int, w: seq<byte>)
    requires Writes(a, b, lo, w)
    ensures Length(b) <= Max(Length(a), lo + |w|)
  {
  }

  lemma NoRuns(f: File)
    requires FitsRuns(f.runs, f.size)
    ensures f.runs == [] ==> f.size == 0 && TotalLen([]) == 0
  {
  }

  lemma NextDone(runs: seq<Run>, i: nat)
    requires i < |runs|
    ensures TotalLen(runs[..i + 1]) == TotalLen(runs[..i]) + runs[i].len
  {
    assert runs[..i + 1][..i] == runs[..i] && runs[..i + 1][i] == runs[i];
  }

  lemma RunStep(f: File, i: nat, a: seq<Emission>, b: seq<Emission>, c: seq<Emission>, stream: seq<byte>, done: nat,
                n: nat, totalBlocks: nat)
    requires i < |f.runs| && f.runs[i].End() <= totalBlocks && PositiveRuns(f.runs) && DisjointRuns(f.runs)
             && FitsRuns(f.runs, f.size) && f.size <= |stream|
    requires done == TotalLen(f.runs[..i]) * BLOCK_SIZE && done <= f.size
    requires n == if f.runs[i].len * BLOCK_SIZE < f.size - done then f.runs[i].len * BLOCK_SIZE else f.size - done
    requires FillsWithin(a, b, f.runs[..i], stream[..f.size], totalBlocks)
    requires Writes(b, c, f.runs[i].start * BLOCK_SIZE, Share(stream, done, n, f.runs[i].start * BLOCK_SIZE))
    ensures FillsWithin(a, c, f.runs[..i + 1], stream[..f.size], totalBlocks)
  {
    hide FillsRuns, Writes, FitsRuns, PositiveRuns, DisjointRuns, Share;
    var r, content := f.runs[i], stream[..f.size];
    var offset: nat := r.start * BLOCK_SIZE;
    ShareFillsRun(f.runs, f.size, stream, i);
    ShareFillsRun(f.runs, f.size, content, i);
    EarlierRunsApart(f.runs, i);
    ShareOfPrefix(stream, f.size, done, n, offset);
    LengthGrows(b, c, offset, Share(content, done, n, offset));
    if i + 1 < |f.runs| { WholeBlocks(r.start, r.len); }
    ShareBytes(content, done, n, offset, f.size);
    RunFilled(a, b, c, f.runs[..i], r, content, Share(content, done, n, offset));
    assert f.runs[..i + 1] == f.runs[..i] + [r];
  }

  lemma WholeBlocks(start: nat, len: nat)
    ensures PadAfter(start * BLOCK_SIZE + len * BLOCK_SIZE) == 0
  {
  }

  lemma ShareOfPrefix(stream: seq<byte>, size: nat, pos: nat, n: nat, offset: nat)
    requires pos + n <= size <= |stream|
    ensures Share(stream, pos, n, offset) == Share(stream[..size], pos, n, offset)
  {
  }

  // ----- the writer -----

  datatype FillState = NotFillable | Pending | Done

  predicate Fillable(f: File) {
    !f.dropped && f.runs != []
  }

  /** How many of the first `k` files are done and have `block` among their runs. */
  ghost function FilledAt(files: seq<File>, states: seq<FillState>, block: int, k: nat): nat
    requires k <= |files| == |states|
  {
    if k == 0 then 0
    else
      FilledAt(files, states, block, k - 1)
      + if states[k - 1] == Done && InRuns(files[k - 1].runs, block) then 1 else 0
  }

  /** What the files that are done have put at `x`. */
  ghost function FilledSum(files: seq<File>, states: seq<FillState>, contents: seq<seq<byte>>, x: int, k: nat): nat
    requires k <= |files| == |states| == |contents|
  {
    if k == 0 then 0
    else FilledSum(files, states, contents, x, k - 1)
         + if states[k - 1] == Done
           && InRuns(files[k - 1].runs, x / BLOCK_SIZE) then PlacedByte(files[k - 1].runs, contents[k - 1], x) as int
              else 0
  }

  /** How many fillable files among the first `k` own `block`. */
  ghost function OwnedAt(files: seq<File>, block: int, k: nat): nat
    requires k <= |files|
  {
    if k == 0 then 0
    else OwnedAt(files, block, k - 1) + if Fillable(files[k - 1]) && InRuns(files[k - 1].runs, block) then 1 else 0
  }

  /**
    What sealing a layout establishes: the data runs are the files' runs, each owned once, on the
    device and apart from the segments. Segments need not lie on the device: backup copies in a short
    last group can pass its end.
  */
  ghost predicate Sealed(l: Layout) {
    && Laid(l) && (l.totalBlocks + 1) * BLOCK_SIZE < 0x1_0000_0000_0000_0000
    && (forall s :: 0 <= s < |l.files| && Fillable(l.files[s]) ==> Placeable(l.files[s], l.totalBlocks))
    && (forall b :: OwnedAt(l.files, b, |l.files|) == if InRuns(l.dataRuns, b) then 1 else 0)
    && (forall b :: InRuns(l.dataRuns, b) ==> 0 <= b < l.totalBlocks && !InSegments(l.segments, b))
  }

  function Starting(files: seq<File>): (r: seq<FillState>)
    ensures |r| == |files|
  {
    seq(|files|, i requires 0 <= i < |files| => if Fillable(files[i]) then Pending else NotFillable)
  }

  /** Exactly the fillable files are pending or done. */
  predicate Tracks(files: seq<File>, states: seq<FillState>) {
    |files| == |states| && forall i :: 0 <= i < |states| ==> (states[i] == NotFillable <==> !Fillable(files[i]))
  }

  function PendingIn(states: seq<FillState>): nat {
    if states == [] then 0 else PendingIn(states[..|states| - 1]) + if states[|states| - 1] == Pending then 1 else 0
  }

  lemma {:induction false} PendingUpdate(states: seq<FillState>, slot: nat)
    requires slot < |states| && states[slot] == Pending
    ensures PendingIn(states) == PendingIn(states[slot := Done]) + 1
    decreases states
  {
    var k := |states| - 1;
    var after := states[slot := Done];
    if slot < k {
      PendingUpdate(states[..k], slot);
      assert after[..k] == states[..k][slot := Done];
    } else {
      assert after[..k] == states[..k];
    }
  }

  lemma {:induction false} FilledUpdate(files: seq<File>, states: seq<FillState>, slot: nat, block: int, k: nat)
    requires slot < |states| == |files| && states[slot] != Done && k <= |files|
    ensures FilledAt(files, states[slot := Done], block, k)
            == FilledAt(files, states, block, k) + if slot < k && InRuns(files[slot].runs, block) then 1 else 0
    decreases k
  {
    if 0 < k { FilledUpdate(files, states, slot, block, k - 1); }
  }

  lemma {:induction false} SumUpdate(files: seq<File>, states: seq<FillState>, contents: seq<seq<byte>>, slot: nat,
                                     content: seq<byte>, x: int, k: nat)
    requires slot < |states| == |files| == |contents| && states[slot] != Done && k <= |files|
    ensures FilledSum(files, states[slot := Done], contents[slot := content], x, k)
            == FilledSum(files, states, contents, x, k)
               + if slot < k && InRuns(files[slot].runs, x / BLOCK_SIZE)
                 then PlacedByte(files[slot].runs, content, x) as int else 0
    decreases k
  {
    hide PlacedByte, InRuns;
    if 0 < k { SumUpdate(files, states, contents, slot, content, x, k - 1); }
  }

  lemma {:induction false} NonePending(states: seq<FillState>, i: nat)
    requires i < |states| && PendingIn(states) == 0
    ensures states[i] != Pending
    decreases states
  {
    if i < |states| - 1 { NonePending(states[..|states| - 1], i); }
  }

  /** Once nothing is pending, the files that are done are exactly the fillable ones. */
  lemma AllDone(files: seq<File>, states: seq<FillState>)
    requires Tracks(files, states) && PendingIn(states) == 0
    ensures forall i :: 0 <= i < |states| ==> (states[i] == Done <==> Fillable(files[i]))
  {
    forall i | 0 <= i < |states| ensures states[i] != Pending { NonePending(states, i); }
  }

  lemma {:induction false} AllFilled(files: seq<File>, states: seq<FillState>, block: int, k: nat)
    requires k <= |files| == |states| && forall i :: 0 <= i < |states| ==> (states[i] == Done <==> Fillable(files[i]))
    ensures FilledAt(files, states, block, k) == OwnedAt(files, block, k)
    decreases k
  {
    if 0 < k { AllFilled(files, states, block, k - 1); }
  }

  lemma {:induction false} NoneDone(files: seq<File>, states: seq<FillState>, contents: seq<seq<byte>>, x: int, k: nat)
    requires k <= |files| == |states| == |contents| && forall i :: 0 <= i < |states| ==> states[i] != Done
    ensures FilledAt(files, states, x / BLOCK_SIZE, k) == 0 && FilledSum(files, states, contents, x, k) == 0
    decreases k
  {
    if 0 < k { NoneDone(files, states, contents, x, k - 1); }
  }

  method CountPending(states: seq<FillState>) returns (n: nat)
    ensures n == PendingIn(states)
  {
    n := 0;
    assert states[..0] == [];
    for i := 0 to |states|
      invariant n == PendingIn(states[..i])
    {
      assert states[..i + 1][..i] == states[..i];
      if states[i] == Pending { n := n + 1; }
    }
    assert states[..|states|] == states;
  }

  /** Everything emitted so far: the metadata, and the blocks of the files that are done with their contents. */
  ghost predicate Accounts(emitted: seq<Emission>, l: Layout, states: seq<FillState>, contents: seq<seq<byte>>)
    requires |states| == |l.files| == |contents| && AllSound(l.segments)
  {
    && (forall x ::
         Count(emitted, x) == (if Metadata(l, x) then 1 else 0) + FilledAt(l.files, states, x / BLOCK_SIZE, |l.files|))
    && (forall x ::
         Sum(emitted, x) == SegmentByte(l.segments, x) as int + FilledSum(l.files, states, contents, x, |l.files|))
    && Length(emitted) <= Reach(l) * BLOCK_SIZE
  }

  // ----- the laid-out image -----

  /** The byte of the first fillable file, counting from the last, whose runs hold `x`. */
  ghost function OwnerByte(files: seq<File>, contents: seq<seq<byte>>, x: int, k: nat): byte
    requires k <= |files| == |contents|
  {
    if k == 0 then 0
    else if Fillable(files[k - 1])
      && InRuns(files[k - 1].runs, x / BLOCK_SIZE) then PlacedByte(files[k - 1].runs, contents[k - 1], x)
    else OwnerByte(files, contents, x, k - 1)
  }

  /** The byte that a layout filled with `contents` has at `x`. */
  ghost function ImageByte(l: Layout, contents: seq<seq<byte>>, x: int): byte
    requires AllSound(l.segments) && |l.files| == |contents|
  {
    if InSegments(l.segments, x / BLOCK_SIZE) then SegmentByte(l.segments, x)
    else OwnerByte(l.files, contents, x, |l.files|)
  }

  /** The image of a layout filled with `contents`. */
  ghost function ImageOf(l: Layout, contents: seq<seq<byte>>): (r: seq<byte>)
    requires AllSound(l.segments) && |l.files| == |contents|
    ensures |r| == l.totalBlocks * BLOCK_SIZE
  {
    seq(l.totalBlocks * BLOCK_SIZE, x requires 0 <= x => ImageByte(l, contents, x))
  }

  lemma {:induction false} OwnsAtLeast(files: seq<File>, block: int, k: nat, s: nat, t: nat)
    requires k <= |files| && s < k && Fillable(files[s]) && InRuns(files[s].runs, block)
    requires t < k && Fillable(files[t]) && InRuns(files[t].runs, block)
    ensures (if s == t then 1 else 2) <= OwnedAt(files, block, k)
    decreases k
  {
    var a, b := if s < k - 1 then s else t, if t < k - 1 then t else s;
    if s < k - 1 || t < k - 1 { OwnsAtLeast(files, block, k - 1, a, b); }
  }

  lemma {:induction false} UnownedByte(files: seq<File>, contents: seq<seq<byte>>, x: int, k: nat)
    requires k <= |files| == |contents| && OwnedAt(files, x / BLOCK_SIZE, k) == 0
    ensures OwnerByte(files, contents, x, k) == 0
    decreases k
  {
    if 0 < k { UnownedByte(files, contents, x, k - 1); }
  }

  lemma {:induction false} OwnedByte(files: seq<File>, contents: seq<seq<byte>>, x: int, k: nat, s: nat)
    requires k <= |files| == |contents| && OwnedAt(files, x / BLOCK_SIZE, k) <= 1
    requires s < k && Fillable(files[s]) && InRuns(files[s].runs, x / BLOCK_SIZE)
    ensures OwnerByte(files, contents, x, k) == PlacedByte(files[s].runs, contents[s], x)
    decreases k
  {
    hide PlacedByte, InRuns;
    if s < k - 1 {
      OwnsAtLeast(files, x / BLOCK_SIZE, k - 1, s, s);
      OwnedByte(files, contents, x, k - 1, s);
    }
  }

  /** The image holds every segment where it lies. */
  lemma ImageOfSegment(l: Layout, contents: seq<seq<byte>>, i: nat, x: int)
    requires Sealed(l) && |l.files| == |contents| && i < |l.segments| && Spans(l.segments[i], x / BLOCK_SIZE)
    ensures 0 <= x - l.segments[i].block * BLOCK_SIZE < |SegmentBytes(l.segments[i])|
    ensures ImageByte(l, contents, x) == SegmentBytes(l.segments[i])[x - l.segments[i].block * BLOCK_SIZE]
  {
    SegmentLength(l.segments[i]);
    hide SegmentBytes;
    InsideSegment(l.segments, i, x);
  }

  /** The image holds every file over its runs. */
  lemma ImageOfFile(l: Layout, contents: seq<seq<byte>>, s: nat, x: int)
    requires Sealed(l) && |l.files| == |contents| && s < |l.files| && Fillable(l.files[s])
             && InRuns(l.files[s].runs, x / BLOCK_SIZE)
    ensures 0 <= x < l.totalBlocks * BLOCK_SIZE
    ensures ImageByte(l, contents, x) == PlacedByte(l.files[s].runs, contents[s], x)
  {
    var block := x / BLOCK_SIZE;
    OwnsAtLeast(l.files, block, |l.files|, s, s);
    assert InRuns(l.dataRuns, block);
    hide PlacedByte, InSegments;
    OwnedByte(l.files, contents, x, |l.files|, s);
  }

  /** Everywhere else the image is zero. */
  lemma ImageElsewhere(l: Layout, contents: seq<seq<byte>>, x: int)
    requires Sealed(l) && |l.files| == |contents| && !InSegments(l.segments, x / BLOCK_SIZE)
             && !InRuns(l.dataRuns, x / BLOCK_SIZE)
    ensures ImageByte(l, contents, x) == 0
  {
    UnownedByte(l.files, contents, x, |l.files|);
  }

  class ImageWriter {
    const layout: Layout
    const sink: Emitter
    var states: seq<FillState>
    var pending: nat
    var poisoned: bool
    /** What each file was filled with. */
    ghost var contents: seq<seq<byte>>

    ghost predicate Valid()
      reads this, sink
    {
      && Sealed(layout) && Tracks(layout.files, states) && pending == PendingIn(states) && |contents| == |states|
      && (forall i :: 0 <= i < |states| && states[i] == Done ==> |contents[i]| == layout.files[i].size)
      && (!poisoned ==> Accounts(sink.emitted, layout, states, contents))
    }

    /** The metadata pass runs first. */
    constructor (l: Layout)
      requires Sealed(l)
      ensures Valid() && !poisoned && layout == l && states == Starting(l.files) && fresh(sink)
    {
      layout := l;
      sink := new Emitter();
      states := Starting(l.files);
      pending := 0;
      poisoned := false;
      contents := seq(|l.files|, _ => []);
      new;
      EmitMetadata(sink, l);
      pending := CountPending(states);
      MetadataOnly(sink.emitted, l, states, contents);
    }

    /** Fills one pending file; a short stream poisons the writer, any other refusal changes nothing. */
    method Fill(slot: nat, stream: seq<byte>) returns (ok: bool)
      requires Valid()
      modifies this, sink
      ensures Valid()
      ensures ok <==>
                && !old(poisoned) && slot < |old(states)| && old(states[slot]) == Pending
                && layout.files[slot].size <= |stream|
      ensures ok ==> !poisoned && states == old(states)[slot := Done] && pending == old(pending) - 1
      ensures ok ==> FillsRuns(old(sink.emitted), sink.emitted, layout.files[slot].runs,
              stream[..layout.files[slot].size])
      ensures contents == if ok then old(contents)[slot := stream[..layout.files[slot].size]] else old(contents)
      ensures !ok ==> states == old(states) && pending == old(pending)
      ensures !ok && !old(poisoned) && poisoned ==> slot < |states| && states[slot] == Pending
      ensures !ok && poisoned == old(poisoned) ==> sink.emitted == old(sink.emitted)
    {
      hide Sealed, FillsRuns, Placeable, Accounts;
      if poisoned { return false; }
      if slot >= |states| || states[slot] != Pending { return false; }
      SealedFile(layout, slot);
      ghost var before := sink.emitted;
      ok := FillInner(sink, layout.files[slot], layout.totalBlocks, stream);
      if ok {
        PendingUpdate(states, slot);
        FileAccounted(before, sink.emitted, layout, states, contents, slot, stream[..layout.files[slot].size]);
        contents := contents[slot := stream[..layout.files[slot].size]];
        states := states[slot := Done];
        pending := pending - 1;
      } else {
        poisoned := true;
      }
    }

    /**
      Succeeds once every file is filled and no fill has failed. Every byte up to the reach of the
      layout was then emitted exactly once and is the image's byte; the image length is that reach,
      and so the contract of the sink is met, exactly when every segment lies on the device.
    */
    method Finish() returns (r: Option<u64>)
      requires Valid()
      ensures r.Some? <==> !poisoned && pending == 0
      ensures r.Some? ==> r.value == layout.totalBlocks * BLOCK_SIZE
      ensures r.Some? ==>
                ExactlyOnce(sink.emitted, Reach(layout) * BLOCK_SIZE)
                && Length(sink.emitted) == Reach(layout) * BLOCK_SIZE
      ensures r.Some? ==> forall x ::
                0 <= x < Reach(layout) * BLOCK_SIZE ==> Sum(sink.emitted, x) == ImageByte(layout, contents, x) as int
      ensures r.Some? ==> (ExactlyOnce(sink.emitted, r.value) <==> SegmentsOnDevice(layout))
      ensures r.Some? ==> forall s ::
                0 <= s < |contents| && Fillable(layout.files[s]) ==> |contents[s]| == layout.files[s].size
    {
      hide Accounts;
      if poisoned || pending > 0 { return None; }
      AllDone(layout.files, states);
      AllAccounted(sink.emitted, layout, states, contents);
      PassesOnDevice(sink.emitted, layout);
      return Some(layout.totalBlocks * BLOCK_SIZE);
    }
  }

  lemma SealedFile(l: Layout, slot: nat)
    requires Sealed(l) && slot < |l.files| && Fillable(l.files[slot])
    ensures Placeable(l.files[slot], l.totalBlocks) && (l.totalBlocks + 1) * BLOCK_SIZE < 0x1_0000_0000_0000_0000
    ensures l.totalBlocks <= Reach(l) && AllSound(l.segments)
  {
  }

  lemma MetadataOnly(emitted: seq<Emission>, l: Layout, states: seq<FillState>, contents: seq<seq<byte>>)
    requires |states| == |l.files| == |contents| && AllSound(l.segments)
             && EmittedTo(emitted, l, |l.segments|, Reach(l))
    requires forall i :: 0 <= i < |states| ==> states[i] != Done
    ensures Accounts(emitted, l, states, contents)
  {
    assert l.segments[..|l.segments|] == l.segments;
    hide Reach, SegmentByte;
    forall x
      ensures FilledAt(l.files, states, x / BLOCK_SIZE, |l.files|) == 0
      ensures FilledSum(l.files, states, contents, x, |l.files|) == 0
    {
      NoneDone(l.files, states, contents, x, |l.files|);
    }
  }

  lemma FileAccounted(a: seq<Emission>, b: seq<Emission>, l: Layout, states: seq<FillState>,
                      contents: seq<seq<byte>>, slot: nat, content: seq<byte>)
    requires slot < |states| == |l.files| == |contents| && states[slot] == Pending && AllSound(l.segments)
    requires l.totalBlocks <= Reach(l) && Accounts(a, l, states, contents)
    requires FillsWithin(a, b, l.files[slot].runs, content, l.totalBlocks)
    ensures Accounts(b, l, states[slot := Done], contents[slot := content])
  {
    hide Metadata, SegmentByte, PlacedByte, InRuns, Reach;
    var n, done, now := |l.files|, states[slot := Done], contents[slot := content];
    forall x
      ensures Count(b, x) == (if Metadata(l, x) then 1 else 0) + FilledAt(l.files, done, x / BLOCK_SIZE, n)
      ensures Sum(b, x) == SegmentByte(l.segments, x) as int + FilledSum(l.files, done, now, x, n)
    {
      FilledUpdate(l.files, states, slot, x / BLOCK_SIZE, n);
      SumUpdate(l.files, states, contents, slot, content, x, n);
    }
  }

  lemma {:induction false} SumIsOwner(files: seq<File>, states: seq<FillState>, contents: seq<seq<byte>>, x: int,
                                      k: nat)
    requires k <= |files| == |states| == |contents|
             && forall i :: 0 <= i < |states| ==> (states[i] == Done <==> Fillable(files[i]))
    requires OwnedAt(files, x / BLOCK_SIZE, k) <= 1
    ensures FilledSum(files, states, contents, x, k) == OwnerByte(files, contents, x, k) as int
    decreases k
  {
    hide PlacedByte, InRuns;
    if 0 < k {
      SumIsOwner(files, states, contents, x, k - 1);
      if Fillable(files[k - 1]) && InRuns(files[k - 1].runs, x / BLOCK_SIZE) {
        UnownedByte(files, contents, x, k - 1);
      }
    }
  }

  /** With all files done, each byte was emitted once and is the image's. */
  lemma ByteAccounted(emitted: seq<Emission>, l: Layout, states: seq<FillState>, contents: seq<seq<byte>>, x: int)
    requires Sealed(l) && Tracks(l.files, states) && |contents| == |states| && PendingIn(states) == 0
             && Accounts(emitted, l, states, contents)
    ensures Count(emitted, x) == if 0 <= x < Reach(l) * BLOCK_SIZE then 1 else 0
    ensures Sum(emitted, x) == ImageByte(l, contents, x) as int
  {
    var n, block := |l.files|, x / BLOCK_SIZE;
    assert OwnedAt(l.files, block, n) == if InRuns(l.dataRuns, block) then 1 else 0;
    assert InRuns(l.dataRuns, block) ==> 0 <= block < l.totalBlocks && !InSegments(l.segments, block);
    BlockOf(x, 0, l.totalBlocks);
    SealedReach(l);
    AllDone(l.files, states);
    hide Sealed, Reach, InRuns, InSegments, Tracks, PendingIn;
    AllFilled(l.files, states, block, n);
    SumIsOwner(l.files, states, contents, x, n);
    if InSegments(l.segments, block) {
      UnownedByte(l.files, contents, x, n);
    } else {
      OutsideSegments(l.segments, x);
    }
  }

  lemma SealedReach(l: Layout)
    requires Sealed(l)
    ensures l.totalBlocks <= Reach(l) && AllSound(l.segments)
  {
  }

  lemma AllAccounted(emitted: seq<Emission>, l: Layout, states: seq<FillState>, contents: seq<seq<byte>>)
    requires Sealed(l) && Tracks(l.files, states) && |contents| == |states| && PendingIn(states) == 0
             && Accounts(emitted, l, states, contents)
    ensures forall x :: Count(emitted, x) == if 0 <= x < Reach(l) * BLOCK_SIZE then 1 else 0
    ensures forall x :: Sum(emitted, x) == ImageByte(l, contents, x) as int
    ensures Length(emitted) == Reach(l) * BLOCK_SIZE
  {
    forall x
      ensures Count(emitted, x) == if 0 <= x < Reach(l) * BLOCK_SIZE then 1 else 0
      ensures Sum(emitted, x) == ImageByte(l, contents, x) as int
    {
      ByteAccounted(emitted, l, states, contents, x);
    }
    NothingEmitted(emitted, Reach(l) * BLOCK_SIZE - 1);
  }

  // ----- segments and the device -----

  /** Every segment ends on the device. */
  predicate SegmentsOnDevice(l: Layout) {
    forall i :: 0 <= i < |l.segments| ==> l.segments[i].End() <= l.totalBlocks
  }

  lemma ReachOfDevice(l: Layout)
    requires Laid(l)
    ensures l.totalBlocks <= Reach(l) && (Reach(l) == l.totalBlocks <==> SegmentsOnDevice(l))
  {
    forall i | 0 <= i < |l.segments| ensures l.segments[i].End() <= Reach(l) { SegmentWithinReach(l, i); }
  }

  lemma PassesOnDevice(run: seq<Emission>, l: Layout)
    requires Laid(l) && forall x :: Count(run, x) == if 0 <= x < Reach(l) * BLOCK_SIZE then 1 else 0
    ensures l.totalBlocks <= Reach(l)
    ensures ExactlyOnce(run, Reach(l) * BLOCK_SIZE)
            && (ExactlyOnce(run, l.totalBlocks * BLOCK_SIZE) <==> SegmentsOnDevice(l))
  {
    ReachOfDevice(l);
    hide Reach, SegmentsOnDevice;
    assert Count(run, l.totalBlocks * BLOCK_SIZE) == if l.totalBlocks < Reach(l) then 1 else 0;
  }

  /**
    A finished writer's calls, run through the checking sink: they pass exactly when the image is not
    empty and every segment lies on the device, and the buffer is then the laid-out image. It depends
    on what each file was filled with, and not on the order of the fills.
  */
  method CheckedImage(w: ImageWriter) returns (image: Option<seq<byte>>)
    requires w.Valid() && !w.poisoned && w.pending == 0
    ensures image.Some? <==> 0 < w.layout.totalBlocks && SegmentsOnDevice(w.layout)
    ensures image.Some? ==> image.value == ImageOf(w.layout, w.contents)
  {
    hide Accounts;
    var run := w.sink.emitted;
    AllAccounted(run, w.layout, w.states, w.contents);
    PassesOnDevice(run, w.layout);
    ReachOfDevice(w.layout);
    hide SegmentsOnDevice, Reach, ExactlyOnce, ImageByte;
    LengthIsMaximum(run);
    image := CheckedRun(run, w.layout.totalBlocks * BLOCK_SIZE);
  }
}
