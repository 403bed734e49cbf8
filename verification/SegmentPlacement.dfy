/**
  Where sealing puts the segments (`seal` in `src/build/seal.rs`), and when the writer's output
  contract (`src/sink.rs`) is met by the image of an accepted geometry.
*/
module SegmentPlacement {
  import opened Bytes
  import opened Writer
  import opened Allocator
  import opened Sink
  import Geometry

  // ----- what sealing pushes -----

  /**
    What goes into the list besides the backups: segments over blocks that an allocator handed out, before
    and after them, the superblock's block and the descriptor table, and the superblock as group `k` holds it.
  */
  datatype Rendered = Rendered(before: seq<Segment>, block0: seq<byte>, table: seq<byte>, copy: u32 -> seq<byte>,
                               after: seq<Segment>)

  /** The group's copy of the superblock, and of the descriptor table behind it. */
  function Copies(g: Geometry.Geometry, p: Rendered, k: u32): seq<Segment> {
    [Segment(g.GroupStart(k), 1, Whole(p.copy(k))), Segment(g.GroupStart(k) + 1, g.gdtBlocks, Whole(p.table))]
  }

  function AllCopies(g: Geometry.Geometry, p: Rendered, groups: seq<u32>): seq<Segment> {
    if groups == [] then [] else AllCopies(g, p, groups[..|groups| - 1]) + Copies(g, p, groups[|groups| - 1])
  }

  function Primary(g: Geometry.Geometry, p: Rendered): seq<Segment> {
    [Segment(0, 1, Whole(p.block0)), Segment(1, g.gdtBlocks, Whole(p.table))]
  }

  function AllSegments(g: Geometry.Geometry, p: Rendered, groups: seq<u32>): seq<Segment> {
    p.before + Primary(g, p) + AllCopies(g, p, groups) + p.after
  }

  /** All backup groups and no other, ascending. */
  ghost predicate BackupList(g: Geometry.Geometry, groups: seq<u32>) {
    && (forall i, j :: 0 <= i < j < |groups| ==> groups[i] < groups[j])
    && (forall k: u32 :: k in groups <==> k < g.groups && Geometry.Backup(k))
  }

  method PushSegments(g: Geometry.Geometry, p: Rendered) returns (r: seq<Segment>, groups: seq<u32>)
    requires g.groups < 0x1_0000_0000
    ensures BackupList(g, groups) && r == AllSegments(g, p, groups)
  {
    groups := Geometry.BackupGroups(g.groups);
    r := p.before + Primary(g, p);
    assert groups[..0] == [];
    for i := 0 to |groups|
      invariant r == p.before + Primary(g, p) + AllCopies(g, p, groups[..i])
    {
      assert groups[..i + 1][..i] == groups[..i];
      AppendAssociates(p.before + Primary(g, p), AllCopies(g, p, groups[..i]), Copies(g, p, groups[i]));
      r := r + Copies(g, p, groups[i]);
    }
    assert groups[..|groups|] == groups;
    r := r + p.after;
  }

  /** All of the segment's blocks were handed out by one allocator of a device of `blocks` blocks. */
  ghost predicate HandedOut(s: Segment, blocks: nat) {
    0 < s.len && exists lo: nat, reserved: seq<Run> :: forall b ::
      Spans(s, b) ==> 0 <= b && b in FreeFrom(lo, blocks, reserved)
  }

  /** The layout's segments are those that sealing pushes, in whatever order. */
  ghost predicate Pushed(l: Layout, g: Geometry.Geometry, p: Rendered, groups: seq<u32>) {
    && l.totalBlocks == g.blocks && BackupList(g, groups)
    && (forall i :: 0 <= i < |p.before| ==> HandedOut(p.before[i], g.blocks))
    && (forall i :: 0 <= i < |p.after| ==> HandedOut(p.after[i], g.blocks))
    && multiset(l.segments) == multiset(AllSegments(g, p, groups))
  }

  // ----- where they lie -----

  /** The copy of the superblock or of the descriptor table in backup group `k`. */
  ghost predicate IsCopy(s: Segment, g: Geometry.Geometry, k: nat) {
    && k < g.groups && Geometry.Backup(k)
    && ((s.block == g.GroupStart(k) && s.len == 1) || (s.block == g.GroupStart(k) + 1 && s.len == g.gdtBlocks))
  }

  ghost predicate HasTableCopy(l: Layout, g: Geometry.Geometry, k: nat) {
    exists i :: 0 <= i < |l.segments| && l.segments[i].block == g.GroupStart(k) + 1 && l.segments[i].len == g.gdtBlocks
  }

  /** Every backup group has its copies at its start, and every other segment lies on the device. */
  ghost predicate Placed(l: Layout, g: Geometry.Geometry) {
    && l.totalBlocks == g.blocks
    && (forall i ::
         0 <= i < |l.segments| ==> l.segments[i].End() <= g.blocks || exists k: nat :: IsCopy(l.segments[i], g, k))
    && (forall k: nat :: k < g.groups && Geometry.Backup(k) ==> HasTableCopy(l, g, k))
  }

  lemma HandedOutOnDevice(s: Segment, blocks: nat)
    requires HandedOut(s, blocks)
    ensures s.End() <= blocks
  {
    var lo: nat, reserved: seq<Run> :| forall b :: Spans(s, b) ==> 0 <= b && b in FreeFrom(lo, blocks, reserved);
    assert Spans(s, s.End() - 1);
    FreeFromIsFreeSet(lo, blocks, reserved);
  }

  lemma {:induction false} CopiesHold(g: Geometry.Geometry, p: Rendered, groups: seq<u32>)
    ensures forall s :: s in AllCopies(g, p, groups) <==> exists i :: 0 <= i < |groups| && s in Copies(g, p, groups[i])
    decreases |groups|
  {
    if groups != [] {
      var k := |groups| - 1;
      CopiesHold(g, p, groups[..k]);
      hide Copies;
      forall s
        ensures s in AllCopies(g, p, groups) <==> exists i :: 0 <= i < |groups| && s in Copies(g, p, groups[i])
      {
        if s in AllCopies(g, p, groups[..k]) {
          var i :| 0 <= i < k && s in Copies(g, p, groups[..k][i]);
          assert s in Copies(g, p, groups[i]);
        }
        if i :| 0 <= i < |groups| && s in Copies(g, p, groups[i]) {
          if i < k { assert s in Copies(g, p, groups[..k][i]); }
        }
      }
    }
  }

  lemma PushedPlaced(g: Geometry.Geometry, p: Rendered, groups: seq<u32>, s: Segment)
    requires Geometry.Accepted(g) && BackupList(g, groups) && s in AllSegments(g, p, groups)
    requires forall i :: 0 <= i < |p.before| ==> HandedOut(p.before[i], g.blocks)
    requires forall i :: 0 <= i < |p.after| ==> HandedOut(p.after[i], g.blocks)
    ensures s.End() <= g.blocks || exists k: nat :: IsCopy(s, g, k)
  {
    Geometry.AcceptedShape(g);
    Geometry.AcceptedTable(g);
    CopiesHold(g, p, groups);
    hide Geometry.Accepted, Geometry.Backup, AllCopies, HandedOut;
    if s in p.before || s in p.after {
      HandedOutOnDevice(s, g.blocks);
    } else if s in AllCopies(g, p, groups) {
      var j :| 0 <= j < |groups| && s in Copies(g, p, groups[j]);
      assert groups[j] in groups && IsCopy(s, g, groups[j]);
    }
  }

  lemma TableCopied(g: Geometry.Geometry, p: Rendered, groups: seq<u32>, k: nat)
    requires BackupList(g, groups) && k < g.groups < 0x1_0000_0000 && Geometry.Backup(k)
    ensures Segment(g.GroupStart(k) + 1, g.gdtBlocks, Whole(p.table)) in AllSegments(g, p, groups)
  {
    CopiesHold(g, p, groups);
    hide Geometry.Backup, AllCopies;
    var j :| 0 <= j < |groups| && groups[j] == k;
    assert Copies(g, p, groups[j])[1] in Copies(g, p, groups[j]);
  }

  lemma SameMembers<T>(a: seq<T>, b: seq<T>)
    requires multiset(a) == multiset(b)
    ensures forall x :: x in a <==> x in b
  {
    forall x ensures x in a <==> x in b {
      assert x in a <==> x in multiset(a);
      assert x in b <==> x in multiset(b);
    }
  }

  /** What sealing pushes is placed as the writer's contract needs to know it. */
  lemma PushedIsPlaced(l: Layout, g: Geometry.Geometry, p: Rendered, groups: seq<u32>)
    requires Geometry.Accepted(g) && Pushed(l, g, p, groups)
    ensures Placed(l, g)
  {
    Geometry.AcceptedShape(g);
    SameMembers(l.segments, AllSegments(g, p, groups));
    hide Geometry.Accepted, Geometry.Backup, AllSegments, HandedOut, IsCopy, BackupList;
    forall i | 0 <= i < |l.segments|
      ensures l.segments[i].End() <= g.blocks || exists k: nat :: IsCopy(l.segments[i], g, k)
    {
      assert l.segments[i] in l.segments;
      PushedPlaced(g, p, groups, l.segments[i]);
    }
    forall k: nat | k < g.groups && Geometry.Backup(k) ensures HasTableCopy(l, g, k) {
      TableCopied(g, p, groups, k);
      var i :| 0 <= i < |l.segments| && l.segments[i] == Segment(g.GroupStart(k) + 1, g.gdtBlocks, Whole(p.table));
    }
  }

  // ----- the copies on the image -----

  lemma SegmentShown(l: Layout, contents: seq<seq<byte>>, s: Segment, bytes: seq<byte>, x: nat)
    requires Sealed(l) && |l.files| == |contents| && s in l.segments && s.src == Whole(bytes)
    ensures |bytes| == s.len * 4096
    ensures x < |bytes| ==> ImageByte(l, contents, s.block * 4096 + x) == bytes[x]
  {
    hide ImageByte, OwnedAt, Placeable;
    var i :| 0 <= i < |l.segments| && l.segments[i] == s;
    assert Sound(s);
    if x < |bytes| {
      assert (s.block * 4096 + x) / BLOCK_SIZE == s.block + x / BLOCK_SIZE;
      ImageOfSegment(l, contents, i, s.block * 4096 + x);
    }
  }

  lemma PushedHolds(g: Geometry.Geometry, p: Rendered, groups: seq<u32>, k: u32)
    requires BackupList(g, groups)
    ensures Segment(0, 1, Whole(p.block0)) in AllSegments(g, p, groups)
    ensures Segment(1, g.gdtBlocks, Whole(p.table)) in AllSegments(g, p, groups)
    ensures k < g.groups && Geometry.Backup(k) ==>
              && Segment(32768 * k as nat, 1, Whole(p.copy(k))) in AllSegments(g, p, groups)
              && Segment(32768 * k as nat + 1, g.gdtBlocks, Whole(p.table)) in AllSegments(g, p, groups)
  {
    CopiesHold(g, p, groups);
    hide Geometry.Backup, AllCopies;
    var front := Primary(g, p);
    assert front[0] in front && front[1] in front;
    if k < g.groups && Geometry.Backup(k) {
      var j :| 0 <= j < |groups| && groups[j] == k;
      assert Copies(g, p, k)[0] in Copies(g, p, groups[j]) && Copies(g, p, k)[1] in Copies(g, p, groups[j]);
    }
  }

  /** Every image of such a layout starts with the superblock's block and the descriptor table. */
  lemma FrontOnImage(l: Layout, contents: seq<seq<byte>>, g: Geometry.Geometry, p: Rendered, groups: seq<u32>, x: nat)
    requires Pushed(l, g, p, groups) && Sealed(l) && |l.files| == |contents|
    ensures |p.block0| == 4096 && (x < 4096 ==> ImageByte(l, contents, x) == p.block0[x])
    ensures |p.table| == 4096 * g.gdtBlocks && (x < |p.table| ==> ImageByte(l, contents, 4096 + x) == p.table[x])
  {
    SameMembers(l.segments, AllSegments(g, p, groups));
    PushedHolds(g, p, groups, 0);
    hide AllSegments, Pushed, BackupList, ImageByte, Sealed;
    SegmentShown(l, contents, Segment(0, 1, Whole(p.block0)), p.block0, x);
    SegmentShown(l, contents, Segment(1, g.gdtBlocks, Whole(p.table)), p.table, x);
  }

  /** Every backup group, at a multiple of 2^27 bytes, starts with its own superblock and the same table. */
  lemma BackupOnImage(l: Layout, contents: seq<seq<byte>>, g: Geometry.Geometry, p: Rendered, groups: seq<u32>,
                      k: u32, x: nat)
    requires Pushed(l, g, p, groups) && Sealed(l) && |l.files| == |contents| && k < g.groups && Geometry.Backup(k)
    ensures |p.copy(k)| == 4096 && (x < 4096 ==> ImageByte(l, contents, 0x800_0000 * k as nat + x) == p.copy(k)[x])
    ensures x < |p.table| ==> ImageByte(l, contents, 0x800_0000 * k as nat + 4096 + x) == p.table[x]
  {
    var copy, table := BackupPushed(l, g, p, groups, k);
    hide *;
    SegmentShown(l, contents, copy, p.copy(k), x);
    SegmentShown(l, contents, table, p.table, x);
  }

  lemma BackupPushed(l: Layout, g: Geometry.Geometry, p: Rendered, groups: seq<u32>, k: u32)
                     returns (copy: Segment, table: Segment)
    requires Pushed(l, g, p, groups) && k < g.groups && Geometry.Backup(k)
    ensures copy == Segment(32768 * k as nat, 1, Whole(p.copy(k))) && copy in l.segments
    ensures table == Segment(32768 * k as nat + 1, g.gdtBlocks, Whole(p.table)) && table in l.segments
  {
    SameMembers(l.segments, AllSegments(g, p, groups));
    PushedHolds(g, p, groups, k);
    hide AllSegments, BackupList, Geometry.Backup;
    copy := Segment(32768 * k as nat, 1, Whole(p.copy(k)));
    table := Segment(32768 * k as nat + 1, g.gdtBlocks, Whole(p.table));
  }

  // ----- when they lie on the device -----

  /** The segments lie on the device exactly when the last group has room for the copies it holds. */
  lemma OnDeviceExactly(l: Layout, g: Geometry.Geometry, p: Rendered, groups: seq<u32>)
    requires Geometry.Accepted(g) && Pushed(l, g, p, groups)
    ensures 0 < g.groups && g.GroupStart(g.groups - 1) <= g.blocks
    ensures SegmentsOnDevice(l) <==> Geometry.LastBackupFits(g)
  {
    Geometry.BackupsFitExactly(g);
    Geometry.AcceptedTable(g);
    PushedIsPlaced(l, g, p, groups);
    hide Geometry.Accepted, Geometry.Backup, Geometry.LastBackupFits, Pushed;
    if SegmentsOnDevice(l) {
      forall k: nat | k < g.groups && Geometry.Backup(k) ensures Geometry.BackupEnd(g, k) <= g.blocks {
        assert HasTableCopy(l, g, k);
      }
    } else {
      var k := CopyPastEnd(l, g);
    }
  }

  lemma CopyPastEnd(l: Layout, g: Geometry.Geometry) returns (k: nat)
    requires Placed(l, g) && !SegmentsOnDevice(l) && 1 <= g.gdtBlocks
    ensures k < g.groups && Geometry.Backup(k) && Geometry.BackupEnd(g, k) > g.blocks
  {
    hide Geometry.Backup, HasTableCopy;
    var i :| 0 <= i < |l.segments| && l.segments[i].End() > l.totalBlocks;
    k :| IsCopy(l.segments[i], g, k);
  }

  /** A finished writer has met the sink's contract exactly when the last group has room for its copies. */
  lemma ContractMetExactly(w: ImageWriter, g: Geometry.Geometry, p: Rendered, groups: seq<u32>)
    requires Geometry.Accepted(g) && Pushed(w.layout, g, p, groups) && w.Valid() && !w.poisoned && w.pending == 0
    ensures 0 < g.groups && g.GroupStart(g.groups - 1) <= g.blocks
    ensures g.blocks * BLOCK_SIZE < 0x1_0000_0000_0000_0000
    ensures ExactlyOnce(w.sink.emitted, g.blocks * BLOCK_SIZE) <==> Geometry.LastBackupFits(g)
  {
    OnDeviceExactly(w.layout, g, p, groups);
    hide Geometry.Accepted, Geometry.LastBackupFits, Accounts, Pushed;
    AllAccounted(w.sink.emitted, w.layout, w.states, w.contents);
    PassesOnDevice(w.sink.emitted, w.layout);
  }

  /** An accepted geometry whose every layout breaks the contract. */
  lemma ContractBroken(w: ImageWriter, p: Rendered, groups: seq<u32>)
    requires var g := Geometry.New(32769 * 4096, None, None);
             g.Ok? && Pushed(w.layout, g.value, p, groups) && w.Valid() && !w.poisoned && w.pending == 0
    ensures !SegmentsOnDevice(w.layout) && !ExactlyOnce(w.sink.emitted, 32769 * 4096)
  {
    var g := Geometry.New(32769 * 4096, None, None).value;
    Geometry.BackupPastTheDevice();
    assert Geometry.Accepted(g);
    hide Geometry.New, Pushed, Geometry.Backup;
    Geometry.BackupsFitExactly(g);
    assert Geometry.BackupEnd(g, 1) > g.blocks;
    OnDeviceExactly(w.layout, g, p, groups);
    ContractMetExactly(w, g, p, groups);
  }
}
