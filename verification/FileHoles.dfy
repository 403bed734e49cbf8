/**
  What the stored fields of an extent tree mean to a reader of the file: which entries are accepted, which
  blocks a leaf entry hands out, and that whatever no written run maps reads as zeros. Everything is said of
  the bytes of the nodes.
*/
module FileHoles {
  import opened Bytes
  import opened Extent
  import opened ExtentWalk
  import opened ExtentTree
  import opened FileRead
  import opened Crc32c
  import Csum

  // ----- the bytes of a node -----

  /** A node is accepted by its magic number, its depth and its two counts. */
  lemma NodeAccepted(node: seq<byte>, wanted: Option<nat>)
    ensures CheckNode(node, wanted).Ok? <==>
            && 12 <= |node| && node[0] == 0x0A && node[1] == 0xF3
            && Le16(node, 2) <= Le16(node, 4) && 12 + 12 * Le16(node, 4) as int <= |node|
            && Le16(node, 6) <= 5 && (wanted.Some? ==> Le16(node, 6) == wanted.value)
    ensures CheckNode(node, wanted).Ok? ==>
              CheckNode(node, wanted).value == Header(Le16(node, 2), Le16(node, 4), Le16(node, 6), Le32(node, 8))
  {
  }

  /**
    A leaf entry of stored length 0 is refused. Any other maps as many blocks as its stored length says, less
    32768 in an unwritten run, which is one whose stored length exceeds that.
  */
  lemma LeafEntry(fs: Fs, owner: Owner, entry: seq<byte>)
    requires |entry| == 12
    ensures var w, stored := WalkEntry(fs, owner, entry, 0), Le16(entry, 4);
            if stored == 0 then w == Walk(Fail(Corrupt), [], 0)
            else w == Walk(Pass, w.out, 0) && |w.out| == 1
                 && w.out[0].logical == Le32(entry, 0)
                 && w.out[0].physical as int == Le16(entry, 6) as int * 0x1_0000_0000 + Le32(entry, 8) as int
                 && w.out[0].len == (if 32768 < stored then stored - 32768 else stored)
                 && (w.out[0].unwritten <==> 32768 < stored)
  {
  }

  /** With checksums on, a node's block stores the sum of the owner's number and generation and of its own bytes. */
  lemma StampCovers(fs: Fs, owner: Owner, block: seq<byte>)
    requires |block| == 4096
    ensures ChecksumAccepts(fs, owner, block)
            <==> (fs.metadataCsum ==>
                    Le32(block, 4092) == Csum.AsU32(Crc(fs.fsSeed,
                      Bytes32(owner.ino) + Bytes32(owner.generation) + block[..4092])))
  {
    hide Crc, Le32, Bytes32;
    Csum.BlocksAreOneFold(fs.fsSeed, owner.ino, owner.generation, block);
  }

  /** Damage inside four bytes in front of the stored sum of a node's block is noticed. */
  lemma DamagedNodeIsRefused(fs: Fs, owner: Owner, a: seq<byte>, b: seq<byte>)
    requires |a| == |b| == 4096 && fs.metadataCsum && ChecksumAccepts(fs, owner, a)
    requires DifferInWindow(a[..4092], b[..4092]) && a[4092..] == b[4092..]
    ensures !ChecksumAccepts(fs, owner, b)
  {
    hide Crc, Le32, Bytes32, DifferInWindow;
    SameEnd(a, b);
    Csum.ExtentBlockDetects(Csum.InodeSeed(fs.fsSeed, owner.ino, owner.generation), a, b);
    Csum.DistinctSums(Csum.ExtentBlock(Csum.InodeSeed(fs.fsSeed, owner.ino, owner.generation), a),
      Csum.ExtentBlock(Csum.InodeSeed(fs.fsSeed, owner.ino, owner.generation), b));
  }

  lemma SameEnd(a: seq<byte>, b: seq<byte>)
    requires |a| == |b| == 4096 && a[4092..] == b[4092..]
    ensures Le32(a, 4092) == Le32(b, 4092)
  {
    assert forall k :: 0 <= k < 4 ==> a[4092..][k] == a[4092 + k] && b[4092..][k] == b[4092 + k];
  }

  /** An index entry leads to the block whose 48-bit number it stores; its first field is not looked at. */
  lemma IndexEntry(fs: Fs, owner: Owner, entry: seq<byte>, depth: nat)
    requires |entry| == 12 && 0 < depth
    ensures var w, at := WalkEntry(fs, owner, entry, depth), Le16(entry, 8) as int * 0x1_0000_0000 + Le32(entry, 4);
            if |fs.disk| < (at + 1) * 4096 then w == Walk(Fail(Io), [], 1)
            else
              var child := fs.disk[at * 4096..(at + 1) * 4096];
              if fs.metadataCsum && !Stamped(fs, owner, child) then w == Walk(Fail(Corrupt), [], 1)
              else w == WalkNode(fs, owner, child, Some(depth - 1)).(fetched := w.fetched)
                   && w.fetched == 1 + WalkNode(fs, owner, child, Some(depth - 1)).fetched
  {
    hide WalkNode, Stamped;
  }

  // ----- the runs of a tree as they are stored -----

  /** The leaf entries, left to right. */
  function LeafRuns(t: Tree): seq<Extent>
    decreases t, 0
  {
    match t
    case Leaf(runs) => runs
    case Node(children) => LeafRunsOf(children)
  }

  function LeafRunsOf(children: seq<Child>): seq<Extent>
    decreases children, 0
  {
    if children == [] then [] else LeafRunsBelow(children[0]) + LeafRunsOf(children[1..])
  }

  function LeafRunsBelow(c: Child): seq<Extent>
    decreases c, 0
  {
    LeafRuns(c.tree)
  }

  function Mappings(runs: seq<Extent>): (r: seq<FileExtent>)
    ensures |r| == |runs|
  {
    seq(|runs|, i requires 0 <= i < |runs| => Mapping(runs[i]))
  }

  lemma {:induction false} RunsAreMapped(t: Tree)
    ensures RunsIn(t) == Mappings(LeafRuns(t))
    decreases t, 0
  {
    if t.Node? { ChildrenAreMapped(t.children); }
  }

  lemma {:induction false} ChildrenAreMapped(children: seq<Child>)
    ensures RunsOf(children) == Mappings(LeafRunsOf(children))
    decreases children, 0
  {
    if children != [] {
      ChildIsMapped(children[0]);
      ChildrenAreMapped(children[1..]);
      var a, b := LeafRunsBelow(children[0]), LeafRunsOf(children[1..]);
      assert Mappings(a + b) == Mappings(a) + Mappings(b);
    }
  }

  lemma {:induction false} ChildIsMapped(c: Child)
    ensures c.Runs() == Mappings(LeafRunsBelow(c))
    decreases c, 0
  {
    RunsAreMapped(c.tree);
  }

  /** A stored run whose blocks have been written, and `block` is among them. */
  predicate WrittenAt(run: Extent, block: nat) {
    run.rawLen <= 32768 && run.logical <= block < run.logical as int + run.rawLen as int
  }

  lemma MappingBacks(run: Extent, block: nat)
    ensures Backs(Mapping(run), block) <==> WrittenAt(run, block)
    ensures Mapping(run).physical == run.start && Mapping(run).logical == run.logical
  {
  }

  // ----- what reading shows -----

  lemma {:induction false} UnmappedReadsZero(fs: Fs, extents: seq<FileExtent>, pos: nat)
    requires forall i :: 0 <= i < |extents| ==> !Backs(extents[i], pos / BLOCK_SIZE)
    ensures FileByte(fs, extents, pos) == 0
    decreases |extents|
  {
    hide Maps, Backs;
    if extents != [] {
      MapsBlock(extents[|extents| - 1], pos);
      UnmappedReadsZero(fs, extents[..|extents| - 1], pos);
    }
  }

  /**
    Whatever tree is stored, a block that no written run maps has no block behind it, and every byte of it reads
    as zero on every disk; any other block of the file has one.
  */
  lemma HolesReadZero(fs: Fs, owner: Owner, root: seq<byte>, t: Tree, depth: nat, pos: nat)
    requires Stored(fs, owner, root, t, depth)
    ensures var extents, block := WalkNode(fs, owner, root, None).out, pos / 4096;
            && (FileBlock(extents, block).None? <==> forall run :: run in LeafRuns(t) ==> !WrittenAt(run, block))
            && ((forall run :: run in LeafRuns(t) ==> !WrittenAt(run, block)) ==>
                  forall disk :: FileByte(disk, extents, pos) == 0)
  {
    hide Stored, WalkNode, FileByte, FileBlock, Backs, WrittenAt, LeafRuns, Mapping;
    WalkReturnsTree(fs, owner, root, t, depth, None);
    RunsAreMapped(t);
    var runs, extents, block := LeafRuns(t), RunsIn(t), pos / BLOCK_SIZE;
    FirstMatches(extents, block);
    forall i | 0 <= i < |runs| ensures Backs(extents[i], block) <==> WrittenAt(runs[i], block) {
      MappingBacks(runs[i], block);
    }
    if forall run :: run in runs ==> !WrittenAt(run, block) {
      forall i | 0 <= i < |runs| ensures !Backs(extents[i], block) { assert runs[i] in runs; }
      forall disk ensures FileByte(disk, extents, pos) == 0 { UnmappedReadsZero(disk, extents, pos); }
    } else {
      var run :| run in runs && WrittenAt(run, block);
      var i :| 0 <= i < |runs| && runs[i] == run;
      assert Backs(extents[i], block);
    }
  }

  lemma {:induction false} LastBackingShows(fs: Fs, extents: seq<FileExtent>, i: nat, pos: nat)
    requires i < |extents| && Backs(extents[i], pos / BLOCK_SIZE)
    requires forall j :: i < j < |extents| ==> !Backs(extents[j], pos / BLOCK_SIZE)
    ensures FileByte(fs, extents, pos)
            == DiskByte(fs, (extents[i].physical as int + (pos / BLOCK_SIZE - extents[i].logical)) * BLOCK_SIZE
                            + pos % BLOCK_SIZE)
    decreases |extents|
  {
    hide Maps, Backs, DiskOffset, DiskByte;
    MapsBlock(extents[|extents| - 1], pos);
    if i + 1 < |extents| {
      LastBackingShows(fs, extents[..|extents| - 1], i, pos);
    }
  }

  /** The last written run that holds a block shows its own blocks there, at their distance from its first. */
  lemma WrittenReads(fs: Fs, owner: Owner, root: seq<byte>, t: Tree, depth: nat, i: nat, pos: nat)
    requires Stored(fs, owner, root, t, depth) && i < |LeafRuns(t)| && WrittenAt(LeafRuns(t)[i], pos / 4096)
    requires forall j :: i < j < |LeafRuns(t)| ==> !WrittenAt(LeafRuns(t)[j], pos / 4096)
    ensures var run := LeafRuns(t)[i];
            FileByte(fs, WalkNode(fs, owner, root, None).out, pos)
            == DiskByte(fs, (run.start as int + pos / 4096 - run.logical as int) * 4096 + pos % 4096)
  {
    hide Stored, WalkNode, FileByte, FileBlock, Backs, WrittenAt, LeafRuns, DiskByte, Mapping;
    WalkReturnsTree(fs, owner, root, t, depth, None);
    RunsAreMapped(t);
    var runs, extents, block := LeafRuns(t), RunsIn(t), pos / BLOCK_SIZE;
    forall j | 0 <= j < |runs| ensures Backs(extents[j], block) <==> WrittenAt(runs[j], block) {
      MappingBacks(runs[j], block);
    }
    MappingBacks(runs[i], block);
    LastBackingShows(fs, extents, i, pos);
  }

  // ----- an instance -----

  /** A root of one unwritten block at the start of the file, device block 100 set aside for it. */
  function UnwrittenRoot(): (r: seq<byte>)
    ensures |r| == 60
  {
    [0x0A, 0xF3, 1, 0, 4, 0, 0, 0, 0, 0, 0, 0] + [0, 0, 0, 0, 1, 0x80, 0, 0, 100, 0, 0, 0] + Zeros(36)
  }

  /** Whatever device block 100 holds, that file reads as zeros. */
  lemma UnwrittenReadsZero(fs: Fs, owner: Owner, pos: nat)
    ensures var w := WalkNode(fs, owner, UnwrittenRoot(), None);
            && w == Walk(Pass, [FileExtent(0, 100, 1, true)], 0)
            && FileBlock(w.out, 0).None? && FileByte(fs, w.out, pos) == 0
  {
    var root := UnwrittenRoot();
    NodeAccepted(root, None);
    assert Entry(root, 0) == [0, 0, 0, 0, 1, 0x80, 0, 0, 100, 0, 0, 0];
    var h := CheckNode(root, None).value;
    assert h == Header(1, 4, 0, 0);
    LeafEntry(fs, owner, Entry(root, 0));
    hide FileByte;
    assert WalkEntries(fs, owner, root, h, 1) == Walk(Pass, [], 0);
    var out := [FileExtent(0, 100, 1, true)];
    assert WalkNode(fs, owner, root, None).out == out;
    UnmappedReadsZero(fs, out, pos);
  }
}
