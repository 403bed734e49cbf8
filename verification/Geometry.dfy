/**
  Filesystem geometry (`src/layout/geometry.rs`): block groups, inodes per group, sparse
  backups and journal tiers.
*/
module Geometry {
  import opened Bytes

  const BLOCKS_PER_GROUP: nat := 32768
  const INODES_PER_BLOCK: nat := 16

  datatype Geometry = Geometry(blocks: nat, groups: nat, inodesPerGroup: nat, gdtBlocks: nat, journalBlocks: u32,
                               groupsPerFlex: nat) {
    function InodesCount(): nat { inodesPerGroup * groups }

    function GroupStart(g: nat): nat { g * BLOCKS_PER_GROUP }

    function BlocksInGroup(g: nat): nat
      requires GroupStart(g) <= blocks
    {
      if blocks - GroupStart(g) < BLOCKS_PER_GROUP then blocks - GroupStart(g) else BLOCKS_PER_GROUP
    }
  }

  function DivCeil(a: nat, b: nat): nat
    requires 0 < b
  {
    (a + b - 1) / b
  }

  function NextMultiple(a: nat, b: nat): nat
    requires 0 < b
  {
    DivCeil(a, b) * b
  }

  function Clamp(a: nat, lo: nat, hi: nat): nat {
    if a < lo then lo else if hi < a then hi else a
  }

  function DefaultJournalBlocks(fsBlocks: nat): u32 {
    if fsBlocks <= 32767 then 1024
    else if fsBlocks <= 262143 then 4096
    else if fsBlocks <= 524287 then 8192
    else if fsBlocks <= 4194303 then 16384
    else if fsBlocks <= 8388607 then 32768
    else if fsBlocks <= 16777215 then 65536
    else if fsBlocks <= 33554431 then 131072
    else 262144
  }

  /** How many inodes are asked for: an explicit number, or one per 16384 bytes. */
  function Wanted(blocks: nat, totalInodes: Option<u32>): nat {
    match totalInodes
    case Some(n) => n
    case None => blocks * BLOCK_SIZE / 16384
  }

  function InodesPerGroup(wanted: nat, groups: nat): nat
    requires 0 < groups
  {
    Clamp(NextMultiple(DivCeil(wanted, groups), INODES_PER_BLOCK), INODES_PER_BLOCK, 32768)
  }

  function New(sizeBytes: u64, totalInodes: Option<u32>, journalBlocks: Option<u32>): Result<Geometry> {
    if sizeBytes == 0 || sizeBytes % BLOCK_SIZE != 0 then Err(Unsupported)
    else
      var blocks := sizeBytes / BLOCK_SIZE;
      if 0xFFFF_FFFF <= blocks then Err(Unsupported)
      else if blocks < 2048 then Err(Unsupported)
      else
        var groups := DivCeil(blocks, BLOCKS_PER_GROUP);
        var journal := match journalBlocks case Some(j) => j case None => DefaultJournalBlocks(blocks);
        if journal as int * 4 > blocks then Err(Unsupported)
        else Ok(Geometry(blocks, groups, InodesPerGroup(Wanted(blocks, totalInodes), groups),
          DivCeil(groups * 32, BLOCK_SIZE), journal, 16))
  }

  /** A geometry that some options produce. */
  ghost predicate Accepted(g: Geometry) {
    exists size: u64, total: Option<u32>, journal: Option<u32> :: New(size, total, journal) == Ok(g)
  }

  /** The other fields of a geometry: 128 descriptors of 32 bytes fill a block of the group table. */
  lemma AcceptedFields(size: u64, total: Option<u32>, journal: Option<u32>)
    requires New(size, total, journal).Ok?
    ensures var g := New(size, total, journal).value;
            && g.blocks * 4096 == size && g.groupsPerFlex == 16
            && 128 * (g.gdtBlocks - 1) < g.groups <= 128 * g.gdtBlocks
            && (journal.Some? ==> g.journalBlocks == journal.value)
            && Wanted(g.blocks, None) == g.blocks / 4
  {
  }

  // ----- groups -----

  lemma AcceptedShape(g: Geometry)
    requires Accepted(g)
    ensures 2048 <= g.blocks < 0xFFFF_FFFF && g.groups == DivCeil(g.blocks, BLOCKS_PER_GROUP)
    ensures (g.groups - 1) * BLOCKS_PER_GROUP < g.blocks <= g.groups * BLOCKS_PER_GROUP && 1 <= g.groups <= 131072
  {
  }

  /** Every block lies in exactly one group, and no group is empty or too large. */
  lemma GroupsPartition(g: Geometry, block: nat, k: nat)
    requires Accepted(g) && block < g.blocks && k < g.groups
    ensures g.GroupStart(k) <= g.blocks && 1 <= g.BlocksInGroup(k) <= BLOCKS_PER_GROUP
    ensures block / BLOCKS_PER_GROUP < g.groups
    ensures g.GroupStart(k) <= block < g.GroupStart(k) + g.BlocksInGroup(k) <==> k == block / BLOCKS_PER_GROUP
  {
  }

  function SumOfGroups(g: Geometry, n: nat): nat
    requires n > 0 ==> g.GroupStart(n - 1) <= g.blocks
  {
    if n == 0 then 0 else SumOfGroups(g, n - 1) + g.BlocksInGroup(n - 1)
  }

  lemma {:induction false} GroupSizesSum(g: Geometry, n: nat)
    requires Accepted(g) && n <= g.groups
    ensures n > 0 ==> g.GroupStart(n - 1) <= g.blocks
    ensures SumOfGroups(g, n) == if n == g.groups then g.blocks else n * BLOCKS_PER_GROUP
    decreases n
  {
    AcceptedShape(g);
    if n > 0 { GroupSizesSum(g, n - 1); }
  }

  // ----- inodes -----

  lemma NextMultipleCovers(a: nat)
    ensures NextMultiple(a, 16) % 16 == 0 && a <= NextMultiple(a, 16) < a + 16
  {
  }

  lemma PerGroupCovers(wanted: nat, groups: nat)
    requires 0 < groups
    ensures var n := InodesPerGroup(wanted, groups);
            && n % 16 == 0 && 16 <= n <= 32768
            && (n * groups >= wanted || n == 32768)
            && (n == 16 || (n - 16) * groups < wanted)
  {
    var n, each := InodesPerGroup(wanted, groups), DivCeil(wanted, groups);
    CeilCovers(wanted, groups);
    NextMultipleCovers(each);
    hide DivCeil, NextMultiple;
    if each <= n { Scale(each, n, groups); }
    if 16 < n { Scale(n - 16, each - 1, groups); }
  }

  /**
    The inode table of a group fills whole blocks and, unless one bitmap block caps it,
    the groups together hold what was asked for, with less than a block's worth to spare.
  */
  lemma InodesCoverWanted(size: u64, total: Option<u32>, journal: Option<u32>)
    requires New(size, total, journal).Ok?
    ensures var g := New(size, total, journal).value;
            var wanted := Wanted(g.blocks, total);
            && g.inodesPerGroup % 16 == 0 && 16 <= g.inodesPerGroup <= 32768
            && (g.InodesCount() >= wanted || g.inodesPerGroup == 32768)
            && (g.inodesPerGroup == 16 || (g.inodesPerGroup - 16) * g.groups < wanted)
  {
    var g := New(size, total, journal).value;
    PerGroupCovers(Wanted(g.blocks, total), g.groups);
  }

  lemma CeilCovers(a: nat, b: nat)
    requires 0 < b
    ensures DivCeil(a, b) * b >= a
    ensures 0 < DivCeil(a, b) ==> (DivCeil(a, b) - 1) * b < a
  {
  }

  lemma Scale(x: int, y: int, k: nat)
    requires x <= y
    ensures x * k <= y * k
  {
  }

  /** The 32-bit inode count overflows in exactly one configuration: every group full at the largest device. */
  lemma InodesCountFits(g: Geometry)
    requires Accepted(g)
    ensures g.InodesCount() < 0x1_0000_0000 <==> !(g.groups == 131072 && g.inodesPerGroup == 32768)
  {
    AcceptedShape(g);
    var size: u64, total: Option<u32>, journal: Option<u32> :| New(size, total, journal) == Ok(g);
    InodesCoverWanted(size, total, journal);
    if g.groups <= 131071 {
      Scale(g.inodesPerGroup, 32768, g.groups);
    } else {
      Scale(g.inodesPerGroup, 32768, 131072);
      assert g.inodesPerGroup < 32768 ==> g.inodesPerGroup * 131072 < 32768 * 131072;
    }
  }

  /** That configuration is reachable. */
  lemma InodesCountOverflows()
    ensures New(17592186036224, Some(0xFFFF_FFFF), None).Ok?
            && New(17592186036224, Some(0xFFFF_FFFF), None).value.InodesCount() == 0x1_0000_0000
  {
    var g := New(17592186036224, Some(0xFFFF_FFFF), None).value;
    assert g.groups == 131072 by { assert DivCeil(4294967294, 32768) == 131072; }
    assert g.inodesPerGroup == 32768 by { assert DivCeil(0xFFFF_FFFF, 131072) == 32768
      && NextMultiple(32768, 16) == 32768; }
  }

  // ----- journals -----

  /** The journal sizes in the order of the tiers, and the device sizes at which the next one begins. */
  lemma JournalTiers(fsBlocks: nat)
    ensures var j := DefaultJournalBlocks(fsBlocks);
            && (j == 4 * 256 <==> fsBlocks < 0x8000)
            && (j == 16 * 256 <==> 0x8000 <= fsBlocks < 0x4_0000)
            && (j == 32 * 256 <==> 0x4_0000 <= fsBlocks < 0x8_0000)
            && (j == 64 * 256 <==> 0x8_0000 <= fsBlocks < 0x40_0000)
            && (j == 128 * 256 <==> 0x40_0000 <= fsBlocks < 0x80_0000)
            && (j == 256 * 256 <==> 0x80_0000 <= fsBlocks < 0x100_0000)
            && (j == 512 * 256 <==> 0x100_0000 <= fsBlocks < 0x200_0000)
            && (j == 1024 * 256 <==> 0x200_0000 <= fsBlocks)
  {
  }

  /** A larger device never gets a smaller journal, and no accepted one loses more than a quarter to it. */
  lemma JournalGrows(a: nat, b: nat)
    requires a <= b
    ensures DefaultJournalBlocks(a) <= DefaultJournalBlocks(b)
    ensures 4096 <= a ==> 4 * DefaultJournalBlocks(a) as int <= a
  {
  }

  /** With the default journal, exactly the aligned sizes from 4096 blocks up are accepted. */
  lemma DefaultJournalAccepts(size: u64, total: Option<u32>)
    ensures New(size, total, None).Ok? <==> size % 4096 == 0 && 4096 <= size / 4096 < 0xFFFF_FFFF
  {
  }

  /** An explicit journal may take up to a quarter of the device. */
  lemma ExplicitJournalAccepts(size: u64, total: Option<u32>, journal: u32)
    ensures New(size, total, Some(journal)).Ok? <==>
            size % 4096 == 0 && 2048 <= size / 4096 < 0xFFFF_FFFF && 4 * journal as int <= size / 4096
  {
  }

  // ----- sparse backups -----

  function Pow(base: nat, k: nat): nat {
    if k == 0 then 1 else base * Pow(base, k - 1)
  }

  ghost predicate IsPower(n: nat, base: nat) {
    exists k :: 0 <= k && n == Pow(base, k)
  }

  lemma {:induction false} PowPositive(base: nat, k: nat)
    requires 2 <= base
    ensures 1 <= Pow(base, k) && (0 < k ==> Pow(base, k) % base == 0 && 2 <= Pow(base, k))
    decreases k
  {
    if k > 0 {
      PowPositive(base, k - 1);
      MultipleHasNoRemainder(Pow(base, k - 1), base);
    }
  }

  lemma MultipleHasNoRemainder(q: nat, base: nat)
    requires 2 <= base && 1 <= q
    ensures (base * q) % base == 0 && (base * q) / base == q && 2 <= base * q
  {
    assert base * q == q * base + 0;
    assert (base * q) / base == q by {
      var d, m := (base * q) / base, (base * q) % base;
      assert base * q == d * base + m;
      if d < q { Scale(d + 1, q, base); }
      if q < d { Scale(q + 1, d, base); }
    }
  }

  lemma QuotientShrinks(n: nat, m: nat, base: nat)
    requires 2 <= base && 0 < n && n == m * base
    ensures 0 < m < n
  {
  }

  /** Dividing out one factor does not change whether a number is a power. */
  lemma DivideOut(n: nat, m: nat, base: nat)
    requires 2 <= base && 0 < n && n == m * base && m == n / base
    ensures IsPower(n, base) <==> IsPower(m, base)
  {
    if IsPower(n, base) && n != 1 {
      var k :| 0 <= k && n == Pow(base, k);
      PowPositive(base, k - 1);
      MultipleHasNoRemainder(Pow(base, k - 1), base);
      assert m == Pow(base, k - 1);
    }
    if IsPower(m, base) {
      var k :| 0 <= k && m == Pow(base, k);
      assert n == Pow(base, k + 1);
    }
    if n == 1 { QuotientShrinks(n, m, base); }
  }

  lemma IndivisiblePower(n: nat, base: nat)
    requires 2 <= base && 0 < n && n % base != 0
    ensures IsPower(n, base) <==> n == 1
  {
    if IsPower(n, base) {
      var k :| 0 <= k && n == Pow(base, k);
      PowPositive(base, k);
    }
    assert Pow(base, 0) == 1;
  }

  /** Divides factors out until none is left. */
  method IsPowerOf(number: u32, base: u32) returns (r: bool)
    requires 0 < number && 2 <= base
    ensures r <==> IsPower(number, base)
  {
    var n: nat := number;
    while n % base == 0
      invariant 0 < n && (IsPower(number, base) <==> IsPower(n, base))
      decreases n
    {
      var m := n / base;
      assert n == m * base;
      QuotientShrinks(n, m, base);
      DivideOut(n, m, base);
      n := m;
    }
    IndivisiblePower(n, base);
    r := n == 1;
  }

  /** The groups that hold a backup superblock: 1 and the powers of 3, 5 and 7. */
  ghost predicate Backup(g: nat) {
    g == 1 || (1 < g && (IsPower(g, 3) || IsPower(g, 5) || IsPower(g, 7)))
  }

  method HasBackup(g: u32) returns (r: bool)
    ensures r <==> Backup(g)
  {
    if g == 1 {
      return true;
    }
    if g <= 1 {
      return false;
    }
    r := IsPowerOf(g, 3);
    if !r {
      r := IsPowerOf(g, 5);
    }
    if !r {
      r := IsPowerOf(g, 7);
    }
  }

  method BackupGroups(groups: u32) returns (r: seq<u32>)
    ensures forall i, j :: 0 <= i < j < |r| ==> r[i] < r[j]
    ensures forall g: u32 :: g in r <==> 1 <= g < groups && Backup(g)
  {
    r := [];
    var g: u32 := 1;
    while g < groups
      invariant g == 1 || 1 <= g <= groups
      invariant forall i, j :: 0 <= i < j < |r| ==> r[i] < r[j]
      invariant forall x: u32 :: x in r <==> 1 <= x < g && Backup(x)
    {
      var b := HasBackup(g);
      ghost var before := r;
      forall i | 0 <= i < |r| ensures r[i] < g { assert r[i] in r; }
      if b {
        r := r + [g];
      }
      forall x: u32 ensures x in r <==> 1 <= x <= g && Backup(x) {
        assert x in r <==> x in before || (b && x == g);
      }
      g := g + 1;
    }
  }

  // ----- backups at the end of the device -----

  /** Where the copies in group `k` end: a superblock and the descriptor table, from the group's first block. */
  function BackupEnd(g: Geometry, k: nat): nat {
    g.GroupStart(k) + 1 + g.gdtBlocks
  }

  /** The last group, if it holds copies at all, is long enough for them. */
  ghost predicate LastBackupFits(g: Geometry)
    requires 0 < g.groups && g.GroupStart(g.groups - 1) <= g.blocks
  {
    !Backup(g.groups - 1) || 1 + g.gdtBlocks <= g.BlocksInGroup(g.groups - 1)
  }

  lemma AcceptedTable(g: Geometry)
    requires Accepted(g)
    ensures 0 < g.groups && g.GroupStart(g.groups - 1) <= g.blocks
    ensures 1 <= g.gdtBlocks <= 1024
  {
    AcceptedShape(g);
  }

  /**
    Every backup copy lies on the device exactly when those of the last group do: an earlier group is
    always long enough.
  */
  lemma BackupsFitExactly(g: Geometry)
    requires Accepted(g)
    ensures 0 < g.groups && g.GroupStart(g.groups - 1) <= g.blocks
    ensures (forall k: nat :: k < g.groups && Backup(k) ==> BackupEnd(g, k) <= g.blocks) <==> LastBackupFits(g)
  {
    AcceptedShape(g);
    AcceptedTable(g);
    hide Accepted, Backup;
    forall k: nat | k < g.groups - 1 ensures BackupEnd(g, k) <= g.blocks {
      Scale(k + 1, g.groups - 1, BLOCKS_PER_GROUP);
    }
  }

  /**
    One block past 128 MiB: the second group is a backup group of one block, and the table's copy lies past
    the device.
  */
  lemma BackupPastTheDevice()
    ensures New(32769 * 4096, None, None).Ok?
    ensures var g := New(32769 * 4096, None, None).value;
            g.blocks == 32769 && g.groups == 2 && Backup(1) && BackupEnd(g, 1) == g.blocks + 1
  {
  }
}
