/**
  The monotone skipping allocator (`src/layout/alloc.rs`): one cursor over the device
  that jumps reserved runs. Its whole history is the increasing enumeration of the
  free blocks, however requests are split and whatever cap is put on a run.
*/
module Allocator {
  import opened Bytes

  /** `len` blocks from `start`. */
  datatype Run = Run(start: u64, len: u64) {
    function End(): nat { start as int + len as int }
  }

  predicate InRun(r: Run, block: int) {
    r.start <= block < r.End()
  }

  ghost predicate IsReserved(reserved: seq<Run>, block: int) {
    exists i :: 0 <= i < |reserved| && InRun(reserved[i], block)
  }

  /** Sorted by start; enough for `take`, even where runs overlap. */
  predicate SortedRuns(reserved: seq<Run>) {
    forall i, j :: 0 <= i < j < |reserved| ==> reserved[i].start <= reserved[j].start
  }

  /** What the constructor documents: sorted and disjoint. */
  predicate DisjointRuns(reserved: seq<Run>) {
    forall i, j :: 0 <= i < j < |reserved| ==> reserved[i].End() <= reserved[j].start
  }

  /** The free blocks of `[lo, hi)` in increasing order. */
  ghost function FreeFrom(lo: nat, hi: nat, reserved: seq<Run>): seq<nat>
    decreases hi - lo
  {
    if hi <= lo then []
    else if IsReserved(reserved, lo) then FreeFrom(lo + 1, hi, reserved)
    else [lo] + FreeFrom(lo + 1, hi, reserved)
  }

  /** The blocks `lo, lo + 1, ..., lo + n - 1`. */
  function Blocks(lo: nat, n: nat): seq<nat> {
    seq(n, i requires 0 <= i => lo + i)
  }

  /** The blocks of a list of runs, in order. */
  function Flatten(runs: seq<Run>): seq<nat> {
    if runs == [] then [] else Flatten(runs[..|runs| - 1]) + Blocks(runs[|runs| - 1].start, runs[|runs| - 1].len)
  }

  lemma AppendSplits<T>(a: seq<T>, b: seq<T>)
    ensures (a + b)[..|a|] == a && (a + b)[|a|..] == b
  {
  }

  lemma FlattenSnoc(runs: seq<Run>, r: Run)
    ensures Flatten(runs + [r]) == Flatten(runs) + Blocks(r.start, r.len)
  {
  }

  /** The enumeration is the free set: every free block once, in strictly increasing order. */
  lemma {:induction false} FreeFromIsFreeSet(lo: nat, hi: nat, reserved: seq<Run>)
    ensures var f := FreeFrom(lo, hi, reserved);
            && (forall i, j :: 0 <= i < j < |f| ==> f[i] < f[j])
            && (forall b :: b in f <==> lo <= b < hi && !IsReserved(reserved, b))
    decreases hi - lo
  {
    if lo < hi {
      FreeFromIsFreeSet(lo + 1, hi, reserved);
      var f, rest := FreeFrom(lo, hi, reserved), FreeFrom(lo + 1, hi, reserved);
      if !IsReserved(reserved, lo) {
        forall j | 0 <= j < |rest| ensures lo < rest[j] { assert rest[j] in rest; }
        assert forall b :: b in f <==> b == lo || b in rest;
      }
    }
  }

  /** A stretch of reserved blocks contributes nothing. */
  lemma {:induction false} FreeSkips(lo: nat, mid: nat, hi: nat, reserved: seq<Run>)
    requires lo <= mid
    requires forall b :: lo <= b < mid ==> IsReserved(reserved, b)
    ensures FreeFrom(lo, hi, reserved) == FreeFrom(mid, hi, reserved)
    decreases mid - lo
  {
    if lo < mid { FreeSkips(lo + 1, mid, hi, reserved); }
  }

  lemma JumpRun(reserved: seq<Run>, i: nat, lo: nat, hi: nat)
    requires i < |reserved| && InRun(reserved[i], lo)
    ensures FreeFrom(lo, hi, reserved) == FreeFrom(reserved[i].End(), hi, reserved)
  {
    forall b | lo <= b < reserved[i].End() ensures IsReserved(reserved, b) { assert InRun(reserved[i], b); }
    FreeSkips(lo, reserved[i].End(), hi, reserved);
  }

  /** A stretch of free blocks contributes each of its blocks. */
  lemma {:induction false} FreeTakes(lo: nat, n: nat, hi: nat, reserved: seq<Run>)
    requires lo + n <= hi
    requires forall b :: lo <= b < lo + n ==> !IsReserved(reserved, b)
    ensures FreeFrom(lo, hi, reserved) == Blocks(lo, n) + FreeFrom(lo + n, hi, reserved)
    decreases n
  {
    if n > 0 {
      FreeTakes(lo + 1, n - 1, hi, reserved);
      assert Blocks(lo, n) == [lo] + Blocks(lo + 1, n - 1);
    } else {
      assert Blocks(lo, n) == [];
    }
  }

  predicate PositiveRuns(reserved: seq<Run>) {
    forall i :: 0 <= i < |reserved| ==> 0 < reserved[i].len
  }

  predicate RunsCapped(runs: seq<Run>, maxRun: nat) {
    forall i :: 0 <= i < |runs| ==> 1 <= runs[i].len <= maxRun
  }

  /** A run boundary is a deliberate cap or a jump over blocks. */
  predicate SplitsJustified(runs: seq<Run>, maxRun: nat) {
    forall i, j :: 0 <= i && j == i + 1 < |runs| ==> runs[i].len == maxRun || runs[i].End() < runs[j].start
  }

  lemma SplitsSnoc(runs: seq<Run>, r: Run, maxRun: nat)
    requires SplitsJustified(runs, maxRun)
    requires runs != [] ==> runs[|runs| - 1].len == maxRun || runs[|runs| - 1].End() < r.start
    ensures SplitsJustified(runs + [r], maxRun)
  {
  }

  ghost predicate WellFormed(reserved: seq<Run>) {
    && SortedRuns(reserved)
    && forall r :: r in reserved ==> r.End() < 0x1_0000_0000_0000_0000
  }

  lemma {:induction false} FreeSplits(lo: nat, mid: nat, hi: nat, reserved: seq<Run>)
    requires lo <= mid <= hi
    ensures FreeFrom(lo, hi, reserved) == FreeFrom(lo, mid, reserved) + FreeFrom(mid, hi, reserved)
    decreases mid - lo
  {
    if lo < mid { FreeSplits(lo + 1, mid, hi, reserved); }
  }

  /** Between the runs before `i` and run `i` itself every block is free. */
  lemma FreeGap(reserved: seq<Run>, i: nat, lo: nat, hi: nat, end: nat)
    requires DisjointRuns(reserved) && i <= |reserved| && lo <= hi <= end
    requires forall j :: 0 <= j < i ==> reserved[j].len == 0 || Min(reserved[j].End(), end) <= lo
    requires i < |reserved| ==> hi <= reserved[i].start || lo == hi
    ensures |FreeFrom(lo, hi, reserved)| == hi - lo
  {
    forall b | lo <= b < hi ensures !IsReserved(reserved, b) {
      forall j | 0 <= j < |reserved| ensures !InRun(reserved[j], b) {
        if i < j { assert reserved[i].End() <= reserved[j].start; }
      }
    }
    FreeTakes(lo, hi - lo, hi, reserved);
  }

  lemma JumpRunTo(reserved: seq<Run>, i: nat, lo: nat, hi: nat)
    requires i < |reserved| && reserved[i].start <= lo && hi <= reserved[i].End() && lo <= hi
    ensures FreeFrom(lo, hi, reserved) == []
  {
    forall b | lo <= b < hi ensures IsReserved(reserved, b) { assert InRun(reserved[i], b); }
    FreeSkips(lo, hi, hi, reserved);
  }

  /** The free blocks of `[lo, p)` have been counted; run `i` and its successors are still to be subtracted. */
  ghost predicate CountedTo(reserved: seq<Run>, i: nat, lo: nat, p: nat, end: nat) {
    && i <= |reserved|
    && lo <= p && (p == lo || p <= end)
    && (i < |reserved| ==> p <= Max(lo, reserved[i].start))
    && (forall j :: 0 <= j < i ==> reserved[j].len == 0 || Min(reserved[j].End(), end) <= p)
  }

  ghost function Uncounted(reserved: seq<Run>, lo: nat, p: nat, end: nat): nat {
    |FreeFrom(lo, p, reserved)| + Max(end - p, 0)
  }

  /** What one turn of the counting loop subtracts: run `i` moves the counted prefix from `p` to the result. */
  lemma CountRun(reserved: seq<Run>, i: nat, lo: nat, p: nat, end: nat) returns (q: nat)
    requires DisjointRuns(reserved) && i < |reserved| && reserved[i].start < end
    requires CountedTo(reserved, i, lo, p, end)
    ensures CountedTo(reserved, i + 1, lo, q, end)
    ensures Uncounted(reserved, lo, q, end) ==
            Uncounted(reserved, lo, p, end) - Max(Min(reserved[i].End(), end) - Max(reserved[i].start, lo), 0)
  {
    var start, stop := Max(reserved[i].start, lo), Min(reserved[i].End(), end);
    if i + 1 < |reserved| { assert reserved[i].End() <= reserved[i + 1].start; }
    if start < stop {
      FreeGap(reserved, i, p, start, end);
      FreeSplits(lo, p, start, reserved);
      JumpRunTo(reserved, i, start, stop);
      FreeSplits(lo, start, stop, reserved);
      q := stop;
    } else {
      q := p;
    }
  }

  lemma CountRest(reserved: seq<Run>, i: nat, lo: nat, p: nat, end: nat)
    requires DisjointRuns(reserved) && CountedTo(reserved, i, lo, p, end)
    requires i < |reserved| ==> end <= reserved[i].start
    ensures Uncounted(reserved, lo, p, end) == |FreeFrom(lo, end, reserved)|
  {
    if p < end {
      FreeGap(reserved, i, p, end, end);
      FreeSplits(lo, p, end, reserved);
    }
  }

  lemma {:induction false} FlattenLength(runs: seq<Run>, maxRun: nat)
    requires RunsCapped(runs, maxRun)
    ensures |runs| <= |Flatten(runs)|
    decreases |runs|
  {
    if runs != [] { FlattenLength(runs[..|runs| - 1], maxRun); }
  }

  lemma OneRun(runs: seq<Run>)
    requires RunsCapped(runs, 1) && |Flatten(runs)| == 1
    ensures runs != [] && Flatten(runs) == [runs[0].start as nat]
  {
  }

  class Allocator {
    var cursor: u64
    const end: u64
    const reserved: seq<Run>
    var nextReserved: nat

    ghost const start: u64
    /** Every block the cursor has passed as allocated, in order. */
    ghost var taken: seq<nat>

    /** The blocks still to be handed out, in order. */
    ghost function Rest(): seq<nat>
      reads this
    {
      FreeFrom(cursor, end, reserved)
    }

    ghost predicate Valid()
      reads this
    {
      && WellFormed(reserved)
      && nextReserved <= |reserved|
      && (forall i :: 0 <= i < nextReserved ==> reserved[i].End() <= cursor)
      && taken + Rest() == FreeFrom(start, end, reserved)
    }

    /** The cursor rests on a block that no later run covers. */
    ghost predicate Settled()
      reads this
    {
      nextReserved < |reserved| ==> cursor < reserved[nextReserved].start
    }

    constructor (start: u64, end: u64, reserved: seq<Run>)
      requires WellFormed(reserved)
      ensures Valid() && Settled()
      ensures this.start == start && this.end == end && this.reserved == reserved
      ensures taken == [] && Rest() == FreeFrom(start, end, reserved)
    {
      this.cursor, this.end, this.reserved, this.nextReserved := start, end, reserved, 0;
      this.start, this.taken := start, [];
      new;
      SkipReserved();
    }

    /** The cursor rests on the next run, which the next skip will jump. */
    ghost predicate AtRun()
      reads this
    {
      nextReserved < |reserved| && InRun(reserved[nextReserved], cursor)
    }

    method SkipReserved()
      requires Valid()
      modifies `cursor, `nextReserved
      ensures Valid() && Settled() && Rest() == old(Rest())
      ensures if old(AtRun()) then old(cursor) < cursor else old(cursor) <= cursor
    {
      while nextReserved < |reserved|
        invariant Valid() && Rest() == old(Rest())
        invariant old(cursor) <= cursor
        invariant old(AtRun()) ==> AtRun() || old(cursor) < cursor
        decreases |reserved| - nextReserved
      {
        var r := reserved[nextReserved];
        if r.End() <= cursor {
          nextReserved := nextReserved + 1;
        } else if r.start <= cursor {
          JumpRun(reserved, nextReserved, cursor, end);
          cursor := r.End();
          nextReserved := nextReserved + 1;
        } else {
          break;
        }
      }
    }

    /** First block after the cursor that may not be allocated. */
    function Limit(): nat
      reads this
    {
      if nextReserved < |reserved| && reserved[nextReserved].start < end then reserved[nextReserved].start else end
    }

    lemma AdvanceTakes(n: nat)
      requires Valid() && Settled() && cursor as int + n <= Limit()
      ensures Rest() == Blocks(cursor, n) + FreeFrom(cursor as int + n, end, reserved)
    {
      forall b | cursor <= b < cursor as int + n ensures !IsReserved(reserved, b) {
        forall i | 0 <= i < |reserved| ensures !InRun(reserved[i], b) {
          if nextReserved < i { assert reserved[nextReserved].start <= reserved[i].start; }
        }
      }
      FreeTakes(cursor, n, end, reserved);
    }

    /** One turn of the allocation loop: the longest run that the cap and the reserved runs allow. */
    method TakeRun(left: u64, maxRun: u64) returns (r: Option<Run>)
      requires Valid() && 0 < left && 1 <= maxRun
      modifies this
      ensures Valid()
      ensures r.None? ==> old(Rest()) == [] && Rest() == [] && taken == old(taken)
      ensures r.Some? ==> 1 <= r.value.len <= left && r.value.len <= maxRun
      ensures r.Some? ==> old(Rest()) == Blocks(r.value.start, r.value.len) + Rest()
      ensures r.Some? ==> taken == old(taken) + Blocks(r.value.start, r.value.len)
      ensures r.Some? ==> old(cursor) <= r.value.start && r.value.End() == cursor
      ensures r.Some? && old(AtRun() || end <= cursor) ==> old(cursor) < r.value.start
      ensures r.Some? && PositiveRuns(reserved) ==>
                r.value.len == left || r.value.len == maxRun || AtRun() || end <= cursor
    {
      SkipReserved();
      if end <= cursor {
        return None;
      }
      var n := Min(Min(left, Limit() - cursor), maxRun);
      AdvanceTakes(n);
      AppendAssociates(taken, Blocks(cursor, n), FreeFrom(cursor + n, end, reserved));
      r := Some(Run(cursor, n));
      taken := taken + Blocks(cursor, n);
      cursor := cursor + n;
    }

    /**
      Ascending runs covering exactly the next `blocks` free blocks, or nothing when
      fewer remain (and the allocator is then exhausted).
    */
    method Take(blocks: u64, maxRun: u64) returns (r: Option<seq<Run>>)
      requires Valid() && 1 <= maxRun
      modifies this
      ensures Valid()
      ensures r.Some? <==> blocks <= |old(Rest())|
      ensures r.Some? ==> Flatten(r.value) == old(Rest())[..blocks] && Rest() == old(Rest())[blocks..]
      ensures r.Some? ==> taken == old(taken) + Flatten(r.value)
      ensures r.Some? ==> RunsCapped(r.value, maxRun)
      ensures r.Some? && PositiveRuns(reserved) ==> SplitsJustified(r.value, maxRun)
      ensures r.None? ==> Rest() == []
    {
      var out: seq<Run> := [];
      var left: u64 := blocks;
      while 0 < left
        invariant Valid() && left <= blocks
        invariant old(Rest()) == Flatten(out) + Rest() && |Flatten(out)| == blocks - left
        invariant taken == old(taken) + Flatten(out)
        invariant RunsCapped(out, maxRun)
        invariant out != [] ==> out[|out| - 1].End() == cursor
        invariant PositiveRuns(reserved) ==>
                    && SplitsJustified(out, maxRun)
                    && (out != [] && 0 < left ==> out[|out| - 1].len == maxRun || AtRun() || end <= cursor)
      {
        var run := TakeRun(left, maxRun);
        if run.None? {
          return None;
        }
        FlattenSnoc(out, run.value);
        AppendAssociates(Flatten(out), Blocks(run.value.start, run.value.len), Rest());
        AppendAssociates(old(taken), Flatten(out), Blocks(run.value.start, run.value.len));
        if PositiveRuns(reserved) { SplitsSnoc(out, run.value, maxRun); }
        out := out + [run.value];
        left := left - run.value.len;
      }
      AppendSplits(Flatten(out), Rest());
      return Some(out);
    }

    /** The next free block, or nothing when none is left. */
    method TakeOne() returns (r: Option<u64>)
      requires Valid()
      modifies this
      ensures Valid()
      ensures r.Some? <==> old(Rest()) != []
      ensures r.Some? ==> r.value == old(Rest())[0] && Rest() == old(Rest())[1..]
      ensures r.None? ==> Rest() == []
    {
      var runs := Take(1, 1);
      if runs.None? {
        return None;
      }
      OneRun(runs.value);
      return Some(runs.value[0].start);
    }

    /** How many blocks are left; counts reserved runs instead of walking blocks. */
    method Remaining() returns (free: u64)
      requires Valid() && DisjointRuns(reserved)
      ensures free == |Rest()|
    {
      free := if cursor < end then end - cursor else 0;
      ghost var p: nat := cursor;
      var i := nextReserved;
      while i < |reserved|
        invariant CountedTo(reserved, i, cursor, p, end)
        invariant free == Uncounted(reserved, cursor, p, end)
      {
        var r := reserved[i];
        if end <= r.start {
          break;
        }
        p := CountRun(reserved, i, cursor, p, end);
        var start, stop := Max(r.start, cursor), Min(r.End(), end);
        free := free - Max(stop - start, 0);
        i := i + 1;
      }
      CountRest(reserved, i, cursor, p, end);
    }
  }

  /** A caller's request: how many blocks, and the cap on one run. */
  datatype Request = Request(blocks: u64, maxRun: u64)

  function Total(requests: seq<Request>): nat {
    if requests == [] then 0 else requests[0].blocks as int + Total(requests[1..])
  }

  /**
    A whole layout pass: the blocks handed out over any sequence of requests are the next
    free blocks, so they depend neither on the caps nor on how the total was split.
  */
  method ServeAll(a: Allocator, requests: seq<Request>) returns (r: Option<seq<nat>>)
    requires a.Valid() && forall q :: q in requests ==> 1 <= q.maxRun
    modifies a
    ensures a.Valid()
    ensures r.Some? <==> Total(requests) <= |old(a.Rest())|
    ensures r.Some? ==> r.value == old(a.Rest())[..Total(requests)] && a.Rest() == old(a.Rest())[Total(requests)..]
  {
    if requests == [] {
      return Some([]);
    }
    var first := a.Take(requests[0].blocks, requests[0].maxRun);
    if first.None? {
      return None;
    }
    var rest := ServeAll(a, requests[1..]);
    if rest.None? {
      return None;
    }
    TakeTwice(old(a.Rest()), requests[0].blocks, Total(requests[1..]));
    return Some(Flatten(first.value) + rest.value);
  }

  lemma TakeTwice<T>(s: seq<T>, m: nat, n: nat)
    requires m + n <= |s|
    ensures s[..m] + s[m..][..n] == s[..m + n] && s[m..][n..] == s[m + n..]
  {
  }
}
