/**
  The exactly-once output contract (`src/sink.rs`): a list of covered spans that refines
  a set of bytes, wrapped around an in-memory image.
*/
module Sink {
  import opened Bytes

  /** The covered bytes `lo <= x < hi`. */
  datatype Span = Span(lo: u64, hi: u64)

  ghost predicate Covers(c: seq<Span>, x: int) {
    exists i :: 0 <= i < |c| && c[i].lo <= x < c[i].hi
  }

  /** Non-empty spans, sorted, disjoint and not even touching. */
  ghost predicate Canonical(c: seq<Span>) {
    && (forall i :: 0 <= i < |c| ==> c[i].lo < c[i].hi)
    && (forall i, j :: 0 <= i < j < |c| ==> c[i].hi < c[j].lo)
  }

  /** `i` separates the spans that start before `offset` from the others. */
  ghost predicate Separates(c: seq<Span>, offset: u64, i: nat) {
    && i <= |c|
    && (forall k :: 0 <= k < i ==> c[k].lo < offset)
    && (forall k :: i <= k < |c| ==> offset <= c[k].lo)
  }

  /** The only two spans that a new region could overlap leave room for it. */
  predicate NeighboursClear(c: seq<Span>, i: nat, lo: u64, hi: u64)
    requires i <= |c|
  {
    && (0 < i ==> c[i - 1].hi <= lo)
    && (i < |c| ==> hi <= c[i].lo)
  }

  lemma NeighboursSuffice(c: seq<Span>, i: nat, lo: u64, hi: u64)
    requires Canonical(c) && Separates(c, lo, i) && lo < hi
    ensures NeighboursClear(c, i, lo, hi) <==> forall x :: lo <= x < hi ==> !Covers(c, x)
  {
    if NeighboursClear(c, i, lo, hi) {
      forall x | lo <= x < hi ensures !Covers(c, x) {
        forall k | 0 <= k < |c| ensures !(c[k].lo <= x < c[k].hi) {
          if k < i - 1 { assert c[k].hi < c[i - 1].lo; }
          if i < k { assert c[i].hi < c[k].lo; }
        }
      }
    } else if 0 < i && lo < c[i - 1].hi {
      assert Covers(c, lo as int);
    } else {
      assert c[i].lo <= c[i].lo as int < c[i].hi;
      assert Covers(c, c[i].lo as int);
    }
  }

  predicate TouchesPrevious(c: seq<Span>, i: nat, lo: u64)
    requires i <= |c|
  {
    0 < i && c[i - 1].hi == lo
  }

  predicate TouchesNext(c: seq<Span>, i: nat, hi: u64)
    requires i <= |c|
  {
    i < |c| && c[i].lo == hi
  }

  /** The list after recording `[lo, hi)` at position `i`, merged with the spans it touches. */
  function Inserted(c: seq<Span>, i: nat, lo: u64, hi: u64): seq<Span>
    requires i <= |c|
  {
    Before(c, i, lo) + [Merged(c, i, lo, hi)] + After(c, i, hi)
  }

  function Before(c: seq<Span>, i: nat, lo: u64): seq<Span>
    requires i <= |c|
  {
    if TouchesPrevious(c, i, lo) then c[..i - 1] else c[..i]
  }

  function After(c: seq<Span>, i: nat, hi: u64): seq<Span>
    requires i <= |c|
  {
    if TouchesNext(c, i, hi) then c[i + 1..] else c[i..]
  }

  function Merged(c: seq<Span>, i: nat, lo: u64, hi: u64): Span
    requires i <= |c|
  {
    Span(if TouchesPrevious(c, i, lo) then c[i - 1].lo else lo, if TouchesNext(c, i, hi) then c[i].hi else hi)
  }

  lemma CanonicalJoin(a: seq<Span>, s: Span, b: seq<Span>)
    requires Canonical(a) && Canonical(b) && s.lo < s.hi
    requires a != [] ==> a[|a| - 1].hi < s.lo
    requires b != [] ==> s.hi < b[0].lo
    ensures Canonical(a + [s] + b)
  {
    forall k | 0 <= k < |a| ensures a[k].hi < s.lo {
      if k < |a| - 1 { assert a[k].hi < a[|a| - 1].lo; }
    }
    forall k | 0 <= k < |b| ensures s.hi < b[k].lo {
      if 0 < k { assert b[0].hi < b[k].lo; }
    }
  }

  lemma SliceCanonical(c: seq<Span>, a: nat, b: nat)
    requires Canonical(c) && a <= b <= |c|
    ensures Canonical(c[a..b])
  {
  }

  lemma NextApart(c: seq<Span>, i: nat)
    requires Canonical(c) && i + 1 < |c|
    ensures c[i].hi < c[i + 1].lo
  {
  }

  /** What the new span is put behind. */
  lemma BeforeCanonical(c: seq<Span>, i: nat, lo: u64, hi: u64)
    requires Canonical(c) && i <= |c| && NeighboursClear(c, i, lo, hi)
    ensures var a := Before(c, i, lo);
            Canonical(a) && (a != [] ==> a[|a| - 1].hi < Merged(c, i, lo, hi).lo)
  {
    hide Canonical;
    SliceCanonical(c, 0, i);
    if 0 < i { SliceCanonical(c, 0, i - 1); }
    if 1 < i { NextApart(c, i - 2); }
  }

  /** And what it is put in front of. */
  lemma AfterCanonical(c: seq<Span>, i: nat, lo: u64, hi: u64)
    requires Canonical(c) && i <= |c| && NeighboursClear(c, i, lo, hi)
    ensures var b := After(c, i, hi);
            Canonical(b) && (b != [] ==> Merged(c, i, lo, hi).hi < b[0].lo)
  {
    hide Canonical;
    SliceCanonical(c, i, |c|);
    assert c[i..|c|] == c[i..];
    if i < |c| {
      SliceCanonical(c, i + 1, |c|);
      assert c[i + 1..|c|] == c[i + 1..];
    }
    if i + 1 < |c| { NextApart(c, i); }
  }

  lemma InsertedCanonical(c: seq<Span>, i: nat, lo: u64, hi: u64)
    requires Canonical(c) && Separates(c, lo, i) && lo < hi && NeighboursClear(c, i, lo, hi)
    ensures Canonical(Inserted(c, i, lo, hi))
  {
    BeforeCanonical(c, i, lo, hi);
    AfterCanonical(c, i, lo, hi);
    assert Merged(c, i, lo, hi).lo < Merged(c, i, lo, hi).hi;
    hide Canonical, Before, After, Merged, Separates, NeighboursClear;
    CanonicalJoin(Before(c, i, lo), Merged(c, i, lo, hi), After(c, i, hi));
  }

  lemma CoversConcat(a: seq<Span>, b: seq<Span>, x: int)
    ensures Covers(a + b, x) <==> Covers(a, x) || Covers(b, x)
  {
    if Covers(a, x) {
      var k :| 0 <= k < |a| && a[k].lo <= x < a[k].hi;
      assert (a + b)[k] == a[k];
    }
    if Covers(b, x) {
      var k :| 0 <= k < |b| && b[k].lo <= x < b[k].hi;
      assert (a + b)[|a| + k] == b[k];
    }
  }

  lemma CoversThree(a: seq<Span>, s: Span, b: seq<Span>, x: int)
    ensures Covers(a + [s] + b, x) <==> Covers(a, x) || s.lo <= x < s.hi || Covers(b, x)
  {
    CoversConcat(a + [s], b, x);
    CoversConcat(a, [s], x);
    if s.lo <= x < s.hi { assert [s][0] == s; }
  }

  lemma BeforeCovers(c: seq<Span>, i: nat, lo: u64, x: int)
    requires i <= |c|
    ensures Covers(c[..i], x)
            <==> Covers(Before(c, i, lo), x) || (TouchesPrevious(c, i, lo) && c[i - 1].lo <= x < c[i - 1].hi)
  {
  }

  lemma AfterCovers(c: seq<Span>, i: nat, hi: u64, x: int)
    requires i <= |c|
    ensures Covers(c[i..], x) <==> Covers(After(c, i, hi), x) || (TouchesNext(c, i, hi) && c[i].lo <= x < c[i].hi)
  {
  }

  lemma InsertedCovers(c: seq<Span>, i: nat, lo: u64, hi: u64, x: int)
    requires Canonical(c) && i <= |c| && lo < hi
    ensures Covers(Inserted(c, i, lo, hi), x) <==> Covers(c, x) || lo <= x < hi
  {
    CoversThree(Before(c, i, lo), Merged(c, i, lo, hi), After(c, i, hi), x);
    SplitCovers(c, i, x);
    BeforeCovers(c, i, lo, x);
    AfterCovers(c, i, hi, x);
  }

  lemma SplitCovers(c: seq<Span>, i: nat, x: int)
    requires i <= |c|
    ensures Covers(c, x) <==> Covers(c[..i], x) || Covers(c[i..], x)
  {
  }

  // ----- the in-memory image -----

  function Grown(buf: seq<byte>, end: nat): seq<byte> {
    if |buf| < end then buf + Zeros(end - |buf|) else buf
  }

  /** The buffer grown to hold `[offset, offset + |bytes|)`, with the bytes written there. */
  function WrittenAt(buf: seq<byte>, offset: nat, bytes: seq<byte>): seq<byte> {
    Splice(Grown(buf, offset + |bytes|), offset, bytes)
  }

  class VecSink {
    var buf: seq<byte>

    constructor ()
      ensures buf == []
    {
      buf := [];
    }

    method Data(offset: u64, bytes: seq<byte>)
      modifies this
      ensures buf == WrittenAt(old(buf), offset, bytes)
    {
      var end := offset as int + |bytes|;
      if |buf| < end {
        buf := buf + Zeros(end - |buf|);
      }
      buf := Splice(buf, offset, bytes);
    }

    method ZeroFill(offset: u64, len: u64)
      modifies this
      ensures buf == WrittenAt(old(buf), offset, Zeros(len))
    {
      var end := offset as int + len as int;
      if |buf| < end {
        buf := buf + Zeros(end - |buf|);
      }
      buf := Splice(buf, offset, Zeros(len));
    }
  }

  // ----- the checking wrapper -----

  /** Nothing in `[lo, hi)` has been recorded. */
  ghost predicate Clear(c: seq<Span>, lo: int, hi: int) {
    forall x :: lo <= x < hi ==> !Covers(c, x)
  }

  /** `c'` covers what `c` covers and `[lo, hi)`. */
  ghost predicate Adds(c: seq<Span>, c': seq<Span>, lo: int, hi: int) {
    forall x :: Covers(c', x) <==> Covers(c, x) || lo <= x < hi
  }

  class CheckingSink {
    const inner: VecSink
    var covered: seq<Span>

    ghost predicate Valid()
      reads this
    {
      Canonical(covered)
    }

    constructor (inner: VecSink)
      ensures Valid() && covered == [] && this.inner == inner
    {
      this.inner, covered := inner, [];
    }

    /** Where the first span starting at or after `offset` is. */
    method PartitionPoint(offset: u64) returns (i: nat)
      requires Valid()
      ensures Separates(covered, offset, i)
    {
      i := 0;
      var j := |covered|;
      while i < j
        invariant 0 <= i <= j <= |covered|
        invariant forall k :: 0 <= k < i ==> covered[k].lo < offset
        invariant forall k :: j <= k < |covered| ==> offset <= covered[k].lo
      {
        var m := (i + j) / 2;
        if covered[m].lo < offset {
          i := m + 1;
        } else {
          j := m;
        }
      }
    }

    /**
      Accepts a region exactly when it is disjoint from everything recorded, adds exactly
      its bytes, and leaves the list alone when it refuses.
    */
    method Record(offset: u64, len: u64) returns (ok: bool)
      requires Valid() && offset as int + len as int < 0x1_0000_0000_0000_0000
      modifies `covered
      ensures Valid()
      ensures ok <==> Clear(old(covered), offset, offset as int + len as int)
      ensures if ok then Adds(old(covered), covered, offset, offset as int + len as int) else covered == old(covered)
    {
      if len == 0 {
        return true;
      }
      var end := offset + len;
      var i := PartitionPoint(offset);
      NeighboursSuffice(covered, i, offset, end);
      if 0 < i && offset < covered[i - 1].hi {
        return false;
      }
      if i < |covered| && covered[i].lo < end {
        return false;
      }
      InsertedCanonical(covered, i, offset, end);
      forall x ensures Covers(Inserted(covered, i, offset, end), x) <==> Covers(covered, x) || offset <= x < end {
        InsertedCovers(covered, i, offset, end, x);
      }
      Coalesce(i, offset, end);
      return true;
    }

    /** Rewrites, removes or inserts one entry, whichever keeps the list coalesced. */
    method Coalesce(i: nat, offset: u64, end: u64)
      requires i <= |covered|
      modifies `covered
      ensures covered == Inserted(old(covered), i, offset, end)
    {
      var mergePrev := 0 < i && covered[i - 1].hi == offset;
      var mergeNext := i < |covered| && covered[i].lo == end;
      if mergePrev && mergeNext {
        covered := covered[i - 1 := Span(covered[i - 1].lo, covered[i].hi)];
        covered := covered[..i] + covered[i + 1..];
      } else if mergePrev {
        covered := covered[i - 1 := Span(covered[i - 1].lo, end)];
      } else if mergeNext {
        covered := covered[i := Span(offset, covered[i].hi)];
      } else {
        covered := covered[..i] + [Span(offset, end)] + covered[i..];
      }
    }

    method Data(offset: u64, bytes: seq<byte>) returns (ok: bool)
      requires Valid() && offset as int + |bytes| < 0x1_0000_0000_0000_0000
      modifies `covered, inner
      ensures Valid()
      ensures ok <==> Clear(old(covered), offset, offset as int + |bytes|)
      ensures if ok then Adds(old(covered), covered, offset, offset as int + |bytes|) else covered == old(covered)
      ensures inner.buf == if ok then WrittenAt(old(inner.buf), offset, bytes) else old(inner.buf)
    {
      ok := Record(offset, |bytes|);
      if ok {
        inner.Data(offset, bytes);
      }
    }

    method ZeroFill(offset: u64, len: u64) returns (ok: bool)
      requires Valid() && offset as int + len as int < 0x1_0000_0000_0000_0000
      modifies `covered, inner
      ensures Valid()
      ensures ok <==> Clear(old(covered), offset, offset as int + len as int)
      ensures if ok then Adds(old(covered), covered, offset, offset as int + len as int) else covered == old(covered)
      ensures inner.buf == if ok then WrittenAt(old(inner.buf), offset, Zeros(len)) else old(inner.buf)
    {
      ok := Record(offset, len);
      if ok {
        inner.ZeroFill(offset, len);
      }
    }

    /** Exactly `[0, imageLen)` was covered. An empty image never passes: the list `[]` is not `[(0, 0)]`. */
    method Finish(imageLen: u64) returns (ok: bool)
      requires Valid()
      ensures ok <==> 0 < imageLen && forall x :: Covers(covered, x) <==> 0 <= x < imageLen
    {
      ok := covered == [Span(0, imageLen)];
      CanonicalPrefix(covered, imageLen);
    }
  }

  lemma FirstSpan(c: seq<Span>, n: int)
    requires Canonical(c) && c != []
    ensures !Covers(c, c[0].hi as int)
    ensures 0 < c[0].lo ==> !Covers(c, 0)
    ensures c[0].lo <= n < c[0].hi ==> Covers(c, n)
    ensures 1 < |c| ==> c[0].hi < c[1].lo && Covers(c, c[1].lo as int)
  {
  }

  /** The one canonical list for a non-empty prefix of the device is a single span. */
  lemma CanonicalPrefix(c: seq<Span>, n: u64)
    requires Canonical(c)
    ensures c == [Span(0, n)] <==> 0 < n && forall x :: Covers(c, x) <==> 0 <= x < n
  {
    if c != [] {
      FirstSpan(c, n);
      FirstSpan(c, c[0].lo);
    }
    if c == [Span(0, n)] {
      forall x ensures Covers(c, x) <==> 0 <= x < n { FirstSpan(c, x); }
    }
    if 0 < n && forall x :: Covers(c, x) <==> 0 <= x < n {
      assert Covers(c, 0);
      assert c[0] == Span(0, n);
    }
  }

  // ----- whole runs -----

  /** One call of the output contract. */
  datatype Emission = Data(offset: u64, bytes: seq<byte>) | ZeroFill(offset: u64, len: u64) {
    function Payload(): seq<byte> {
      if Data? then bytes else Zeros(len)
    }

    function End(): nat { offset as int + |Payload()| }

    function Hits(x: int): nat {
      if offset <= x < End() then 1 else 0
    }

    /** What this call contributes to the byte at `x`. */
    function ByteAt(x: int): byte {
      if offset <= x < End() then Payload()[x - offset] else 0
    }
  }

  /** How many calls emitted the byte at `x`. */
  function Count(run: seq<Emission>, x: int): nat {
    if run == [] then 0 else Count(run[..|run| - 1], x) + run[|run| - 1].Hits(x)
  }

  /** The sum of what was emitted at `x`: the byte itself where it was emitted once. */
  function Sum(run: seq<Emission>, x: int): nat {
    if run == [] then 0 else Sum(run[..|run| - 1], x) + run[|run| - 1].ByteAt(x) as int
  }

  function Length(run: seq<Emission>): nat {
    if run == [] then 0 else
      var n, e := Length(run[..|run| - 1]), run[|run| - 1].End();
      if n < e then e else n
  }

  /** The contract of the writer: every byte of the image is emitted exactly once, and no other. */
  ghost predicate ExactlyOnce(run: seq<Emission>, imageLen: u64) {
    forall x :: Count(run, x) == if 0 <= x < imageLen then 1 else 0
  }

  lemma RunSnoc(run: seq<Emission>, e: Emission, x: int)
    ensures Count(run + [e], x) == Count(run, x) + e.Hits(x)
    ensures Sum(run + [e], x) == Sum(run, x) + e.ByteAt(x) as int
    ensures Length(run + [e]) == if Length(run) < e.End() then e.End() else Length(run)
  {
  }

  lemma {:induction false} NothingEmitted(run: seq<Emission>, x: int)
    ensures Count(run, x) == 0 ==> Sum(run, x) == 0
    ensures Length(run) <= x ==> Count(run, x) == 0
    decreases |run|
  {
    if run != [] { NothingEmitted(run[..|run| - 1], x); }
  }

  lemma {:induction false} CountGrows(run: seq<Emission>, k: nat, x: int)
    requires k <= |run|
    ensures Count(run[..k], x) <= Count(run, x)
    decreases |run|
  {
    if k < |run| {
      assert run[..|run| - 1][..k] == run[..k];
      CountGrows(run[..|run| - 1], k, x);
    } else {
      assert run[..k] == run;
    }
  }

  /** The sink's state after the calls of `run` have all been accepted. */
  ghost predicate Reflects(c: seq<Span>, buf: seq<byte>, run: seq<Emission>) {
    && (forall x :: Count(run, x) <= 1)
    && (forall x :: Covers(c, x) <==> Count(run, x) == 1)
    && |buf| == Length(run)
    && (forall x :: 0 <= x < |buf| ==> buf[x] == Sum(run, x))
  }

  lemma AcceptedStep(c: seq<Span>, c': seq<Span>, buf: seq<byte>, run: seq<Emission>, e: Emission)
    requires Reflects(c, buf, run) && Clear(c, e.offset, e.End()) && Adds(c, c', e.offset, e.End())
    ensures Reflects(c', WrittenAt(buf, e.offset, e.Payload()), run + [e])
  {
    var buf' := WrittenAt(buf, e.offset, e.Payload());
    forall x
      ensures Count(run + [e], x) <= 1 && (Covers(c', x) <==> Count(run + [e], x) == 1)
    {
      RunSnoc(run, e, x);
      assert e.Hits(x) == 1 ==> !Covers(c, x);
    }
    RunSnoc(run, e, 0);
    forall x | 0 <= x < |buf'| ensures buf'[x] == Sum(run + [e], x) {
      RunSnoc(run, e, x);
      NothingEmitted(run, x);
      assert e.Hits(x) == 1 ==> !Covers(c, x);
    }
  }

  lemma CountedTwice(run: seq<Emission>, k: nat, x: int)
    requires k < |run| && Count(run[..k], x) == 1 && run[k].Hits(x) == 1
    ensures 2 <= Count(run, x)
  {
    assert run[..k + 1] == run[..k] + [run[k]];
    RunSnoc(run[..k], run[k], x);
    CountGrows(run, k + 1, x);
  }

  lemma RefusedStep(c: seq<Span>, buf: seq<byte>, run: seq<Emission>, k: nat, imageLen: u64)
    requires k < |run| && Reflects(c, buf, run[..k]) && !Clear(c, run[k].offset, run[k].End())
    ensures !ExactlyOnce(run, imageLen)
  {
    var x :| run[k].offset <= x < run[k].End() && Covers(c, x);
    CountedTwice(run, k, x);
  }

  /** One call on the checking sink. */
  method Accept(sink: CheckingSink, e: Emission) returns (ok: bool)
    requires sink.Valid() && e.End() < 0x1_0000_0000_0000_0000
    modifies sink`covered, sink.inner
    ensures sink.Valid()
    ensures ok <==> Clear(old(sink.covered), e.offset, e.End())
    ensures ok ==> Adds(old(sink.covered), sink.covered, e.offset, e.End())
    ensures ok ==> sink.inner.buf == WrittenAt(old(sink.inner.buf), e.offset, e.Payload())
  {
    match e {
      case Data(offset, bytes) => ok := sink.Data(offset, bytes);
      case ZeroFill(offset, len) => ok := sink.ZeroFill(offset, len);
    }
  }

  /**
    Runs the calls through the checking sink. The verdict is exactly the contract, and on
    success every byte of the buffer is what its one emission said.
  */
  method CheckedRun(run: seq<Emission>, imageLen: u64) returns (image: Option<seq<byte>>)
    requires forall i :: 0 <= i < |run| ==> run[i].End() < 0x1_0000_0000_0000_0000
    ensures image.Some? <==> 0 < imageLen && ExactlyOnce(run, imageLen)
    ensures image.Some? ==> |image.value| == Length(run)
    ensures image.Some? ==> forall x :: 0 <= x < |image.value| ==> image.value[x] == Sum(run, x)
  {
    hide Clear, Adds;
    var inner := new VecSink();
    var sink := new CheckingSink(inner);
    for i := 0 to |run|
      invariant sink.inner == inner && fresh(sink) && fresh(inner) && sink.Valid()
      invariant Reflects(sink.covered, inner.buf, run[..i])
    {
      ghost var c, buf := sink.covered, inner.buf;
      var ok := Accept(sink, run[i]);
      if !ok {
        RefusedStep(c, buf, run, i, imageLen);
        return None;
      }
      AcceptedStep(c, sink.covered, buf, run[..i], run[i]);
      PrefixNext(run, i);
    }
    assert run[..|run|] == run;
    var done := sink.Finish(imageLen);
    return if done then Some(inner.buf) else None;
  }

  // ----- the order of the calls does not matter -----

  function Dropped<T>(s: seq<T>, j: nat): seq<T>
    requires j < |s|
  {
    s[..j] + s[j + 1..]
  }

  lemma DroppedSnoc<T>(s: seq<T>, j: nat)
    requires j < |s|
    ensures j == |s| - 1 ==> Dropped(s, j) == s[..|s| - 1]
    ensures j < |s| - 1 ==> Dropped(s, j) == Dropped(s[..|s| - 1], j) + [s[|s| - 1]]
  {
  }

  lemma DroppedMultiset<T>(s: seq<T>, j: nat)
    requires j < |s|
    ensures multiset(s) == multiset(Dropped(s, j)) + multiset{s[j]}
  {
    assert s == s[..j] + ([s[j]] + s[j + 1..]);
  }

  lemma CancelOne<T>(a: multiset<T>, b: multiset<T>, e: T)
    requires a + multiset{e} == b + multiset{e}
    ensures a == b
  {
    assert a == (a + multiset{e}) - multiset{e};
    assert b == (b + multiset{e}) - multiset{e};
  }

  /** Two orderings of the same elements stay so when the same element is dropped from each. */
  lemma DropLastFromBoth<T>(s: seq<T>, t: seq<T>) returns (j: nat)
    requires multiset(s) == multiset(t) && s != []
    ensures j < |t| && t[j] == s[|s| - 1]
    ensures multiset(s[..|s| - 1]) == multiset(Dropped(t, j))
  {
    var last := s[|s| - 1];
    assert last in multiset(t);
    j :| 0 <= j < |t| && t[j] == last;
    assert s == s[..|s| - 1] + [last];
    DroppedMultiset(t, j);
    CancelOne(multiset(s[..|s| - 1]), multiset(Dropped(t, j)), last);
  }

  lemma {:induction false} Without(run: seq<Emission>, j: nat, x: int)
    requires j < |run|
    ensures Count(run, x) == Count(Dropped(run, j), x) + run[j].Hits(x)
    ensures Sum(run, x) == Sum(Dropped(run, j), x) + run[j].ByteAt(x) as int
    ensures Length(run) == if Length(Dropped(run, j)) < run[j].End() then run[j].End() else Length(Dropped(run, j))
    decreases |run|
  {
    DroppedSnoc(run, j);
    if j < |run| - 1 {
      var last, most := run[|run| - 1], run[..|run| - 1];
      Without(most, j, x);
      RunSnoc(Dropped(most, j), last, x);
    }
  }

  /** Any reordering of the same calls has the same coverage, the same bytes and the same length. */
  lemma {:induction false} ReorderingIsInvisible(run: seq<Emission>, run': seq<Emission>, x: int)
    requires multiset(run) == multiset(run')
    ensures Count(run, x) == Count(run', x) && Sum(run, x) == Sum(run', x) && Length(run) == Length(run')
    decreases |run|
  {
    if run == [] {
      assert |multiset(run')| == 0;
    } else {
      var j := DropLastFromBoth(run, run');
      ReorderingIsInvisible(run[..|run| - 1], Dropped(run', j), x);
      Without(run', j, x);
    }
  }

  /** Where a byte was emitted once, the image holds what that one call said. */
  lemma SumIsTheByte(run: seq<Emission>, i: nat, x: int)
    requires i < |run| && Count(run, x) == 1 && run[i].Hits(x) == 1
    ensures Sum(run, x) == run[i].ByteAt(x)
  {
    Without(run, i, x);
    NothingEmitted(Dropped(run, i), x);
  }

  lemma ReorderingKeepsVerdict(run: seq<Emission>, run': seq<Emission>, imageLen: u64)
    requires multiset(run) == multiset(run')
    ensures ExactlyOnce(run, imageLen) <==> ExactlyOnce(run', imageLen)
  {
    forall x ensures Count(run, x) == Count(run', x) { ReorderingIsInvisible(run, run', x); }
  }

  // ----- how long the buffer is -----

  /** No empty call lies past the end of the image. */
  predicate EmptyCallsInside(run: seq<Emission>, imageLen: nat) {
    forall i :: 0 <= i < |run| && run[i].Payload() == [] ==> run[i].offset <= imageLen
  }

  lemma {:induction false} LengthIsMaximum(run: seq<Emission>)
    ensures forall i :: 0 <= i < |run| ==> run[i].End() <= Length(run)
    ensures Length(run) == 0 || exists i :: 0 <= i < |run| && run[i].End() == Length(run)
    decreases |run|
  {
    if run != [] {
      var most := run[..|run| - 1];
      LengthIsMaximum(most);
      assert forall i :: 0 <= i < |most| ==> most[i] == run[i];
    }
  }

  lemma CountedWhereHit(run: seq<Emission>, i: nat, x: int)
    requires i < |run|
    ensures run[i].Hits(x) <= Count(run, x)
  {
  }

  lemma {:induction false} HitWhereCounted(run: seq<Emission>, x: int) returns (i: nat)
    requires 0 < Count(run, x)
    ensures i < |run| && run[i].Hits(x) == 1
    decreases |run|
  {
    if run[|run| - 1].Hits(x) == 1 {
      i := |run| - 1;
    } else {
      i := HitWhereCounted(run[..|run| - 1], x);
    }
  }

  /**
    The buffer is as long as the image exactly when no empty call lies past its end: an
    empty call records nothing, yet grows the buffer to its offset.
  */
  lemma BufferLengthExact(run: seq<Emission>, imageLen: u64)
    requires 0 < imageLen && ExactlyOnce(run, imageLen)
    ensures Length(run) == imageLen as int <==> EmptyCallsInside(run, imageLen)
  {
    LengthIsMaximum(run);
    assert Count(run, imageLen - 1) == 1;
    var k := HitWhereCounted(run, imageLen - 1);
    assert imageLen <= run[k].End() <= Length(run);
    forall i | 0 <= i < |run| && run[i].Payload() != [] ensures run[i].End() <= imageLen as int {
      CountedWhereHit(run, i, run[i].End() - 1);
    }
  }

  /** An empty call past the end: accepted, finished, and the buffer is too long. */
  lemma StrayEmptyCallCounterexample()
    ensures var run := [Data(0, [7]), Data(5, [])];
            ExactlyOnce(run, 1) && Length(run) == 5
  {
    var run := [Data(0, [7]), Data(5, [])];
    assert run[..1] == [Data(0, [7])];
    assert run[..1][..0] == [];
    assert Length(run[..1]) == 1;
    forall x ensures Count(run, x) == if 0 <= x < 1 then 1 else 0 {
      assert Count(run[..1], x) == run[0].Hits(x);
    }
  }
}
