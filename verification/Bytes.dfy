/**
  Little-endian field access over byte strings (`src/le.rs`).

  A byte is an integer below 256, so that field arithmetic stays linear; the
  checksum and hash modules widen bytes to bit-vectors where they need them.
*/
module Bytes {

  type byte = b: int | 0 <= b < 0x100
  type u16 = v: int | 0 <= v < 0x1_0000
  type u32 = v: int | 0 <= v < 0x1_0000_0000
  type u64 = v: int | 0 <= v < 0x1_0000_0000_0000_0000

  /** The one block size that the reader accepts and the builder writes. */
  const BLOCK_SIZE: nat := 4096

  function Min(a: int, b: int): int {
    if a < b then a else b
  }

  function Max(a: int, b: int): int {
    if a < b then b else a
  }

  /** What the reader reports instead of a value; message text is not modelled. */
  datatype Error = Io | Corrupt | Unsupported | Invalid

  datatype Option<+T> = None | Some(value: T)

  datatype Result<+T> = Ok(value: T) | Err(error: Error) {
    predicate IsFailure() { Err? }

    function PropagateFailure<U>(): Result<U>
      requires Err?
    {
      Err(error)
    }

    function Extract(): T
      requires Ok?
    {
      value
    }
  }

  /** A result that carries no value. */
  datatype Outcome = Pass | Fail(error: Error) {
    predicate IsFailure() { Fail? }

    function PropagateFailure(): Outcome
      requires Fail?
    {
      this
    }
  }

  function Le16(b: seq<byte>, off: nat): u16
    requires off + 2 <= |b|
  {
    b[off] as int + 0x100 * b[off + 1] as int
  }

  function Le32(b: seq<byte>, off: nat): u32
    requires off + 4 <= |b|
  {
    b[off] as int + 0x100 * b[off + 1] as int + 0x1_0000 * b[off + 2] as int + 0x100_0000 * b[off + 3] as int
  }

  function Bytes16(v: u16): (r: seq<byte>)
    ensures |r| == 2
  {
    [v % 0x100, v / 0x100]
  }

  function Bytes32(v: u32): (r: seq<byte>)
    ensures |r| == 4
  {
    [v % 0x100, v / 0x100 % 0x100, v / 0x1_0000 % 0x100, v / 0x100_0000]
  }

  function Zeros(n: nat): seq<byte> {
    seq(n, _ => 0)
  }

  /** `b` with the bytes `w` written over it at `off`. */
  function Splice(b: seq<byte>, off: nat, w: seq<byte>): (r: seq<byte>)
    requires off + |w| <= |b|
    ensures |r| == |b|
    ensures forall k :: 0 <= k < |b| ==> r[k] == if off <= k < off + |w| then w[k - off] else b[k]
  {
    b[..off] + w + b[off + |w|..]
  }

  /** Reading a 16-bit field back from wherever its two bytes were written. */
  lemma Le16Decodes(b: seq<byte>, off: nat, v: u16)
    requires off + 2 <= |b| && b[off..off + 2] == Bytes16(v)
    ensures Le16(b, off) == v
  {
  }

  lemma AppendAssociates<T>(a: seq<T>, b: seq<T>, c: seq<T>)
    ensures a + (b + c) == (a + b) + c
  {
  }

  lemma PrefixNext<T>(s: seq<T>, i: nat)
    requires i < |s|
    ensures s[..i + 1] == s[..i] + [s[i]]
  {
  }

  lemma LastApart<T>(s: seq<T>)
    requires s != []
    ensures s == s[..|s| - 1] + [s[|s| - 1]]
  {
  }

  lemma FrontSlice<T>(s: seq<T>, t: seq<T>, lo: nat, hi: nat)
    requires lo <= hi <= |s|
    ensures (s + t)[lo..hi] == s[lo..hi] && s[0..|s|] == s
  {
  }

  lemma SubSlice<T>(s: seq<T>, lo: nat, hi: nat, a: nat, b: nat)
    requires lo <= hi <= |s| && a <= b <= hi - lo
    ensures s[lo..hi][a..b] == s[lo + a..lo + b]
  {
    var v, w := s[lo..hi][a..b], s[lo + a..lo + b];
    assert |v| == |w| && forall k :: 0 <= k < |v| ==> v[k] == w[k];
  }

  /** Two writes side by side are one write. */
  lemma SpliceNext(b: seq<byte>, off: nat, w: seq<byte>, v: seq<byte>)
    requires off + |w| + |v| <= |b|
    ensures Splice(Splice(b, off, w), off + |w|, v) == Splice(b, off, w + v)
  {
  }

  lemma JoinBytes32(v: u32)
    ensures v % 0x100 + 0x100 * (v / 0x100 % 0x100) + 0x1_0000 * (v / 0x1_0000 % 0x100) + 0x100_0000 * (v / 0x100_0000)
            == v
  {
    assert v / 0x1_0000 == (v / 0x100) / 0x100 && v / 0x100_0000 == (v / 0x1_0000) / 0x100;
  }

  /** Reading a 32-bit field back from wherever its four bytes were written. */
  lemma Le32Decodes(b: seq<byte>, off: nat, v: u32)
    requires off + 4 <= |b| && b[off..off + 4] == Bytes32(v)
    ensures Le32(b, off) == v
  {
    JoinBytes32(v);
    var w := b[off..off + 4];
    assert b[off] == w[0] && b[off + 1] == w[1] && b[off + 2] == w[2] && b[off + 3] == w[3];
  }

  lemma Le16Encodes(b: seq<byte>, off: nat)
    requires off + 2 <= |b|
    ensures b[off..off + 2] == Bytes16(Le16(b, off))
  {
  }

  lemma TakeByte(x: byte, q: nat)
    ensures (x + 0x100 * q) % 0x100 == x && (x + 0x100 * q) / 0x100 == q
  {
  }

  lemma SplitBytes32(x: byte, y: byte, z: byte, w: byte, v: u32)
    requires v == x as int + 0x100 * y as int + 0x1_0000 * z as int + 0x100_0000 * w as int
    ensures v % 0x100 == x && v / 0x100 % 0x100 == y && v / 0x1_0000 % 0x100 == z && v / 0x100_0000 == w
  {
    TakeByte(x, y as int + 0x100 * (z as int + 0x100 * w as int));
    TakeByte(y, z as int + 0x100 * w as int);
    TakeByte(z, w);
    assert v / 0x1_0000 == (v / 0x100) / 0x100 && v / 0x100_0000 == (v / 0x1_0000) / 0x100;
  }

  lemma Le32Encodes(b: seq<byte>, off: nat)
    requires off + 4 <= |b|
    ensures b[off..off + 4] == Bytes32(Le32(b, off))
  {
    SplitBytes32(b[off], b[off + 1], b[off + 2], b[off + 3], Le32(b, off));
  }

  method PutU16(b: array<byte>, off: nat, v: u16)
    requires off + 2 <= b.Length
    modifies b
    ensures b[..] == Splice(old(b[..]), off, Bytes16(v))
  {
    b[off] := v % 0x100;
    b[off + 1] := v / 0x100;
  }

  method PutU32(b: array<byte>, off: nat, v: u32)
    requires off + 4 <= b.Length
    modifies b
    ensures b[..] == Splice(old(b[..]), off, Bytes32(v))
  {
    b[off] := v % 0x100;
    b[off + 1] := v / 0x100 % 0x100;
    b[off + 2] := v / 0x1_0000 % 0x100;
    b[off + 3] := v / 0x100_0000;
  }

  /** Copies a whole slice into place. */
  method CopyIn(out: array<byte>, off: nat, w: seq<byte>)
    requires off + |w| <= out.Length
    modifies out
    ensures out[..] == Splice(old(out[..]), off, w)
  {
    for i := 0 to |w|
      invariant forall k :: 0 <= k < out.Length ==> out[k] == if off <= k < off + i then w[k - off] else old(out[k])
    {
      out[off + i] := w[i];
    }
  }

  // A buffer that starts with known fields gives them up from the last one back.

  lemma Peel<T>(b: seq<T>, p: seq<T>, w: seq<T>)
    requires |p| + |w| <= |b| && b[..|p| + |w|] == p + w
    ensures b[..|p|] == p && b[|p|..|p| + |w|] == w
  {
  }

  lemma Peel16(b: seq<byte>, p: seq<byte>, v: u16)
    requires |p| + 2 <= |b| && b[..|p| + 2] == p + Bytes16(v)
    ensures b[..|p|] == p && Le16(b, |p|) == v
  {
  }

  lemma Peel32(b: seq<byte>, p: seq<byte>, v: u32)
    requires |p| + 4 <= |b| && b[..|p| + 4] == p + Bytes32(v)
    ensures b[..|p|] == p && Le32(b, |p|) == v
  {
    Peel(b, p, Bytes32(v));
    Le32Decodes(b, |p|, v);
  }

  // Building up a zeroed buffer from its front.

  /** Writing at the front of a stretch of zeros. */
  lemma IntoZeros(p: seq<byte>, n: nat, w: seq<byte>, q: seq<byte>)
    requires |w| <= n
    ensures Splice(p + Zeros(n) + q, |p|, w) == p + w + Zeros(n - |w|) + q
  {
  }

  lemma SplitZeros(p: seq<byte>, n: nat, k: nat, q: seq<byte>)
    requires k <= n
    ensures p + Zeros(n) + q == p + Zeros(k) + Zeros(n - k) + q
    ensures p + Zeros(n) + q == p + Zeros(n - k) + (Zeros(k) + q)
  {
  }

  /** Writing into the middle of a stretch of zeros whose rest then belongs to the back. */
  lemma BackOfZeros(p: seq<byte>, n: nat, w: seq<byte>, k: nat, q: seq<byte>)
    requires |w| + k <= n
    ensures Splice(p + Zeros(n) + q, |p| + n - |w| - k, w) == p + Zeros(n - |w| - k) + (w + Zeros(k) + q)
  {
  }

  method Fill8(buf: array<byte>, at: nat, v: byte, ghost p: seq<byte>, ghost n: nat, ghost q: seq<byte>)
    requires buf[..] == p + Zeros(n) + q && at == |p| && 1 <= n
    modifies buf
    ensures buf[..] == p + [v] + Zeros(n - 1) + q
  {
    buf[at] := v;
    IntoZeros(p, n, [v], q);
    assert buf[..] == Splice(p + Zeros(n) + q, |p|, [v]);
  }

  method Fill16(buf: array<byte>, at: nat, v: u16, ghost p: seq<byte>, ghost n: nat, ghost q: seq<byte>)
    requires buf[..] == p + Zeros(n) + q && at == |p| && 2 <= n
    modifies buf
    ensures buf[..] == p + Bytes16(v) + Zeros(n - 2) + q
  {
    PutU16(buf, at, v);
    IntoZeros(p, n, Bytes16(v), q);
  }

  method Fill32(buf: array<byte>, at: nat, v: u32, ghost p: seq<byte>, ghost n: nat, ghost q: seq<byte>)
    requires buf[..] == p + Zeros(n) + q && at == |p| && 4 <= n
    modifies buf
    ensures buf[..] == p + Bytes32(v) + Zeros(n - 4) + q
  {
    PutU32(buf, at, v);
    IntoZeros(p, n, Bytes32(v), q);
  }
}
