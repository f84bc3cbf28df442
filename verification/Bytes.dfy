/** Machine integers, byte buffers and big-endian encodings shared by every layer. */
module Bytes {

  type byte = x: int | 0 <= x < 0x100
  type uint16 = x: int | 0 <= x < 0x1_0000
  type uint32 = x: int | 0 <= x < 0x1_0000_0000
  type Buffer = seq<byte>
  type Digest = d: Buffer | |d| == 32 witness seq(32, _ => 0)

  datatype Option<+T> = None | Some(value: T)

  /** How the crate was compiled: with overflow checks (a debug build, where an
      overflowing `+=` panics) or without (a release build, where it wraps). */
  datatype Build = Debug | Release

  /** What a call does that may panic. */
  datatype Outcome<+T> = Panic | Returns(value: T)

  function IncrementByte(build: Build, x: byte): Outcome<byte> {
    if x < 255 then Returns(x + 1) else if build.Debug? then Panic else Returns(0)
  }

  function Min(a: int, b: int): int { if a <= b then a else b }

  function Zeros(n: nat): Buffer { seq(n, i => 0) }

  /** `s` cut or zero-filled to exactly `n` bytes: what copying `s` into a zeroed
      array of `n` bytes leaves there. */
  function Fit(s: Buffer, n: nat): (r: Buffer)
    ensures |r| == n
    ensures forall i :: 0 <= i < n ==> r[i] == if i < |s| then s[i] else 0
  {
    if |s| >= n then s[..n] else s + Zeros(n - |s|)
  }

  function BigEndian16(x: uint16): Buffer { [x / 0x100, x % 0x100] }

  function BigEndian32(x: uint32): Buffer { BigEndian16(x / 0x1_0000) + BigEndian16(x % 0x1_0000) }

  function FromBigEndian16(b: Buffer): uint16
    requires |b| == 2
  {
    var hi: int, lo: int := b[0], b[1];
    hi * 0x100 + lo
  }

  function FromBigEndian32(b: Buffer): uint32
    requires |b| == 4
  {
    var hi: int, lo: int := FromBigEndian16(b[..2]), FromBigEndian16(b[2..]);
    hi * 0x1_0000 + lo
  }

  /** Most significant byte first. */
  lemma BigEndianBytes(x: uint16, y: uint32)
    ensures var b := BigEndian16(x); |b| == 2 && (b[0] as int) * 0x100 + b[1] as int == x
    ensures var b := BigEndian32(y);
            && |b| == 4
            && (b[0] as int) * 0x100_0000 + (b[1] as int) * 0x1_0000 + (b[2] as int) * 0x100 + b[3] as int == y
  {
  }

  lemma BigEndian16RoundTrip(x: uint16, b: Buffer)
    requires |b| == 2
    ensures FromBigEndian16(BigEndian16(x)) == x
    ensures BigEndian16(FromBigEndian16(b)) == b
  {
  }

  lemma BigEndian32RoundTrip(x: uint32, b: Buffer)
    requires |b| == 4
    ensures FromBigEndian32(BigEndian32(x)) == x
    ensures BigEndian32(FromBigEndian32(b)) == b
  {
    BigEndian16RoundTrip(x / 0x1_0000, b[..2]);
    BigEndian16RoundTrip(x % 0x1_0000, b[2..]);
    hide FromBigEndian16;
    var hi, lo := BigEndian16(x / 0x1_0000), BigEndian16(x % 0x1_0000);
    assert (hi + lo)[..2] == hi && (hi + lo)[2..] == lo;
    hide BigEndian16;
    assert b == b[..2] + b[2..];
  }

  lemma ConcatAssociative<T>(a: seq<T>, b: seq<T>, c: seq<T>)
    ensures a + (b + c) == (a + b) + c
  {
  }

  /** `dst[at..at + src.len()].copy_from_slice(src)` */
  method CopyFromSlice(dst: array<byte>, at: nat, src: Buffer)
    requires at + |src| <= dst.Length
    modifies dst
    ensures dst[..] == old(dst[..at]) + src + old(dst[at + |src|..])
  {
    forall i | 0 <= i < |src| {
      dst[at + i] := src[i];
    }
  }
}
