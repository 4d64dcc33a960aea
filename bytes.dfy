/**
 The Go runtime pieces the Pageant client leans on: machine integer ranges, the
 built-in `copy` on byte slices, `encoding/binary`'s big-endian uint32, and the
 `%x` formatting verb for lowercase hexadecimal.
 */
module Bytes {

  type byte = b: int | 0 <= b < 0x100
  type uint32 = x: int | 0 <= x < 0x1_0000_0000
  type uintptr = x: int | 0 <= x < 0x1_0000_0000_0000_0000

  /** A Go `error` value: `None` is nil. */
  datatype Option<T> = None | Some(value: T)

  function Min(a: int, b: int): int { if a <= b then a else b }

  // ---------------------------------------------------------------------------
  // copy(dst, src)

  /** The contents of `dst` after Go's `copy(dst, src)`: the first
      min(len(dst), len(src)) elements come from `src`, the rest of `dst` is
      left as it was, and the length of `dst` never changes. */
  function Copied(dst: seq<byte>, src: seq<byte>): (r: seq<byte>)
    ensures |r| == |dst|
    ensures forall i :: 0 <= i < |r| ==> r[i] == if i < |src| then src[i] else dst[i]
  {
    var k := Min(|dst|, |src|);
    src[..k] + dst[k..]
  }

  /** Go's `copy(dst, src)` into an array: returns the number of elements copied. */
  method Copy(dst: array<byte>, src: seq<byte>) returns (n: nat)
    modifies dst
    ensures n == Min(dst.Length, |src|)
    ensures dst[..] == Copied(old(dst[..]), src)
  {
    n := Min(dst.Length, |src|);
    forall i | 0 <= i < n {
      dst[i] := src[i];
    }
  }

  /** What survives of `src` in the destination: exactly its first
      min(len(dst), len(src)) elements; when `src` fits, all of it. */
  lemma CopiedPrefix(dst: seq<byte>, src: seq<byte>)
    ensures Copied(dst, src)[..Min(|dst|, |src|)] == src[..Min(|dst|, |src|)]
    ensures |src| <= |dst| ==> Copied(dst, src)[..|src|] == src
    ensures |dst| <= |src| ==> Copied(dst, src) == src[..|dst|]
  {
  }

  // ---------------------------------------------------------------------------
  // encoding/binary, big-endian uint32

  /** binary.Write(buf, binary.BigEndian, n): the four bytes of `n`, most
      significant first. */
  function BigEndian(n: uint32): (r: seq<byte>)
    ensures |r| == 4
  {
    [n / 0x100_0000, (n / 0x1_0000) % 0x100, (n / 0x100) % 0x100, n % 0x100]
  }

  /** binary.BigEndian.Uint32(b): the value of the first four bytes of `b`,
      most significant first. Encoding that value gives back the same four
      bytes, so with Uint32OfBigEndian the encoding is a bijection between
      uint32 and 4-byte sequences. */
  function Uint32(b: seq<byte>): (r: uint32)
    requires |b| >= 4
    ensures BigEndian(r) == b[..4]
  {
    var q2: int := (b[0] as int) * 0x100 + b[1];
    var q1: int := q2 * 0x100 + b[2];
    var v: int := q1 * 0x100 + b[3];
    DivModByte(v, q1, b[3]);
    DivModByte(q1, q2, b[2]);
    DivModByte(q2, b[0], b[1]);
    assert v / 0x1_0000 == q2;
    assert v / 0x100_0000 == b[0];
    v
  }

  /** Decoding an encoded uint32 gives it back. */
  lemma {:induction false} Uint32OfBigEndian(n: uint32)
    ensures Uint32(BigEndian(n)) == n
  {
    var q1, r3 := n / 0x100, n % 0x100;
    var q2, r2 := q1 / 0x100, q1 % 0x100;
    var q3, r1 := q2 / 0x100, q2 % 0x100;
    assert n == q1 * 0x100 + r3;
    assert q1 == q2 * 0x100 + r2;
    assert q2 == q3 * 0x100 + r1;
    assert n / 0x1_0000 == q2;
    assert n / 0x100_0000 == q3;
    assert BigEndian(n) == [q3, r1, r2, r3];
  }

  lemma DivModByte(v: int, q: int, r: int)
    requires 0 <= r < 0x100 && v == q * 0x100 + r
    ensures v / 0x100 == q && v % 0x100 == r
  {
  }

  // ---------------------------------------------------------------------------
  // fmt's %0<width>x verb

  predicate IsLowerHex(c: char) { '0' <= c <= '9' || 'a' <= c <= 'f' }

  /** The lowercase hex digit for 0 <= d < 16. */
  function HexDigit(d: nat): (c: char)
    requires d < 16
    ensures IsLowerHex(c) && DigitValue(c) == d
  {
    if d < 10 then ('0' as int + d) as char else ('a' as int + d - 10) as char
  }

  function DigitValue(c: char): nat
  {
    if '0' <= c <= '9' then c as int - '0' as int
    else if 'a' <= c <= 'f' then c as int - 'a' as int + 10
    else 0
  }

  function Pow16(w: nat): nat
  {
    if w == 0 then 1 else 16 * Pow16(w - 1)
  }

  /** The value of a string of hex digits, most significant first. */
  function ParseHex(s: string): nat
  {
    if s == [] then 0 else ParseHex(s[..|s| - 1]) * 16 + DigitValue(s[|s| - 1])
  }

  /** `n` as exactly `width` lowercase hex digits, zero-padded on the left;
      for n < 16^width this is what fmt's "%0<width>x" prints. */
  function Hex(n: nat, width: nat): (r: string)
    ensures |r| == width
    ensures forall i :: 0 <= i < |r| ==> IsLowerHex(r[i])
  {
    if width == 0 then "" else Hex(n / 16, width - 1) + [HexDigit(n % 16)]
  }

  /** Reading the digits back gives `n` whenever it fits in `width` digits. */
  lemma {:induction false} ParseHexOfHex(n: nat, width: nat)
    requires n < Pow16(width)
    ensures ParseHex(Hex(n, width)) == n
  {
    if width > 0 {
      var s := Hex(n, width);
      assert s[..|s| - 1] == Hex(n / 16, width - 1);
      ParseHexOfHex(n / 16, width - 1);
    }
  }
}
