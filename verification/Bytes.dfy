/** Octets and the big-endian words that both XDR and the record layer put on the wire. */
module Bytes {
  type byte = b: int | 0 <= b < 256

  const TWO_31: int := 0x8000_0000
  const TWO_32: int := 0x1_0000_0000
  const TWO_63: int := 0x8000_0000_0000_0000
  const TWO_64: int := 0x1_0000_0000_0000_0000
  const MAX_INT32: int := 0x7FFF_FFFF

  /** Go's conversion int32(x): keep the low 32 bits and read them as two's complement. */
  function Wrap32(x: int): (r: int)
    ensures -TWO_31 <= r < TWO_31
    ensures -TWO_31 <= x < TWO_31 ==> r == x
  {
    (x + TWO_31) % TWO_32 - TWO_31
  }

  /** Go's conversion int64(x). */
  function Wrap64(x: int): (r: int)
    ensures -TWO_63 <= r < TWO_63
    ensures -TWO_63 <= x < TWO_63 ==> r == x
  {
    (x + TWO_63) % TWO_64 - TWO_63
  }

  function MinOf(a: int, b: int): int { if a < b then a else b }

  /** uint32(x) */
  function Uint32(x: int): (r: int)
    ensures 0 <= r < TWO_32
    ensures 0 <= x < TWO_32 ==> r == x
  {
    x % TWO_32
  }

  /** The four octets byte(x >> 24), byte(x >> 16), byte(x >> 8), byte(x); arithmetic shifts, so negative x is fine. */
  function Put32(x: int): (bs: seq<byte>)
    ensures |bs| == 4
  {
    [(x / 0x100_0000) % 256, (x / 0x1_0000) % 256, (x / 0x100) % 256, x % 256]
  }

  function Get32(bs: seq<byte>): (x: int)
    requires |bs| == 4
    ensures 0 <= x < TWO_32
  {
    (bs[0] as int) * 0x100_0000 + (bs[1] as int) * 0x1_0000 + (bs[2] as int) * 0x100 + bs[3]
  }

  lemma Shift16(x: int)
    ensures x / 0x1_0000 == (x / 256) / 256
  {
  }

  lemma Shift24(x: int)
    ensures x / 0x100_0000 == (x / 256) / 256 / 256
  {
    Shift16(x / 256);
  }

  lemma ModUnique32(x: int, q: int, r: int)
    requires x == TWO_32 * q + r && 0 <= r < TWO_32
    ensures x % TWO_32 == r
  {
  }

  lemma GetPut32(x: int)
    ensures Get32(Put32(x)) == x % TWO_32
  {
    var a := x / 256;
    var b := a / 256;
    var c := b / 256;
    Shift16(x);
    Shift24(x);
    assert Get32(Put32(x)) == (c % 256) * 0x100_0000 + (b % 256) * 0x1_0000 + (a % 256) * 0x100 + x % 256;
    ModUnique32(x, c / 256, Get32(Put32(x)));
  }

  lemma PutGet32(bs: seq<byte>)
    requires |bs| == 4
    ensures Put32(Get32(bs)) == bs
  {
    var x := Get32(bs);
    assert x / 0x100 == (bs[0] as int) * 0x1_0000 + (bs[1] as int) * 0x100 + bs[2];
    assert x / 0x1_0000 == (bs[0] as int) * 0x100 + bs[1];
    assert x / 0x100_0000 == bs[0];
  }

  /** Put32 only sees its argument modulo 2^32. */
  lemma Put32Mod(x: int, y: int)
    requires x % TWO_32 == y % TWO_32
    ensures Put32(x) == Put32(y)
  {
    GetPut32(x);
    GetPut32(y);
    PutGet32(Put32(x));
    PutGet32(Put32(y));
  }

  function GetInt32(bs: seq<byte>): (x: int)
    requires |bs| == 4
    ensures -TWO_31 <= x < TWO_31
  {
    Wrap32(Get32(bs))
  }

  lemma GetPutInt32(x: int)
    requires -TWO_31 <= x < TWO_31
    ensures GetInt32(Put32(x)) == x
  {
    GetPut32(x);
  }

  lemma PutGetInt32(bs: seq<byte>)
    requires |bs| == 4
    ensures Put32(GetInt32(bs)) == bs
  {
    PutGet32(bs);
    Put32Mod(GetInt32(bs), Get32(bs));
  }

  /** Eight octets, most significant first. */
  function Put64(x: int): (bs: seq<byte>)
    ensures |bs| == 8
  {
    Put32(x / TWO_32) + Put32(x)
  }

  function Get64(bs: seq<byte>): (x: int)
    requires |bs| == 8
    ensures 0 <= x < TWO_64
  {
    Get32(bs[..4]) * TWO_32 + Get32(bs[4..])
  }

  lemma ModUnique64(x: int, q: int, r: int)
    requires x == TWO_64 * q + r && 0 <= r < TWO_64
    ensures x % TWO_64 == r
  {
  }

  lemma GetPut64(x: int)
    ensures Get64(Put64(x)) == x % TWO_64
  {
    var h, l := x / TWO_32, x % TWO_32;
    var q, m := h / TWO_32, h % TWO_32;
    GetPut32(h);
    GetPut32(x);
    assert Put64(x)[..4] == Put32(h) && Put64(x)[4..] == Put32(x);
    assert Get64(Put64(x)) == m * TWO_32 + l;
    ModUnique64(x, q, m * TWO_32 + l);
  }

  lemma GetPutUint64(x: int)
    requires 0 <= x < TWO_64
    ensures Get64(Put64(x)) == x
  {
    GetPut64(x);
    ModUnique64(x, 0, x);
  }

  lemma GetPutInt64(x: int)
    requires -TWO_63 <= x < TWO_63
    ensures Wrap64(Get64(Put64(x))) == x
  {
    GetPut64(x);
    var r := if x < 0 then x + TWO_64 else x;
    ModUnique64(x, if x < 0 then -1 else 0, r);
    ModUnique64(r + TWO_63, if x < 0 then 1 else 0, x + TWO_63);
  }

  lemma PutGet64(bs: seq<byte>)
    requires |bs| == 8
    ensures Put64(Get64(bs)) == bs
    ensures Put64(Wrap64(Get64(bs))) == bs
  {
    var hi, lo := Get32(bs[..4]), Get32(bs[4..]);
    PutGet32(bs[..4]);
    PutGet32(bs[4..]);
    var x := Get64(bs);
    assert x / TWO_32 == hi;
    Put32Mod(x, lo);
    var y := Wrap64(x);
    assert y == x || y == x - TWO_64;
    assert y / TWO_32 == hi || y / TWO_32 == hi - TWO_32;
    Put32Mod(y / TWO_32, hi);
    Put32Mod(y, lo);
    assert bs == bs[..4] + bs[4..];
  }

  /** The padding that brings n octets to a multiple of four. */
  function Pad(n: nat): (p: nat)
    ensures p < 4 && (n + p) % 4 == 0
  {
    (4 - n % 4) % 4
  }

  function RoundUp4(n: nat): nat { n + Pad(n) }

  function Zeros(n: nat): (bs: seq<byte>)
    ensures |bs| == n && forall i :: 0 <= i < n ==> bs[i] == 0
  {
    seq(n, _ => 0)
  }

  lemma ConcatAssoc(a: seq<byte>, b: seq<byte>, c: seq<byte>)
    ensures (a + b) + c == a + (b + c)
  {
  }

  function Concat(parts: seq<seq<byte>>): seq<byte> {
    if parts == [] then [] else parts[0] + Concat(parts[1..])
  }

  lemma ConcatOne(part: seq<byte>)
    ensures Concat([part]) == part
  {
    assert [part][1..] == [] && part + [] == part;
  }

  lemma ConcatCons(part: seq<byte>, parts: seq<seq<byte>>)
    ensures Concat([part] + parts) == part + Concat(parts)
  {
    assert ([part] + parts)[1..] == parts;
  }
}
