/** Big-endian integers and variable-length integers in byte buffers: octets/src/lib.rs and
    section 16 of RFC 9000. */
module Octets {
  import opened Basics

  type byte = x: int | 0 <= x < 256

  const TWO_62: nat := 0x4000_0000_0000_0000

  // ---------- Big-endian integers ----------

  function Pow256(n: nat): (p: nat)
    ensures p > 0
  {
    if n == 0 then 1 else 256 * Pow256(n - 1)
  }

  /** The low `n` bytes of `v`, most significant first: writing `v as uN`. */
  function ToBE(v: nat, n: nat): (s: seq<byte>)
    ensures |s| == n
  {
    if n == 0 then [] else ToBE(v / 256, n - 1) + [v % 256]
  }

  function FromBE(s: seq<byte>): nat {
    if s == [] then 0 else FromBE(s[..|s| - 1]) * 256 + s[|s| - 1]
  }

  lemma {:induction false} FromBEBound(s: seq<byte>)
    ensures FromBE(s) < Pow256(|s|)
  {
    if s != [] {
      FromBEBound(s[..|s| - 1]);
    }
  }

  /** The most significant byte first. */
  lemma {:induction false} FromBEHead(s: seq<byte>)
    requires s != []
    ensures FromBE(s) == s[0] * Pow256(|s| - 1) + FromBE(s[1..])
  {
    if |s| > 1 {
      var front := s[..|s| - 1];
      FromBEHead(front);
      assert front[1..] == s[1..][..|s| - 2];
      assert Pow256(|s| - 1) == 256 * Pow256(|s| - 2);
      Regroup(s[0], Pow256(|s| - 2), FromBE(front[1..]), s[|s| - 1]);
    } else {
      assert s[..0] == [];
      assert s[1..] == [];
    }
  }

  lemma Regroup(a: int, p: int, f: int, b: int)
    ensures (a * p + f) * 256 + b == a * (256 * p) + (f * 256 + b)
  {
  }

  /** Writing and reading keeps the value modulo the width of the field. */
  lemma {:induction false} BERoundTrip(v: nat, n: nat)
    ensures FromBE(ToBE(v, n)) == v % Pow256(n)
  {
    if n > 0 {
      var s := ToBE(v, n);
      assert s[..n - 1] == ToBE(v / 256, n - 1);
      BERoundTrip(v / 256, n - 1);
      ShiftMod(v, Pow256(n - 1));
    }
  }

  lemma ShiftMod(v: nat, p: nat)
    requires p > 0
    ensures (v / 256 % p) * 256 + v % 256 == v % (256 * p)
  {
    var q, m := v / 256 / p, v / 256 % p;
    assert v / 256 == p * q + m;
    Regroup(q, p, m, v % 256);
    assert p * q == q * p;
    ModUnique(v, q, 256 * p, m * 256 + v % 256);
  }

  lemma ModUnique(v: nat, q: nat, m: nat, r: nat)
    requires 0 <= r < m && v == q * m + r
    ensures v % m == r
  {
    var k, s := v / m, v % m;
    assert v == m * k + s;
    NextMultiple(k, q, m);
    NextMultiple(q, k, m);
  }

  lemma {:induction false} NextMultiple(a: nat, b: nat, m: nat)
    ensures a < b ==> a * m + m <= b * m
    decreases b
  {
    if a < b {
      assert b * m == (b - 1) * m + m;
      NextMultiple(a, b - 1, m);
    }
  }

  /** Different byte strings of one length are different numbers. */
  lemma {:induction false} BEUnique(s: seq<byte>)
    ensures ToBE(FromBE(s), |s|) == s
  {
    if s != [] {
      BEUnique(s[..|s| - 1]);
    }
  }

  // ---------- Variable-length integers ----------

  predicate IsVarintLen(len: nat) {
    len == 1 || len == 2 || len == 4 || len == 8
  }

  /** How many values fit in a varint of this many bytes. */
  function VarintRange(len: nat): nat
    requires len > 0
  {
    64 * Pow256(len - 1)
  }

  /** The code panics on values that no varint can hold. */
  function VarintLen(v: nat): (len: nat)
    requires v < TWO_62
    ensures IsVarintLen(len)
  {
    if v <= 63 then 1
    else if v <= 16383 then 2
    else if v <= 1_073_741_823 then 4
    else 8
  }

  function VarintParseLen(first: byte): (len: nat)
    ensures IsVarintLen(len)
  {
    match first / 64
    case 0 => 1
    case 1 => 2
    case 2 => 4
    case _ => 8
  }

  /** The first byte with the length bits or-ed in: 0x00, 0x40, 0x80 or 0xc0. */
  function OrLength(b: byte, len: nat): byte
    requires IsVarintLen(len)
  {
    match len
    case 1 => b
    case 2 => if b / 64 % 2 == 1 then b else b + 64
    case 4 => if b / 128 == 1 then b else b + 128
    case _ => 192 + b % 64
  }

  /** What `put_varint_with_len` writes. */
  function VarintBytes(v: nat, len: nat): (s: seq<byte>)
    requires IsVarintLen(len)
    ensures |s| == len
  {
    var s := ToBE(v, len);
    [OrLength(s[0], len)] + s[1..]
  }

  /** What `put_varint` writes. */
  function Varint(v: nat): (s: seq<byte>)
    requires v < TWO_62
    ensures |s| == VarintLen(v)
  {
    VarintBytes(v, VarintLen(v))
  }

  // Reading functions return the value and the bytes that are left.

  function TakeU(s: seq<byte>, n: nat): Result<(nat, seq<byte>)> {
    if |s| < n then Err(BufferTooShort) else Ok((FromBE(s[..n]), s[n..]))
  }

  function TakeBytes(s: seq<byte>, n: nat): Result<(seq<byte>, seq<byte>)> {
    if |s| < n then Err(BufferTooShort) else Ok((s[..n], s[n..]))
  }

  /** The masks of `get_varint` drop the two length bits. */
  function TakeVarint(s: seq<byte>): (r: Result<(nat, seq<byte>)>)
    ensures r.Ok? ==> r.value.0 < TWO_62 && |r.value.1| < |s|
  {
    if s == [] then Err(BufferTooShort)
    else
      var len := VarintParseLen(s[0]);
      if |s| < len then Err(BufferTooShort)
      else
        VarintRanges();
        Ok((FromBE(s[..len]) % VarintRange(len), s[len..]))
  }

  function TakeVarBytes(s: seq<byte>): Result<(seq<byte>, seq<byte>)> {
    var (n, rest) :- TakeVarint(s);
    TakeBytes(rest, n)
  }

  lemma VarintRanges()
    ensures VarintRange(1) == 64 && VarintRange(2) == 16384
    ensures VarintRange(4) == 1_073_741_824 && VarintRange(8) == TWO_62
  {
    assert Pow256(1) == 256;
    assert Pow256(3) == 256 * 256 * 256;
    assert Pow256(5) == 256 * 256 * Pow256(3);
    assert Pow256(7) == 256 * 256 * Pow256(5);
  }

  /** The length function is right: a value fits exactly when the field is long enough. */
  lemma VarintFits(v: nat, len: nat)
    requires v < TWO_62 && IsVarintLen(len)
    ensures v < VarintRange(len) <==> VarintLen(v) <= len
  {
    VarintRanges();
  }

  /** A varint of sufficient length, with anything after it, reads back as its value. */
  lemma VarintBytesRoundTrip(v: nat, len: nat, rest: seq<byte>)
    requires IsVarintLen(len) && v < VarintRange(len)
    ensures TakeVarint(VarintBytes(v, len) + rest) == Ok((v, rest))
  {
    var t := VarintBytes(v, len);
    TaggedValue(v, len);
    ModUnique(FromBE(t), VarintTag(len), VarintRange(len), v);
    assert (t + rest)[..len] == t && (t + rest)[len..] == rest;
  }

  /** A value that fits leaves the two top bits of its first byte free. */
  lemma TopBitsFree(v: nat, len: nat)
    requires IsVarintLen(len) && v < VarintRange(len)
    ensures FromBE(ToBE(v, len)) == v && ToBE(v, len)[0] < 64
  {
    var s := ToBE(v, len);
    BERoundTrip(v, len);
    ModUnique(v, 0, Pow256(len), v);
    FromBEHead(s);
    SmallFactor(s[0], Pow256(len - 1));
  }

  lemma SmallFactor(a: nat, p: nat)
    requires p > 0
    ensures a * p < 64 * p ==> a < 64
  {
  }

  lemma TaggedValue(v: nat, len: nat)
    requires IsVarintLen(len) && v < VarintRange(len)
    ensures var t := VarintBytes(v, len);
            && VarintParseLen(t[0]) == len
            && FromBE(t) == VarintTag(len) * VarintRange(len) + v
  {
    var s, t, p := ToBE(v, len), VarintBytes(v, len), Pow256(len - 1);
    TopBitsFree(v, len);
    FromBEHead(s);
    FromBEHead(t);
    assert t[0] == s[0] + 64 * VarintTag(len) && t[1..] == s[1..];
    Distribute(s[0], VarintTag(len), p);
  }

  lemma Distribute(a: nat, tag: nat, p: nat)
    ensures (a + 64 * tag) * p == a * p + tag * (64 * p)
  {
  }

  function VarintTag(len: nat): nat
    requires IsVarintLen(len)
  {
    match len
    case 1 => 0
    case 2 => 1
    case 4 => 2
    case _ => 3
  }

  /** The least length that works: shorter fields do not restore the value. */
  lemma VarintExactly(v: nat, len: nat, rest: seq<byte>)
    requires v < TWO_62 && IsVarintLen(len)
    ensures TakeVarint(VarintBytes(v, len) + rest) == Ok((v, rest)) <==> VarintLen(v) <= len
  {
    VarintFits(v, len);
    if v < VarintRange(len) {
      VarintBytesRoundTrip(v, len, rest);
    } else {
      var s := VarintBytes(v, len) + rest;
      var parsed := VarintParseLen(s[0]);
      assert parsed <= |s| && parsed != len ==> |s[parsed..]| != |rest|;
    }
  }

  lemma VarintRoundTrip(v: nat, rest: seq<byte>)
    requires v < TWO_62
    ensures TakeVarint(Varint(v) + rest) == Ok((v, rest))
  {
    VarintExactly(v, VarintLen(v), rest);
  }

  lemma TakeBytesAppend(s: seq<byte>, rest: seq<byte>)
    ensures TakeBytes(s + rest, |s|) == Ok((s, rest))
  {
    assert (s + rest)[..|s|] == s && (s + rest)[|s|..] == rest;
  }

  lemma TakeUAppend(v: nat, n: nat, rest: seq<byte>)
    ensures TakeU(ToBE(v, n) + rest, n) == Ok((v % Pow256(n), rest))
  {
    BERoundTrip(v, n);
    assert (ToBE(v, n) + rest)[..n] == ToBE(v, n) && (ToBE(v, n) + rest)[n..] == rest;
  }
}
