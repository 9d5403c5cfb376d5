/** The cursors of octets/src/lib.rs: `Octets` reads from a fixed byte string, `OctetsMut`
    writes into and reads from an array.  Both move an offset forward. */
module Buffers {
  import opened Basics
  import opened Octets

  /** A byte string with `bytes` written over it at position `at`. */
  function Splice(s: seq<byte>, at: nat, bytes: seq<byte>): (t: seq<byte>)
    requires at + |bytes| <= |s|
    ensures |t| == |s|
  {
    s[..at] + bytes + s[at + |bytes|..]
  }

  lemma SpliceTwice(s: seq<byte>, at: nat, a: seq<byte>, b: seq<byte>)
    requires at + |a| + |b| <= |s|
    ensures Splice(Splice(s, at, a), at + |a|, b) == Splice(s, at, a + b)
  {
  }

  class Reader {
    const buf: seq<byte>
    var off: nat

    ghost predicate Valid()
      reads this
    {
      off <= |buf|
    }

    /** The bytes still to be read. */
    function Rest(): seq<byte>
      requires Valid()
      reads this
    {
      buf[off..]
    }

    constructor (buf: seq<byte>)
      ensures Valid() && this.buf == buf && off == 0 && Rest() == buf
    {
      this.buf := buf;
      off := 0;
    }

    method Cap() returns (n: nat)
      requires Valid()
      ensures n == |Rest()|
    {
      n := |buf| - off;
    }

    method PeekU8() returns (r: Result<byte>)
      requires Valid()
      ensures r == if Rest() == [] then Err(BufferTooShort) else Ok(Rest()[0])
    {
      r := if off == |buf| then Err(BufferTooShort) else Ok(buf[off]);
    }

    /** An unsigned integer of `n` bytes in network order. */
    method GetU(n: nat) returns (r: Result<nat>)
      requires Valid()
      modifies this`off
      ensures Valid() && old(off) <= off
      ensures match TakeU(old(Rest()), n)
              case Err(e) => r == Err(e) && off == old(off)
              case Ok((v, rest)) => r == Ok(v) && Rest() == rest
    {
      if |buf| - off < n {
        return Err(BufferTooShort);
      }
      var v: nat := 0;
      for i := 0 to n
        invariant v == FromBE(buf[off..off + i])
      {
        assert buf[off..off + i + 1][..i] == buf[off..off + i];
        v := v * 256 + buf[off + i];
      }
      assert buf[off..][..n] == buf[off..off + n] && buf[off..][n..] == buf[off + n..];
      off := off + n;
      r := Ok(v);
    }

    method GetVarint() returns (r: Result<nat>)
      requires Valid()
      modifies this`off
      ensures Valid() && old(off) <= off
      ensures match TakeVarint(old(Rest()))
              case Err(e) => r == Err(e) && off == old(off)
              case Ok((v, rest)) => r == Ok(v) && Rest() == rest
    {
      var first :- PeekU8();
      var len := VarintParseLen(first);
      if len > |buf| - off {
        return Err(BufferTooShort);
      }
      var u := GetU(len);
      VarintRanges();
      var mask := if len == 1 then 64 else if len == 2 then 16384 else if len == 4 then 1_073_741_824 else TWO_62;
      r := Ok(u.value % mask);
    }

    method GetBytes(n: nat) returns (r: Result<seq<byte>>)
      requires Valid()
      modifies this`off
      ensures Valid() && old(off) <= off
      ensures match TakeBytes(old(Rest()), n)
              case Err(e) => r == Err(e) && off == old(off)
              case Ok((s, rest)) => r == Ok(s) && Rest() == rest
    {
      if |buf| - off < n {
        return Err(BufferTooShort);
      }
      assert buf[off..][..n] == buf[off..off + n] && buf[off..][n..] == buf[off + n..];
      r := Ok(buf[off..off + n]);
      off := off + n;
    }

    method GetBytesWithVarintLength() returns (r: Result<seq<byte>>)
      requires Valid()
      modifies this`off
      ensures Valid() && old(off) <= off
      ensures match TakeVarBytes(old(Rest()))
              case Err(e) => r == Err(e)
              case Ok((s, rest)) => r == Ok(s) && Rest() == rest
      ensures r.Err? ==> match TakeVarint(old(Rest()))
                         case Err(_) => off == old(off)
                         case Ok((_, rest)) => Rest() == rest
    {
      var n :- GetVarint();
      r := GetBytes(n);
    }
  }

  class Writer {
    const buf: array<byte>
    var off: nat

    ghost predicate Valid()
      reads this
    {
      off <= buf.Length
    }

    constructor (buf: array<byte>)
      ensures Valid() && this.buf == buf && off == 0
    {
      this.buf := buf;
      off := 0;
    }

    method Cap() returns (n: nat)
      requires Valid()
      ensures n == buf.Length - off
    {
      n := buf.Length - off;
    }

    /** Writes the bytes at the offset, all or nothing, and touches no other byte. */
    method PutBytes(s: seq<byte>) returns (r: Result<()>)
      requires Valid()
      modifies this`off, buf
      ensures Valid()
      ensures r == if |s| <= buf.Length - old(off) then Ok(()) else Err(BufferTooShort)
      ensures r.Ok? ==> off == old(off) + |s| && buf[..] == Splice(old(buf[..]), old(off), s)
      ensures r.Err? ==> off == old(off) && buf[..] == old(buf[..])
    {
      if buf.Length - off < |s| {
        return Err(BufferTooShort);
      }
      ghost var was := buf[..];
      for i := 0 to |s|
        invariant off == old(off)
        invariant forall j :: 0 <= j < buf.Length ==> buf[j] == if off <= j < off + i then s[j - off] else was[j]
      {
        buf[off + i] := s[i];
      }
      assert buf[..] == Splice(was, off, s);
      off := off + |s|;
      r := Ok(());
    }

    /** Writes `v as uN`: the low `n` bytes of `v` in network order. */
    method PutU(v: nat, n: nat) returns (r: Result<()>)
      requires Valid()
      modifies this`off, buf
      ensures Valid()
      ensures r == if n <= buf.Length - old(off) then Ok(()) else Err(BufferTooShort)
      ensures r.Ok? ==> off == old(off) + n && buf[..] == Splice(old(buf[..]), old(off), ToBE(v, n))
      ensures r.Err? ==> off == old(off) && buf[..] == old(buf[..])
    {
      r := PutBytes(ToBE(v, n));
    }

    method PutVarintWithLen(v: nat, len: nat) returns (r: Result<()>)
      requires Valid() && IsVarintLen(len)
      modifies this`off, buf
      ensures Valid()
      ensures r == if len <= buf.Length - old(off) then Ok(()) else Err(BufferTooShort)
      ensures r.Ok? ==> off == old(off) + len && buf[..] == Splice(old(buf[..]), old(off), VarintBytes(v, len))
      ensures r.Err? ==> off == old(off) && buf[..] == old(buf[..])
    {
      if buf.Length - off < len {
        return Err(BufferTooShort);
      }
      var start := off;
      ghost var was := buf[..];
      r := PutU(v, len);
      buf[start] := OrLength(buf[start], len);
      assert buf[..] == Splice(was, start, ToBE(v, len))[start := OrLength(ToBE(v, len)[0], len)];
      TagSplice(was, start, v, len);
    }

    method PutVarint(v: nat) returns (r: Result<()>)
      requires Valid() && v < TWO_62
      modifies this`off, buf
      ensures Valid()
      ensures r == if VarintLen(v) <= buf.Length - old(off) then Ok(()) else Err(BufferTooShort)
      ensures r.Ok? ==> off == old(off) + |Varint(v)| && buf[..] == Splice(old(buf[..]), old(off), Varint(v))
      ensures r.Err? ==> off == old(off) && buf[..] == old(buf[..])
    {
      r := PutVarintWithLen(v, VarintLen(v));
    }
  }

  lemma TagSplice(was: seq<byte>, start: nat, v: nat, len: nat)
    requires IsVarintLen(len) && start + len <= |was|
    ensures Splice(was, start, ToBE(v, len))[start := OrLength(ToBE(v, len)[0], len)]
         == Splice(was, start, VarintBytes(v, len))
  {
  }
}
