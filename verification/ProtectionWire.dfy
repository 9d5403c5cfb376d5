/** Header protection bit by bit and byte by byte, as section 5.4 of RFC 9001 describes it: which bits
    of the first byte and which bytes the mask covers, and which bytes are sampled. */
module ProtectionWire {
  import opened Basics
  import opened Octets
  import opened PacketHeader
  import opened PacketNumbers
  import opened HeaderProtection

  /** Bit `i` of a number, counted from the lowest. */
  predicate Bit(x: nat, i: nat) {
    if i == 0 then x % 2 == 1 else Bit(x / 2, i - 1)
  }

  lemma {:induction false} XorBitsBit(a: nat, b: nat, n: nat, i: nat)
    requires i < n
    ensures Bit(XorBits(a, b, n), i) <==> (Bit(a, i) <==> !Bit(b, i))
  {
    Halve(a, b, n);
    if i > 0 {
      hide XorBits;
      XorBitsBit(a / 2, b / 2, n - 1, i - 1);
    }
  }

  /** Exclusive or works on every bit. */
  lemma XorBit(a: byte, b: byte, i: nat)
    requires i < 8
    ensures Bit(Xor(a, b), i) <==> (Bit(a, i) <==> !Bit(b, i))
  {
    XorBitsBit(a, b, 8, i);
  }

  lemma {:induction false} NoBits(i: nat)
    ensures !Bit(0, i)
  {
    if i > 0 {
      NoBits(i - 1);
    }
  }

  lemma HalfMod(m: nat, p: nat)
    requires p > 0
    ensures m % (2 * p) / 2 == m / 2 % p && m % (2 * p) % 2 == m % 2
  {
    var q, r := m / (2 * p), m % (2 * p);
    assert m == (2 * p) * q + r;
    assert (2 * p) * q == 2 * (p * q);
    assert m / 2 == p * q + r / 2 && m % 2 == r % 2;
    ModUnique(m / 2, q, p, r / 2);
  }

  /** The low bits of a number. */
  lemma {:induction false} LowBits(m: nat, k: nat, i: nat)
    ensures Bit(m % Pow2(k), i) <==> Bit(m, i) && i < k
    decreases k
  {
    if k == 0 {
      NoBits(i);
    } else {
      HalfMod(m, Pow2(k - 1));
      if i > 0 {
        LowBits(m / 2, k - 1, i - 1);
      }
    }
  }

  /** The mask covers the four lowest bits of the first byte of a long header and the five lowest of
      a short one, and no others. */
  lemma MaskedBits(first: byte, m: byte, i: nat)
    requires i < 8
    ensures Bit(MaskFirst(first, m), i) <==>
              (Bit(first, i) <==> !(Bit(m, i) && i < if first >= 128 then 4 else 5))
  {
    hide Xor, Bit;
    XorBit(first, m % 16, i);
    XorBit(first, m % 32, i);
    LowBits(m, 4, i);
    LowBits(m, 5, i);
    EightBits();
    assert Pow2(5) == 2 * Pow2(4);
  }

  /** The first mask byte goes to the first byte, the next ones to the packet number in order, and
      all other bytes stay. */
  lemma ProtectedBytesOnWire(hdr: seq<byte>, pnLen: nat, mask: seq<byte>, j: nat)
    requires 1 <= pnLen <= 4 && pnLen < |hdr| && |mask| == 5 && j < |hdr|
    ensures Protect(hdr, pnLen, mask)[j] ==
              if j == 0 then MaskFirst(hdr[0], mask[0])
              else if j < |hdr| - pnLen then hdr[j]
              else Xor(hdr[j], mask[1 + (j - (|hdr| - pnLen))])
  {
    hide MaskFirst, Xor;
  }

  /** The sample is the 16 bytes that begin four bytes after the beginning of the packet number,
      whatever its length, on either side. */
  lemma SampleOnWire(hdr: seq<byte>, pnLen: nat, payload: seq<byte>)
    requires pnLen <= 4 && pnLen <= |hdr| && 20 - pnLen <= |payload|
    ensures var pkt, at := hdr + payload, |hdr| - pnLen;
            && TxSample(payload, pnLen) == pkt[at + 4..at + 20]
            && RxSample(pkt, at) == pkt[at + 4..at + 20]
  {
  }

  /** Long headers are followed by the number of bytes from the packet number on, as a varint of two
      bytes; short headers are not. */
  lemma LengthOnWire(h: Header, payload: seq<byte>)
    requires h.pktNumLen + |payload| <= 16383
    ensures h.ty.Short? ==> LengthField(h, payload) == []
    ensures !h.ty.Short? ==> |LengthField(h, payload)| == 2
                             && FromBE(LengthField(h, payload)) == 0x4000 + h.pktNumLen + |payload|
  {
    if !h.ty.Short? {
      VarintRanges();
      TaggedValue(h.pktNumLen + |payload|, 2);
    }
  }
}
