/** Header protection and the whole header pipeline: `encrypt_hdr` and `decrypt_hdr` of
    quiche/src/packet.rs, and section 5.4 of RFC 9001.  The cipher is any function from the
    16 sampled bytes to a mask of five bytes. */
module HeaderProtection {
  import opened Basics
  import opened Octets
  import opened Buffers
  import opened PacketHeader
  import opened PacketNumbers

  const MAX_PKT_NUM_LEN := 4
  const SAMPLE_LEN := 16

  // ---------- Exclusive or ----------

  /** Exclusive or of the low `n` bits. */
  function XorBits(a: nat, b: nat, n: nat): nat {
    if n == 0 then 0 else (if a % 2 == b % 2 then 0 else 1) + 2 * XorBits(a / 2, b / 2, n - 1)
  }

  lemma {:induction false} XorBound(a: nat, b: nat, n: nat)
    ensures XorBits(a, b, n) < Pow2(n)
  {
    if n > 0 {
      XorBound(a / 2, b / 2, n - 1);
    }
  }

  lemma {:induction false} XorTwice(a: nat, b: nat, n: nat)
    requires a < Pow2(n)
    ensures XorBits(XorBits(a, b, n), b, n) == a
  {
    if n > 0 {
      XorTwice(a / 2, b / 2, n - 1);
      var x := XorBits(a, b, n);
      assert x / 2 == XorBits(a / 2, b / 2, n - 1);
    }
  }

  lemma {:induction false} XorZero(a: nat, n: nat)
    requires a < Pow2(n)
    ensures XorBits(a, 0, n) == a
  {
    if n > 0 {
      XorZero(a / 2, n - 1);
    }
  }

  lemma EightBits()
    ensures Pow2(8) == 256 && Pow2(4) == 16 && Pow2(3) == 8
  {
    assert Pow2(2) == 4;
    assert Pow2(4) == 4 * Pow2(2);
    assert Pow2(6) == 4 * Pow2(4);
    assert Pow2(8) == 4 * Pow2(6);
  }

  function Xor(a: byte, b: byte): byte {
    EightBits();
    XorBound(a, b, 8);
    XorBits(a, b, 8)
  }

  lemma XorInverts(a: byte, b: byte)
    ensures Xor(Xor(a, b), b) == a
  {
    EightBits();
    XorTwice(a, b, 8);
  }

  lemma Halve(a: nat, b: nat, n: nat)
    requires n > 0
    ensures XorBits(a, b, n) / 2 == XorBits(a / 2, b / 2, n - 1)
  {
  }

  /** A mask of four or five bits leaves the bits above it alone. */
  lemma XorKeepsHighBits(a: byte, b: byte)
    ensures b < 16 ==> Xor(a, b) / 16 == a / 16
    ensures b < 32 ==> Xor(a, b) / 32 == a / 32
  {
    hide XorBits;
    var a1, a2, a3, a4, a5 := a / 2, a / 2 / 2, a / 2 / 2 / 2, a / 2 / 2 / 2 / 2, a / 2 / 2 / 2 / 2 / 2;
    var b1, b2, b3, b4, b5 := b / 2, b / 2 / 2, b / 2 / 2 / 2, b / 2 / 2 / 2 / 2, b / 2 / 2 / 2 / 2 / 2;
    Halve(a, b, 8);
    Halve(a1, b1, 7);
    Halve(a2, b2, 6);
    Halve(a3, b3, 5);
    Halve(a4, b4, 4);
    FiveHalves(Xor(a, b));
    FiveHalves(a);
    FiveHalves(b);
    EightBits();
    XorZero(a4, 4);
    XorZero(a5, 3);
  }

  lemma FiveHalves(x: byte)
    ensures x / 2 / 2 / 2 / 2 == x / 16 < 16 && x / 2 / 2 / 2 / 2 / 2 == x / 32 < 8
  {
  }

  function XorSeq(s: seq<byte>, m: seq<byte>): seq<byte>
    requires |s| <= |m|
  {
    seq(|s|, i requires 0 <= i < |s| => Xor(s[i], m[i]))
  }

  lemma XorSeqInverts(s: seq<byte>, m: seq<byte>)
    requires |s| <= |m|
    ensures XorSeq(XorSeq(s, m), m) == s
  {
    forall i | 0 <= i < |s| ensures Xor(Xor(s[i], m[i]), m[i]) == s[i] {
      XorInverts(s[i], m[i]);
    }
  }

  // ---------- The first byte ----------

  /** Long headers protect four bits of the first byte, short headers five. */
  function MaskFirst(first: byte, m: byte): byte {
    Xor(first, if first / 128 == 1 then m % 16 else m % 32)
  }

  /** The mask can be removed, because it does not touch the bit that chooses it, nor any bit
      that the header parser looks at. */
  lemma MaskFirstInverts(first: byte, m: byte)
    ensures MaskFirst(MaskFirst(first, m), m) == first
    ensures SameForm(first, MaskFirst(first, m))
  {
    hide Xor;
    XorKeepsHighBits(first, m % 16);
    XorKeepsHighBits(first, m % 32);
    XorInverts(first, m % 16);
    XorInverts(first, m % 32);
    var x := MaskFirst(first, m);
    assert first / 128 == 1 ==> x / 16 / 8 == first / 16 / 8;
    assert first / 128 == 0 ==> x / 32 / 4 == first / 32 / 4;
  }

  // ---------- Protecting and removing protection ----------

  /** `encrypt_hdr` with the mask given.  The header `hdr` ends with the packet number. */
  function Protect(hdr: seq<byte>, pnLen: nat, mask: seq<byte>): (s: seq<byte>)
    requires 1 <= pnLen <= 4 && pnLen < |hdr| && |mask| == 5
    ensures |s| == |hdr|
  {
    [MaskFirst(hdr[0], mask[0])] + hdr[1..|hdr| - pnLen] + XorSeq(hdr[|hdr| - pnLen..], mask[1..])
  }

  /** The bytes sampled on either side, counted from the packet number. */
  function TxSample(payload: seq<byte>, pnLen: nat): seq<byte>
    requires pnLen <= 4 && MAX_PKT_NUM_LEN + SAMPLE_LEN - pnLen <= |payload|
  {
    payload[MAX_PKT_NUM_LEN - pnLen..MAX_PKT_NUM_LEN - pnLen + SAMPLE_LEN]
  }

  function RxSample(pkt: seq<byte>, pnOff: nat): seq<byte>
    requires pnOff + MAX_PKT_NUM_LEN + SAMPLE_LEN <= |pkt|
  {
    pkt[pnOff + MAX_PKT_NUM_LEN..pnOff + MAX_PKT_NUM_LEN + SAMPLE_LEN]
  }

  datatype Opened = Opened(pkt: seq<byte>, pn: nat, pnLen: nat, first: byte)

  /** `decrypt_hdr` with the mask given and the cursor at the packet number. */
  function Unprotect(pkt: seq<byte>, pnOff: nat, mask: seq<byte>): Opened
    requires 1 <= pnOff && pnOff + MAX_PKT_NUM_LEN <= |pkt| && |mask| == 5
  {
    var first := MaskFirst(pkt[0], mask[0]);
    var pnLen := first % 4 + 1;
    var pn := XorSeq(pkt[pnOff..pnOff + pnLen], mask[1..]);
    Opened(Rewrite(pkt, pnOff, first, pn), FromBE(pn), pnLen, first)
  }

  /** The packet with its first byte and its packet number replaced. */
  function Rewrite(pkt: seq<byte>, pnOff: nat, first: byte, pn: seq<byte>): seq<byte>
    requires 1 <= pnOff && pnOff + |pn| <= |pkt|
  {
    [first] + pkt[1..pnOff] + pn + pkt[pnOff + |pn|..]
  }

  /** Both sides sample the same bytes. */
  lemma SameSample(hdr: seq<byte>, pnLen: nat, payload: seq<byte>, pkt: seq<byte>)
    requires pnLen <= 4 && pnLen <= |hdr| && MAX_PKT_NUM_LEN + SAMPLE_LEN - pnLen <= |payload|
    requires pkt == hdr + payload
    ensures RxSample(pkt, |hdr| - pnLen) == TxSample(payload, pnLen)
  {
  }

  lemma XorSeqLength(s: seq<byte>, m: seq<byte>)
    requires |s| <= |m|
    ensures |XorSeq(s, m)| == |s|
  {
  }

  lemma ProtectedParts(hdr: seq<byte>, pnLen: nat, payload: seq<byte>, mask: seq<byte>, pkt: seq<byte>)
    requires 1 <= pnLen <= 4 && pnLen < |hdr| && |mask| == 5
    requires pkt == Protect(hdr, pnLen, mask) + payload
    ensures var n := |hdr| - pnLen;
            && |pkt| == |hdr| + |payload| && pkt[0] == MaskFirst(hdr[0], mask[0]) && pkt[1..n] == hdr[1..n]
            && pkt[n..|hdr|] == XorSeq(hdr[n..], mask[1..]) && pkt[|hdr|..] == payload
  {
    hide MaskFirst, XorSeq;
    XorSeqLength(hdr[|hdr| - pnLen..], mask[1..]);
  }

  /** With the same mask on both sides, protection is removed completely. */
  lemma ProtectionRoundTrips(hdr: seq<byte>, pnLen: nat, payload: seq<byte>, mask: seq<byte>)
    requires 1 <= pnLen <= 4 && pnLen < |hdr| && |mask| == 5 && MAX_PKT_NUM_LEN - pnLen <= |payload|
    requires hdr[0] % 4 + 1 == pnLen
    ensures Unprotect(Protect(hdr, pnLen, mask) + payload, |hdr| - pnLen, mask)
         == Opened(hdr + payload, FromBE(hdr[|hdr| - pnLen..]), pnLen, hdr[0])
  {
    hide MaskFirst, XorSeq, FromBE, Protect, Rewrite;
    var n := |hdr| - pnLen;
    var pkt := Protect(hdr, pnLen, mask) + payload;
    ProtectedParts(hdr, pnLen, payload, mask, pkt);
    MaskFirstInverts(hdr[0], mask[0]);
    XorSeqInverts(hdr[n..], mask[1..]);
    Reassemble(pkt, hdr, n, payload);
  }

  lemma Reassemble(pkt: seq<byte>, hdr: seq<byte>, n: nat, payload: seq<byte>)
    requires 1 <= n <= |hdr| <= |pkt| && pkt[1..n] == hdr[1..n] && pkt[|hdr|..] == payload
    ensures Rewrite(pkt, n, hdr[0], hdr[n..]) == hdr + payload
  {
    assert [hdr[0]] + hdr[1..n] + hdr[n..] == hdr;
  }

  // ---------- The pipeline ----------

  /** Packets with a packet number, and lengths that the two-byte length field can hold. */
  ghost predicate Sendable(h: Header, payload: seq<byte>) {
    && Parseable(h) && !h.ty.Retry? && 1 <= h.pktNumLen <= 4
    && MAX_PKT_NUM_LEN + SAMPLE_LEN - h.pktNumLen <= |payload|
    && (!h.ty.Short? ==> h.pktNumLen + |payload| <= 16383)
  }

  /** Long headers are followed by the length of the rest of the packet. */
  function LengthField(h: Header, payload: seq<byte>): seq<byte> {
    if h.ty.Short? then [] else VarintBytes(h.pktNumLen + |payload|, 2)
  }

  function PlainHeader(h: Header, pn: nat, payload: seq<byte>): seq<byte>
    requires Encodable(h)
  {
    HeaderBytes(h) + LengthField(h, payload) + ToBE(pn, h.pktNumLen)
  }

  /** Any function from the sampled bytes to five bytes. */
  type Cipher = f: seq<byte> -> seq<byte> | forall s :: |f(s)| == 5 witness s => [0, 0, 0, 0, 0]

  function MaskOf(cipher: Cipher, sample: seq<byte>): (mask: seq<byte>)
    ensures |mask| == 5
  {
    cipher(sample)
  }

  /** The packet on the wire: header, length, packet number, protection. */
  function Send(h: Header, pn: nat, payload: seq<byte>, cipher: Cipher): seq<byte>
    requires Sendable(h, payload)
  {
    Protect(PlainHeader(h, pn, payload), h.pktNumLen, MaskOf(cipher, TxSample(payload, h.pktNumLen))) + payload
  }

  /** What the receiver does with it, up to the full packet number. */
  function Receive(pkt: seq<byte>, dcidLen: nat, largest: nat, cipher: Cipher): Result<(Header, nat)> {
    var (h, rest) :- ParsePrefix(pkt, dcidLen);
    Open(pkt, h, |pkt| - |rest|, largest, cipher)
  }

  /** The header and, for long headers, the length field. */
  function ParsePrefix(pkt: seq<byte>, dcidLen: nat): (r: Result<(Header, seq<byte>)>)
    ensures r.Ok? ==> |r.value.1| < |pkt|
  {
    hide ParseHeader, TakeVarint;
    var (h, s1) :- ParseHeader(pkt, dcidLen);
    ParseHeaderShrinks(pkt, dcidLen);
    var (len, s2) :- if h.ty.Short? then Ok((|s1|, s1)) else TakeVarint(s1);
    if len > |s2| then Err(InvalidPacket) else Ok((h, s2))
  }

  /** Removes the protection and completes the packet number. */
  function Open(pkt: seq<byte>, h: Header, pnOff: nat, largest: nat, cipher: Cipher): Result<(Header, nat)>
    requires 1 <= pnOff <= |pkt|
  {
    if |pkt| - pnOff < MAX_PKT_NUM_LEN + SAMPLE_LEN then Err(BufferTooShort)
    else
      var mask := MaskOf(cipher, RxSample(pkt, pnOff));
      var o := Unprotect(pkt, pnOff, mask);
      PnBound(pkt, pnOff, mask);
      Ok((h.(pktNum := o.pn, pktNumLen := o.pnLen, keyPhase := h.ty.Short? && o.first / 4 % 2 == 1),
          DecodePktNum(largest, o.pn, o.pnLen)))
  }

  lemma PnBound(pkt: seq<byte>, pnOff: nat, mask: seq<byte>)
    requires 1 <= pnOff && pnOff + MAX_PKT_NUM_LEN <= |pkt| && |mask| == 5
    ensures var o := Unprotect(pkt, pnOff, mask); 1 <= o.pnLen <= 4 && o.pn < Pow256(o.pnLen)
  {
    hide MaskFirst, Rewrite;
    var pnLen := MaskFirst(pkt[0], mask[0]) % 4 + 1;
    FromBEBound(XorSeq(pkt[pnOff..pnOff + pnLen], mask[1..]));
  }

  lemma FirstByteBits(h: Header)
    requires Encodable(h) && 1 <= h.pktNumLen
    ensures FirstByte(h) % 4 + 1 == h.pktNumLen
    ensures h.ty.Short? ==> (FirstByte(h) / 4 % 2 == 1 <==> h.keyPhase)
  {
  }

  /** How the protected packet splits into first byte, rest of the header, and the rest. */
  lemma SentShape(h: Header, pn: nat, payload: seq<byte>, cipher: Cipher) returns (first: byte, rest: seq<byte>)
    requires Sendable(h, payload) && PacketHeader.Encodable(h)
    ensures Send(h, pn, payload, cipher) == [first] + (TailBytes(h) + (LengthField(h, payload) + rest))
    ensures |rest| == h.pktNumLen + |payload| && SameForm(FirstByte(h), first)
  {
    hide MaskFirst, TailBytes, LengthField, FirstByte, Parseable, PacketHeader.Encodable, Protect,
         PlainHeader, SameForm, MaskOf, TxSample;
    var hdr, mask := PlainHeader(h, pn, payload), MaskOf(cipher, TxSample(payload, h.pktNumLen));
    PlainParts(h, pn, payload);
    MaskFirstInverts(hdr[0], mask[0]);
    first, rest := ProtectedShape(hdr, h.pktNumLen, mask, TailBytes(h), LengthField(h, payload), payload);
  }

  lemma ProtectedShape(hdr: seq<byte>, k: nat, mask: seq<byte>, tail: seq<byte>, len: seq<byte>, payload: seq<byte>)
    returns (first: byte, rest: seq<byte>)
    requires 1 <= k <= 4 && k < |hdr| && |mask| == 5 && hdr[1..|hdr| - k] == tail + len
    ensures Protect(hdr, k, mask) + payload == [first] + (tail + (len + rest))
    ensures |rest| == k + |payload| && first == MaskFirst(hdr[0], mask[0])
  {
    hide MaskFirst, XorSeq, Protect;
    var n := |hdr| - k;
    ProtectedBytes(hdr, k, mask);
    first := MaskFirst(hdr[0], mask[0]);
    var y := XorSeq(hdr[n..], mask[1..]);
    rest := y + payload;
    SentBytes(Protect(hdr, k, mask) + payload, Protect(hdr, k, mask), first, hdr[1..n], tail, len, y, payload);
  }

  lemma ProtectedBytes(hdr: seq<byte>, pnLen: nat, mask: seq<byte>)
    requires 1 <= pnLen <= 4 && pnLen < |hdr| && |mask| == 5
    ensures Protect(hdr, pnLen, mask)
         == [MaskFirst(hdr[0], mask[0])] + hdr[1..|hdr| - pnLen] + XorSeq(hdr[|hdr| - pnLen..], mask[1..])
    ensures |XorSeq(hdr[|hdr| - pnLen..], mask[1..])| == pnLen
  {
  }

  lemma SentBytes(pkt: seq<byte>, protected: seq<byte>, x: byte, body: seq<byte>,
                  tail: seq<byte>, len: seq<byte>, y: seq<byte>, payload: seq<byte>)
    requires pkt == protected + payload && protected == [x] + body + y && body == tail + len
    ensures pkt == [x] + (tail + (len + (y + payload)))
  {
  }

  lemma PlainParts(h: Header, pn: nat, payload: seq<byte>)
    requires PacketHeader.Encodable(h)
    ensures var hdr := PlainHeader(h, pn, payload);
            && |hdr| == 1 + |TailBytes(h)| + |LengthField(h, payload)| + h.pktNumLen
            && hdr[0] == FirstByte(h)
            && hdr[1..|hdr| - h.pktNumLen] == TailBytes(h) + LengthField(h, payload)
  {
    hide TailBytes, LengthField, ToBE, FirstByte;
  }

  /** The main result: whatever the cipher, the receiver recovers the type, version,
      connection IDs, token, key phase, packet number length and truncated number, and the
      full packet number exactly when it is decodable. */
  lemma PipelineRecovers(h: Header, pn: nat, payload: seq<byte>, cipher: Cipher, largest: nat)
    requires Sendable(h, payload) && pn < TWO_62
    ensures Recovered(Receive(Send(h, pn, payload, cipher), |h.dcid|, largest, cipher), h, pn, largest)
  {
    hide Receive, ParsePrefix, Open, Send, Sendable, Recovered;
    PrefixOfSent(h, pn, payload, cipher);
    OpensTo(h, pn, payload, cipher, largest);
    ReceiveOpens(Send(h, pn, payload, cipher), |h.dcid|, largest, cipher);
  }

  lemma ReceiveOpens(pkt: seq<byte>, dcidLen: nat, largest: nat, cipher: Cipher)
    requires ParsePrefix(pkt, dcidLen).Ok?
    ensures var (h, rest) := ParsePrefix(pkt, dcidLen).value;
            Receive(pkt, dcidLen, largest, cipher) == Open(pkt, h, |pkt| - |rest|, largest, cipher)
  {
    hide ParsePrefix, Open;
  }

  /** The low bytes of a packet number. */
  function Truncated(pn: nat, k: nat): nat { pn % Pow256(k) }

  ghost predicate Recovered(r: Result<(Header, nat)>, h: Header, pn: nat, largest: nat) {
    var win := Pow256(h.pktNumLen);
    && r.Ok?
    && r.value.0 == Parsed(h).(pktNum := Truncated(pn, h.pktNumLen), pktNumLen := h.pktNumLen,
                               keyPhase := h.ty.Short? && h.keyPhase)
    && (r.value.1 == pn <==> Decodable(pn, largest + 1, win))
  }

  lemma PrefixOfSent(h: Header, pn: nat, payload: seq<byte>, cipher: Cipher)
    requires Sendable(h, payload)
    ensures var pkt := Send(h, pn, payload, cipher);
            && ParsePrefix(pkt, |h.dcid|).Ok? && ParsePrefix(pkt, |h.dcid|).value.0 == Parsed(h)
            && |ParsePrefix(pkt, |h.dcid|).value.1| == h.pktNumLen + |payload|
  {
    assert PacketHeader.Encodable(h) && Parseable(h);
    hide ParsePrefix, Send, TailBytes, FirstByte, Parseable, LengthField, PacketHeader.Encodable, SameForm;
    var first, rest := SentShape(h, pn, payload, cipher);
    PrefixOf(h, payload, Send(h, pn, payload, cipher), first, rest);
  }

  /** Opening a sent packet at its number field. */
  lemma OpensTo(h: Header, pn: nat, payload: seq<byte>, cipher: Cipher, largest: nat)
    requires Sendable(h, payload) && pn < TWO_62
    ensures var pkt := Send(h, pn, payload, cipher);
            var at := |pkt| - (h.pktNumLen + |payload|);
            && 1 <= at <= |pkt|
            && Recovered(Open(pkt, Parsed(h), at, largest, cipher), h, pn, largest)
  {
    NumberField(h, pn, payload);
    hide Protect, PlainHeader, Parseable, TxSample, MaskOf, Open, Recovered;
    var hdr, mask := PlainHeader(h, pn, payload), MaskOf(cipher, TxSample(payload, h.pktNumLen));
    var pkt := Send(h, pn, payload, cipher);
    assert pkt == Protect(hdr, h.pktNumLen, mask) + payload;
    hide Send;
    OpensAt(h, pn, payload, cipher, largest, hdr, mask, pkt);
  }

  lemma OpensAt(h: Header, pn: nat, payload: seq<byte>, cipher: Cipher, largest: nat,
                hdr: seq<byte>, mask: seq<byte>, pkt: seq<byte>)
    requires Sendable(h, payload) && pn < TWO_62
    requires mask == MaskOf(cipher, TxSample(payload, h.pktNumLen))
    requires hdr == PlainHeader(h, pn, payload) && h.pktNumLen < |hdr|
    requires pkt == Protect(hdr, h.pktNumLen, mask) + payload
    ensures var at := |pkt| - (h.pktNumLen + |payload|);
            && 1 <= at <= |pkt|
            && Recovered(Open(pkt, Parsed(h), at, largest, cipher), h, pn, largest)
  {
    FirstByteBits(h);
    hide Protect, Unprotect, Decodable, DecodePktNum, PlainHeader, FromBE, Parseable, FirstByte,
         RxSample, TxSample, MaskOf, Truncated;
    ReceivedNumber(h, pn, payload, mask, hdr, pkt, |pkt| - (h.pktNumLen + |payload|));
    DecodeTruncated(pn, largest, h.pktNumLen);
    hide Pow256, Parsed;
  }

  lemma DecodeTruncated(pn: nat, largest: nat, k: nat)
    requires 1 <= k <= 4 && pn < TWO_62
    ensures Truncated(pn, k) < Pow256(k)
    ensures DecodePktNum(largest, Truncated(pn, k), k) == pn <==> Decodable(pn, largest + 1, Pow256(k))
  {
    hide DecodePktNum, Decodable, Pow256;
    DecodeInverts(pn, largest, k);
  }

  /** The prefix of a sent packet is its header and length field. */
  lemma PrefixOf(h: Header, payload: seq<byte>, pkt: seq<byte>, first: byte, rest: seq<byte>)
    requires Parseable(h) && !h.ty.Retry? && SameForm(FirstByte(h), first)
    requires pkt == [first] + (TailBytes(h) + (LengthField(h, payload) + rest))
    requires |rest| == h.pktNumLen + |payload| && (!h.ty.Short? ==> |rest| <= 16383)
    ensures ParsePrefix(pkt, |h.dcid|) == Ok((Parsed(h), rest))
  {
    hide ParseHeader, TakeVarint, TailBytes, FirstByte, Parseable, LengthField, SameForm;
    HeaderRoundTrips(h, first, LengthField(h, payload) + rest);
    LengthRoundTrip(h, payload, rest);
  }

  /** Removing protection from a sent packet gives its number field and first byte. */
  lemma ReceivedNumber(h: Header, pn: nat, payload: seq<byte>, mask: seq<byte>, hdr: seq<byte>, pkt: seq<byte>, at: nat)
    requires Sendable(h, payload) && |mask| == 5 && hdr == PlainHeader(h, pn, payload) && h.pktNumLen < |hdr|
    requires pkt == Protect(hdr, h.pktNumLen, mask) + payload && at == |pkt| - (h.pktNumLen + |payload|)
    ensures 1 <= at && at + MAX_PKT_NUM_LEN + SAMPLE_LEN <= |pkt|
    ensures RxSample(pkt, at) == TxSample(payload, h.pktNumLen)
    ensures var o := Unprotect(pkt, at, mask);
            o.pn == Truncated(pn, h.pktNumLen) && o.pnLen == h.pktNumLen && o.first == FirstByte(h)
  {
    FirstByteBits(h);
    NumberField(h, pn, payload);
    hide Protect, Unprotect, Truncated, PlainHeader, FromBE, FirstByte, RxSample, TxSample, Parseable;
    ReceivedFields(hdr, h.pktNumLen, payload, mask, pkt);
  }

  lemma ReceivedFields(hdr: seq<byte>, k: nat, payload: seq<byte>, mask: seq<byte>, pkt: seq<byte>)
    requires 1 <= k <= 4 && k < |hdr| && |mask| == 5 && MAX_PKT_NUM_LEN + SAMPLE_LEN - k <= |payload|
    requires hdr[0] % 4 + 1 == k && pkt == Protect(hdr, k, mask) + payload
    ensures var at := |pkt| - (k + |payload|);
            && 1 <= at && at + MAX_PKT_NUM_LEN + SAMPLE_LEN <= |pkt|
            && RxSample(pkt, at) == TxSample(payload, k)
            && var o := Unprotect(pkt, at, mask);
               o.pn == FromBE(hdr[|hdr| - k..]) && o.pnLen == k && o.first == hdr[0]
  {
    hide Protect, Unprotect, FromBE, RxSample, TxSample;
    SameSample(Protect(hdr, k, mask), k, payload, pkt);
    ProtectionRoundTrips(hdr, k, payload, mask);
  }

  lemma LengthRoundTrip(h: Header, payload: seq<byte>, rest: seq<byte>)
    requires !h.ty.Short? ==> h.pktNumLen + |payload| <= 16383
    ensures if h.ty.Short? then LengthField(h, payload) + rest == rest
            else TakeVarint(LengthField(h, payload) + rest) == Ok((h.pktNumLen + |payload|, rest))
  {
    if !h.ty.Short? {
      VarintExactly(h.pktNumLen + |payload|, 2, rest);
    }
  }

  lemma NumberField(h: Header, pn: nat, payload: seq<byte>)
    requires Encodable(h)
    ensures var hdr := PlainHeader(h, pn, payload);
            && hdr[0] == FirstByte(h) && h.pktNumLen < |hdr|
            && FromBE(hdr[|hdr| - h.pktNumLen..]) == Truncated(pn, h.pktNumLen)
  {
    var hdr := PlainHeader(h, pn, payload);
    assert hdr[|hdr| - h.pktNumLen..] == ToBE(pn, h.pktNumLen);
    BERoundTrip(pn, h.pktNumLen);
  }

  // ---------- In place ----------

  /** `encode_pkt_num`: lengths other than one to four are refused. */
  method EncodePktNum(pn: nat, pnLen: nat, b: Writer) returns (r: Result<()>)
    requires b.Valid()
    modifies b`off, b.buf
    ensures b.Valid()
    ensures r == if !(1 <= pnLen <= 4) then Err(InvalidPacket)
                 else if pnLen <= b.buf.Length - old(b.off) then Ok(()) else Err(BufferTooShort)
    ensures r.Ok? ==> b.off == old(b.off) + pnLen && b.buf[..] == Splice(old(b.buf[..]), old(b.off), ToBE(pn, pnLen))
    ensures r.Err? ==> b.off == old(b.off) && b.buf[..] == old(b.buf[..])
  {
    if 1 <= pnLen <= 4 {
      r := b.PutU(pn, pnLen);
    } else {
      r := Err(InvalidPacket);
    }
  }

  /** Masks `len` bytes from `at` on. */
  method XorInPlace(buf: array<byte>, at: nat, len: nat, mask: seq<byte>)
    requires at + len <= buf.Length && len <= |mask|
    modifies buf
    ensures buf[..] == old(buf[..at]) + XorSeq(old(buf[at..at + len]), mask) + old(buf[at + len..])
  {
    hide Xor;
    ghost var was := buf[..];
    for i := 0 to len
      invariant forall j :: 0 <= j < buf.Length ==>
                  buf[j] == if at <= j < at + i then Xor(was[j], mask[j - at]) else was[j]
    {
      buf[at + i] := Xor(buf[at + i], mask[i]);
    }
    assert was[at..at + len] == old(buf[at..at + len]);
    assert buf[..] == was[..at] + XorSeq(was[at..at + len], mask) + was[at + len..];
  }

  /** `encrypt_hdr` on a packet whose payload starts at `payloadOffset`. */
  method EncryptHdr(buf: array<byte>, payloadOffset: nat, pnLen: nat, cipher: Cipher)
    requires 1 <= pnLen <= 4 && pnLen < payloadOffset
    requires payloadOffset + MAX_PKT_NUM_LEN + SAMPLE_LEN - pnLen <= buf.Length
    modifies buf
    ensures var payload := old(buf[payloadOffset..]);
            buf[..] == Protect(old(buf[..payloadOffset]), pnLen, MaskOf(cipher, TxSample(payload, pnLen))) + payload
  {
    hide Protect;
    var payload := buf[payloadOffset..];
    var mask := MaskOf(cipher, TxSample(payload, pnLen));
    MaskInPlace(buf, payloadOffset, pnLen, mask);
  }

  method MaskInPlace(buf: array<byte>, payloadOffset: nat, pnLen: nat, mask: seq<byte>)
    requires 1 <= pnLen <= 4 && pnLen < payloadOffset <= buf.Length && |mask| == 5
    modifies buf
    ensures buf[..] == Protect(old(buf[..payloadOffset]), pnLen, mask) + old(buf[payloadOffset..])
  {
    hide MaskFirst, XorSeq;
    ghost var hdr, payload := buf[..payloadOffset], buf[payloadOffset..];
    var n := payloadOffset - pnLen;
    buf[0] := MaskFirst(buf[0], mask[0]);
    assert buf[n..n + pnLen] == hdr[n..] && buf[n + pnLen..] == payload;
    assert buf[..n] == [MaskFirst(hdr[0], mask[0])] + hdr[1..n];
    XorInPlace(buf, n, pnLen, mask[1..]);
    assert |hdr| - pnLen == n;
  }

  method UnmaskInPlace(buf: array<byte>, pnOff: nat, mask: seq<byte>) returns (first: byte, pnLen: nat)
    requires 1 <= pnOff && pnOff + MAX_PKT_NUM_LEN <= buf.Length && |mask| == 5
    modifies buf
    ensures var o := Unprotect(old(buf[..]), pnOff, mask);
            && buf[..] == o.pkt && first == o.first && pnLen == o.pnLen
            && pnOff + pnLen <= buf.Length && o.pn == FromBE(buf[pnOff..pnOff + pnLen])
  {
    hide MaskFirst, XorSeq, FromBE, Unprotect;
    ghost var pkt := buf[..];
    first := MaskFirst(buf[0], mask[0]);
    pnLen := first % 4 + 1;
    assert buf[..pnOff] == pkt[..pnOff] && buf[pnOff..pnOff + pnLen] == pkt[pnOff..pnOff + pnLen];
    assert buf[pnOff + pnLen..] == pkt[pnOff + pnLen..];
    XorInPlace(buf, pnOff, pnLen, mask[1..]);
    ghost var masked := buf[..];
    buf[0] := first;
    assert buf[..] == masked[0 := first];
    Unmasked(pkt, pnOff, mask, first, pnLen, masked, buf[..]);
    assert buf[pnOff..pnOff + pnLen] == buf[..][pnOff..pnOff + pnLen];
  }

  lemma Unmasked(pkt: seq<byte>, pnOff: nat, mask: seq<byte>, first: byte, pnLen: nat, masked: seq<byte>,
                 result: seq<byte>)
    requires 1 <= pnOff && pnOff + MAX_PKT_NUM_LEN <= |pkt| && |mask| == 5
    requires first == MaskFirst(pkt[0], mask[0]) && pnLen == first % 4 + 1
    requires masked == pkt[..pnOff] + XorSeq(pkt[pnOff..pnOff + pnLen], mask[1..]) + pkt[pnOff + pnLen..]
    requires masked != [] && result == masked[0 := first]
    ensures var o := Unprotect(pkt, pnOff, mask);
            && result == o.pkt && first == o.first && pnLen == o.pnLen
            && pnOff + pnLen <= |result| && o.pn == FromBE(result[pnOff..pnOff + pnLen])
  {
    hide MaskFirst, XorSeq, FromBE, Rewrite;
    var pn := XorSeq(pkt[pnOff..pnOff + pnLen], mask[1..]);
    XorSeqLength(pkt[pnOff..pnOff + pnLen], mask[1..]);
    Rewritten(pkt, pnOff, first, pn, masked, result);
  }

  lemma Rewritten(pkt: seq<byte>, pnOff: nat, first: byte, pn: seq<byte>, masked: seq<byte>, result: seq<byte>)
    requires 1 <= pnOff && pnOff + |pn| <= |pkt|
    requires masked == pkt[..pnOff] + pn + pkt[pnOff + |pn|..] && result == masked[0 := first]
    ensures result == Rewrite(pkt, pnOff, first, pn) && result[pnOff..pnOff + |pn|] == pn
  {
  }

  /** `decrypt_hdr` with the cursor at the packet number. */
  method DecryptHdr(b: Writer, hdr: Header, cipher: Cipher) returns (r: Result<Header>)
    requires b.Valid() && 1 <= b.off
    modifies b`off, b.buf
    ensures b.Valid()
    ensures b.buf.Length - old(b.off) < MAX_PKT_NUM_LEN + SAMPLE_LEN ==>
              r == Err(BufferTooShort) && b.off == old(b.off) && b.buf[..] == old(b.buf[..])
    ensures b.buf.Length - old(b.off) >= MAX_PKT_NUM_LEN + SAMPLE_LEN ==>
              var o := Unprotect(old(b.buf[..]), old(b.off), MaskOf(cipher, RxSample(old(b.buf[..]), old(b.off))));
              && b.buf[..] == o.pkt && b.off == old(b.off) + o.pnLen
              && r == Ok(hdr.(pktNum := o.pn, pktNumLen := o.pnLen,
                              keyPhase := if hdr.ty.Short? then o.first / 4 % 2 == 1 else hdr.keyPhase))
  {
    hide Unprotect;
    if b.buf.Length - b.off < MAX_PKT_NUM_LEN + SAMPLE_LEN {
      return Err(BufferTooShort);
    }
    var mask := MaskOf(cipher, RxSample(b.buf[..], b.off));
    var first, pnLen := UnmaskInPlace(b.buf, b.off, mask);
    var field := b.buf[b.off..b.off + pnLen];
    b.off := b.off + pnLen;
    r := Ok(hdr.(pktNum := FromBE(field), pktNumLen := pnLen,
                 keyPhase := if hdr.ty.Short? then first / 4 % 2 == 1 else hdr.keyPhase));
  }
}
