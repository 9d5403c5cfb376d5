/** The bytes of every frame as section 19 of RFC 9000 lays them out, with the type codes written out:
    what the encoder writes, what the parser makes of forms that the encoder never writes, and which
    packets may carry a frame. */
module FrameWire {
  import opened Basics
  import opened Octets
  import opened Ranges
  import opened Frames
  import opened FrameRoundTrip

  // ---------- Variable-length integers ----------

  /** The two highest bits say how long a varint is, and the others are its value. */
  lemma VarintOnWire(v: nat, len: nat)
    requires IsVarintLen(len) && v < VarintRange(len)
    ensures |VarintBytes(v, len)| == len
    ensures FromBE(VarintBytes(v, len)) == v + (if len == 1 then 0 else if len == 2 then 0x4000
                                                else if len == 4 then 0x8000_0000 else 0xC000_0000_0000_0000)
    ensures VarintRange(len) == if len == 1 then 64 else if len == 2 then 0x4000
                                else if len == 4 then 0x4000_0000 else 0x4000_0000_0000_0000
  {
    TaggedValue(v, len);
    VarintRanges();
  }

  /** Any byte string: the length by the two highest bits, and the value by the others. */
  lemma VarintParsed(s: seq<byte>)
    requires s != []
    ensures var len := if s[0] < 64 then 1 else if s[0] < 128 then 2 else if s[0] < 192 then 4 else 8;
            if |s| < len then TakeVarint(s) == Err(BufferTooShort)
            else && TakeVarint(s).Ok? && TakeVarint(s).value.1 == s[len..]
                 && TakeVarint(s).value.0 == FromBE(s[..len]) % (if len == 1 then 64 else if len == 2 then 0x4000
                                                                else if len == 4 then 0x4000_0000
                                                                else 0x4000_0000_0000_0000)
  {
    VarintRanges();
    hide FromBE, VarintRange;
  }

  // ---------- What is written ----------

  function Concat(parts: seq<seq<byte>>): seq<byte> {
    if parts == [] then [] else parts[0] + Concat(parts[1..])
  }

  /** The blocks of an ACK frame below `smallest`, from the highest down.  The gap is the previous
      smallest number less the largest of the block less two, the length the largest less the
      smallest. */
  ghost function BlockParts(s: seq<Range>, smallest: nat): seq<seq<byte>>
    requires WellFormed(s) && (s != [] ==> s[|s| - 1].end < smallest <= TWO_62)
  {
    seq(2 * |s|, i requires 0 <= i < 2 * |s| => BlockPart(s, smallest, |s| - 1 - i / 2, i % 2 == 0))
  }

  ghost function BlockPart(s: seq<Range>, smallest: nat, k: nat, gap: bool): seq<byte>
    requires WellFormed(s) && k < |s| && s[|s| - 1].end < smallest <= TWO_62
  {
    BlockInBounds(s, smallest, k);
    Varint(if gap then Gap(s, smallest, k) else Length(s[k]))
  }

  ghost function Gap(s: seq<Range>, smallest: nat, k: nat): nat
    requires WellFormed(s) && k < |s| && s[|s| - 1].end < smallest <= TWO_62
  {
    BlockInBounds(s, smallest, k);
    var largest := s[k].end - 1;
    (if k == |s| - 1 then smallest else s[k + 1].start) - largest - 2
  }

  ghost function Length(r: Range): nat
    requires r.start < r.end
  {
    var largest := r.end - 1;
    largest - r.start
  }

  lemma BlockInBounds(s: seq<Range>, smallest: nat, k: nat)
    requires WellFormed(s) && k < |s| && s[|s| - 1].end < smallest <= TWO_62
    ensures var above := if k == |s| - 1 then smallest else s[k + 1].start;
            0 < s[k].end && s[k].start < s[k].end && s[k].end < above <= TWO_62
  {
    if k < |s| - 1 {
      assert s[k].end < s[k + 1].start && s[k + 1].start < s[k + 1].end;
      assert k + 1 < |s| - 1 ==> s[k + 1].end < s[|s| - 1].start;
    }
  }

  ghost function EcnParts(ecn: Option<EcnCounts>): seq<seq<byte>>
    requires ecn.Some? ==> ecn.value.ect0 < TWO_62 && ecn.value.ect1 < TWO_62 && ecn.value.ce < TWO_62
  {
    if ecn.None? then [] else [Varint(ecn.value.ect0), Varint(ecn.value.ect1), Varint(ecn.value.ce)]
  }

  /** The parts of every frame, in order. */
  ghost function Parts(f: Frame): seq<seq<byte>>
    requires Writable(f)
  {
    match f
    case Padding(len) => seq(len, i => [0x00])
    case Ping => [[0x01]]
    case ACK(delay, s, ecn) =>
      var top := s[|s| - 1];
      CountBound(s);
      LowerRangesOk(s);
      [[if ecn.None? then 0x02 else 0x03], Varint(top.end - 1), Varint(delay), Varint(|s| - 1),
       Varint(top.end - 1 - top.start)] + BlockParts(s[..|s| - 1], top.start) + EcnParts(ecn)
    case ResetStream(id, code, size) => [[0x04], Varint(id), Varint(code), Varint(size)]
    case StopSending(id, code) => [[0x05], Varint(id), Varint(code)]
    case Crypto(offset, data) => [[0x06], Varint(offset), VarintBytes(|data|, 2), data]
    case NewToken(token) => [[0x07], Varint(|token|), token]
    case Stream(id, offset, data, fin) =>
      [[if fin then 0x0f else 0x0e], Varint(id), Varint(offset), VarintBytes(|data|, 2), data]
    case MaxData(max) => [[0x10], Varint(max)]
    case MaxStreamData(id, max) => [[0x11], Varint(id), Varint(max)]
    case MaxStreamsBidi(max) => [[0x12], Varint(max)]
    case MaxStreamsUni(max) => [[0x13], Varint(max)]
    case DataBlocked(limit) => [[0x14], Varint(limit)]
    case StreamDataBlocked(id, limit) => [[0x15], Varint(id), Varint(limit)]
    case StreamsBlockedBidi(limit) => [[0x16], Varint(limit)]
    case StreamsBlockedUni(limit) => [[0x17], Varint(limit)]
    case NewConnectionId(num, prior, cid, token) =>
      [[0x18], Varint(num), Varint(prior), [(|cid| % 256) as byte], cid, token]
    case RetireConnectionId(num) => [[0x19], Varint(num)]
    case PathChallenge(data) => [[0x1a], data]
    case PathResponse(data) => [[0x1b], data]
    case ConnectionClose(code, ty, reason) => [[0x1c], Varint(code), Varint(ty), Varint(|reason|), reason]
    case ApplicationClose(code, reason) => [[0x1d], Varint(code), Varint(|reason|), reason]
    case HandshakeDone => [[0x1e]]
    case Datagram(data) => [[0x31], VarintBytes(|data|, 2), data]
    case SourceSymbolACK(s) =>
      var top := s[|s| - 1];
      CountBound(s);
      LowerRangesOk(s);
      [[0x34], Varint(top.end - 1), Varint(|s| - 1), Varint(top.end - 1 - top.start)]
      + BlockParts(s[..|s| - 1], top.start)
  }

  lemma TypeByte(ty: nat)
    requires ty < 64
    ensures Varint(ty) == [ty as byte]
  {
    assert ToBE(ty, 1) == ToBE(0, 0) + [ty % 256];
  }

  lemma LengthByte(n: nat)
    ensures ToBE(n, 1) == [(n % 256) as byte]
  {
    assert ToBE(n, 1) == ToBE(n / 256, 0) + [n % 256];
  }

  /** The fields stand for these parts. */
  ghost predicate Stand(fs: seq<Field>, parts: seq<seq<byte>>) {
    FieldsOk(fs) && |fs| == |parts| && forall i :: 0 <= i < |fs| ==> FieldBytes(fs[i]) == parts[i]
  }

  lemma {:induction false} StandConcat(fs: seq<Field>, parts: seq<seq<byte>>)
    requires Stand(fs, parts)
    ensures Bytes(fs) == Concat(parts)
    decreases |fs|
  {
    if fs != [] {
      StandTail(fs, parts);
      hide Stand, FieldBytes;
      StandConcat(fs[1..], parts[1..]);
    }
  }

  lemma StandTail(fs: seq<Field>, parts: seq<seq<byte>>)
    requires Stand(fs, parts) && fs != []
    ensures Stand(fs[1..], parts[1..]) && FieldBytes(fs[0]) == parts[0]
  {
    hide FieldBytes;
    forall i | 0 <= i < |fs[1..]| ensures FieldBytes(fs[1..][i]) == parts[1..][i] {
      assert fs[1..][i] == fs[i + 1] && parts[1..][i] == parts[i + 1];
    }
  }

  lemma StandJoin(fs: seq<Field>, ps: seq<seq<byte>>, gs: seq<Field>, qs: seq<seq<byte>>)
    requires Stand(fs, ps) && Stand(gs, qs)
    ensures Stand(fs + gs, ps + qs)
  {
    hide FieldBytes, FieldOk;
  }

  /** Blocks are written as described above. */
  lemma {:induction false} BlocksStand(s: seq<Range>, smallest: nat)
    requires WellFormed(s) && (s != [] ==> s[|s| - 1].end < smallest <= TWO_62)
    ensures Stand(BlockFields(s, smallest), BlockParts(s, smallest))
    decreases |s|
  {
    if s != [] {
      var b, lower := s[|s| - 1], s[..|s| - 1];
      var head := [V(smallest - b.end - 1), V(b.end - 1 - b.start)];
      BlocksStand(lower, b.start);
      assert BlockFields(s, smallest) == head + BlockFields(lower, b.start);
      var parts := [Varint(smallest - b.end - 1), Varint(b.end - 1 - b.start)];
      assert Stand(head, parts);
      BlockPartsCons(s, smallest, parts);
      hide BlockFields, BlockParts, Varint;
      StandJoin(head, parts, BlockFields(lower, b.start), BlockParts(lower, b.start));
    }
  }

  lemma BlockPartsCons(s: seq<Range>, smallest: nat, parts: seq<seq<byte>>)
    requires WellFormed(s) && s != [] && s[|s| - 1].end < smallest <= TWO_62
    requires var b := s[|s| - 1];
             b.start < b.end && parts == [Varint(smallest - b.end - 1), Varint(b.end - 1 - b.start)]
    ensures BlockParts(s, smallest) == parts + BlockParts(s[..|s| - 1], s[|s| - 1].start)
  {
    hide Varint;
    var b, lower := s[|s| - 1], s[..|s| - 1];
    PartHead(s, smallest);
    var all, rest := BlockParts(s, smallest), BlockParts(lower, b.start);
    assert |all| == 2 + |rest|;
    forall i | 2 <= i < |all| ensures all[i] == rest[i - 2] {
      PartShift(s, smallest, i);
    }
    hide BlockParts;
  }

  lemma PartHead(s: seq<Range>, smallest: nat)
    requires WellFormed(s) && s != [] && s[|s| - 1].end < smallest <= TWO_62
    ensures var b, all := s[|s| - 1], BlockParts(s, smallest);
            && b.start < b.end && |all| >= 2
            && all[0] == Varint(smallest - b.end - 1) && all[1] == Varint(b.end - 1 - b.start)
  {
    hide Varint;
    BlockInBounds(s, smallest, |s| - 1);
  }

  lemma PartShift(s: seq<Range>, smallest: nat, i: nat)
    requires WellFormed(s) && 2 <= i < 2 * |s| && s[|s| - 1].end < smallest <= TWO_62
    ensures var b, lower := s[|s| - 1], s[..|s| - 1];
            && WellFormed(lower) && (lower != [] ==> lower[|lower| - 1].end < b.start <= TWO_62)
            && BlockParts(s, smallest)[i] == BlockParts(lower, b.start)[i - 2]
  {
    var k := |s| - 1 - i / 2;
    HalfOf(i);
    SamePart(s, smallest, k, i % 2 == 0);
    hide BlockPart, WellFormed;
    var lower := s[..|s| - 1];
    assert |lower| - 1 - (i - 2) / 2 == k;
  }

  lemma SamePart(s: seq<Range>, smallest: nat, k: nat, gap: bool)
    requires WellFormed(s) && k + 1 < |s| && s[|s| - 1].end < smallest <= TWO_62
    ensures var b, lower := s[|s| - 1], s[..|s| - 1];
            && WellFormed(lower) && lower[|lower| - 1].end < b.start <= TWO_62
            && BlockPart(s, smallest, k, gap) == BlockPart(lower, b.start, k, gap)
  {
    SameBlock(s, smallest, k);
    hide Varint, Gap, Length;
  }

  lemma HalfOf(i: nat)
    requires i >= 2
    ensures (i - 2) / 2 == i / 2 - 1 && (i - 2) % 2 == i % 2
  {
  }

  lemma SameBlock(s: seq<Range>, smallest: nat, k: nat)
    requires WellFormed(s) && k + 1 < |s| && s[|s| - 1].end < smallest <= TWO_62
    ensures var b, lower := s[|s| - 1], s[..|s| - 1];
            && WellFormed(lower) && lower[|lower| - 1].end < b.start <= TWO_62
            && lower[k] == s[k] && Gap(s, smallest, k) == Gap(lower, b.start, k)
  {
  }

  /** Every frame is written exactly as its parts, one after the other. */
  lemma EncodedOnWire(f: Frame)
    requires Writable(f)
    ensures Encode(f) == Concat(Parts(f))
  {
    LayoutOk(f);
    if f.ACK? || f.SourceSymbolACK? {
      AckStands(f);
    } else {
      OtherStands(f);
    }
    hide Parts, Stand;
    StandConcat(Layout(f), Parts(f));
  }

  lemma AckStands(f: Frame)
    requires Writable(f) && (f.ACK? || f.SourceSymbolACK?)
    ensures Stand(Layout(f), Parts(f))
  {
    hide Stand, BlockFields, BlockParts, WellFormed, Varint, Layout, Parts;
    AckFacts(f);
    LowerRangesOk(f.ranges);
    CountBound(f.ranges);
    BlocksStand(f.ranges[..|f.ranges| - 1], f.ranges[|f.ranges| - 1].start);
    if f.ACK? {
      AckHeadStands(f);
    } else {
      SymbolAckStands(f);
    }
  }

  lemma AckHeadStands(f: Frame)
    requires Writable(f) && f.ACK? && |f.ranges| <= TWO_62
    requires var lower, start := f.ranges[..|f.ranges| - 1], f.ranges[|f.ranges| - 1].start;
             && WellFormed(lower) && (lower != [] ==> lower[|lower| - 1].end < start <= TWO_62)
             && Stand(BlockFields(lower, start), BlockParts(lower, start))
    ensures Stand(Layout(f), Parts(f))
  {
    hide BlockFields, BlockParts, WellFormed, Varint;
    var s := f.ranges;
    var top, lower := s[|s| - 1], s[..|s| - 1];
    AckFacts(f);
    var ty: byte := if f.ecn.None? then 0x02 else 0x03;
    FiveStand(ty, top.end - 1, f.ackDelay, |s| - 1, top.end - 1 - top.start);
    EcnStands(f.ecn);
    var head := [V(ty), V(top.end - 1), V(f.ackDelay), V(|s| - 1), V(top.end - 1 - top.start)];
    var parts := [[ty], Varint(top.end - 1), Varint(f.ackDelay), Varint(|s| - 1), Varint(top.end - 1 - top.start)];
    hide Stand, EcnParts, EcnFields;
    StandJoin(head, parts, BlockFields(lower, top.start), BlockParts(lower, top.start));
    StandJoin(head + BlockFields(lower, top.start), parts + BlockParts(lower, top.start),
              EcnFields(f.ecn), EcnParts(f.ecn));
  }

  lemma EcnStands(ecn: Option<EcnCounts>)
    requires ecn.Some? ==> ecn.value.ect0 < TWO_62 && ecn.value.ect1 < TWO_62 && ecn.value.ce < TWO_62
    ensures Stand(EcnFields(ecn), EcnParts(ecn))
  {
    hide Varint;
  }

  lemma FiveStand(ty: byte, a: nat, b: nat, c: nat, d: nat)
    requires ty < 64 && a < TWO_62 && b < TWO_62 && c < TWO_62 && d < TWO_62
    ensures Stand([V(ty), V(a), V(b), V(c), V(d)], [[ty], Varint(a), Varint(b), Varint(c), Varint(d)])
    ensures Stand([V(ty), V(a), V(b), V(c)], [[ty], Varint(a), Varint(b), Varint(c)])
  {
    TypeByte(ty);
    hide Varint;
  }

  lemma SymbolAckStands(f: Frame)
    requires Writable(f) && f.SourceSymbolACK? && |f.ranges| <= TWO_62
    requires var lower, start := f.ranges[..|f.ranges| - 1], f.ranges[|f.ranges| - 1].start;
             && WellFormed(lower) && (lower != [] ==> lower[|lower| - 1].end < start <= TWO_62)
             && Stand(BlockFields(lower, start), BlockParts(lower, start))
    ensures Stand(Layout(f), Parts(f))
  {
    hide BlockFields, BlockParts, WellFormed, Varint;
    var s := f.ranges;
    var top, lower := s[|s| - 1], s[..|s| - 1];
    AckFacts(f);
    FiveStand(0x34, top.end - 1, |s| - 1, top.end - 1 - top.start, 0);
    var head := [V(0x34), V(top.end - 1), V(|s| - 1), V(top.end - 1 - top.start)];
    var parts := [[0x34 as byte], Varint(top.end - 1), Varint(|s| - 1), Varint(top.end - 1 - top.start)];
    hide Stand;
    StandJoin(head, parts, BlockFields(lower, top.start), BlockParts(lower, top.start));
  }

  lemma OtherStands(f: Frame)
    requires Writable(f) && !f.ACK? && !f.SourceSymbolACK?
    ensures Stand(Layout(f), Parts(f))
  {
    if HasBytes(f) {
      BytesStand(f);
    } else if HasReason(f) {
      ReasonStand(f);
    } else {
      PlainStand(f);
    }
  }

  lemma BytesStand(f: Frame)
    requires Writable(f) && HasBytes(f)
    ensures Stand(Layout(f), Parts(f))
  {
    OtherLayoutOk(f);
    Codes();
    hide Varint, VarintBytes, ToBE, FieldsOk;
  }

  lemma ReasonStand(f: Frame)
    requires Writable(f) && HasReason(f)
    ensures Stand(Layout(f), Parts(f))
  {
    if f.NewConnectionId? {
      ConnectionIdStands(f);
    } else {
      CloseStands(f);
    }
  }

  lemma CloseStands(f: Frame)
    requires Writable(f) && (f.PathChallenge? || f.PathResponse? || f.ConnectionClose? || f.ApplicationClose?)
    ensures Stand(Layout(f), Parts(f))
  {
    TypeByte(0x1a);
    TypeByte(0x1b);
    TypeByte(0x1c);
    TypeByte(0x1d);
    hide Varint, VarintBytes, ToBE;
  }

  lemma ConnectionIdStands(f: Frame)
    requires Writable(f) && f.NewConnectionId?
    ensures Stand(Layout(f), Parts(f))
  {
    TypeByte(0x18);
    LengthByte(|f.connId|);
    hide Varint, ToBE;
  }

  lemma PlainStand(f: Frame)
    requires Writable(f) && !f.ACK? && !f.SourceSymbolACK? && !HasBytes(f) && !HasReason(f)
    ensures Stand(Layout(f), Parts(f))
  {
    OtherLayoutOk(f);
    Codes();
    hide Varint, VarintBytes, ToBE, FieldsOk;
  }

  lemma Codes()
    ensures forall ty: nat :: ty < 64 ==> Varint(ty) == [ty as byte]
  {
    forall ty: nat | ty < 64 ensures Varint(ty) == [ty as byte] {
      TypeByte(ty);
    }
  }

  // ---------- Which packets carry which frames ----------

  /** By type code, as written: Initial and Handshake packets carry PADDING, PING, ACK, CRYPTO and
      CONNECTION_CLOSE; 0-RTT packets carry all but these last three, NEW_TOKEN,
      RETIRE_CONNECTION_ID, PATH_RESPONSE and HANDSHAKE_DONE; 1-RTT packets carry all. */
  lemma AllowedByCode(pkt: PacketType, f: Frame)
    requires Writable(f) && Parts(f) != []
    ensures var code := Parts(f)[0][0];
            && |Parts(f)[0]| == 1
            && (pkt.Short? ==> Allowed(pkt, f))
            && (pkt.Initial? || pkt.Handshake? ==>
                  (Allowed(pkt, f) <==> code in {0x00, 0x01, 0x02, 0x03, 0x06, 0x1c}))
            && (pkt.ZeroRTT? ==>
                  (Allowed(pkt, f) <==> code !in {0x02, 0x03, 0x06, 0x07, 0x19, 0x1b, 0x1c, 0x1e}))
  {
    hide Varint, VarintBytes, BlockParts, EcnParts;
  }

  // ---------- Forms that are only read ----------

  /** The body of a STREAM frame of type `ty`: the third bit says that there is an offset, the second
      that there is a length. */
  function StreamBody(ty: nat, id: nat, offset: nat, data: seq<byte>): seq<byte>
    requires id < TWO_62 && offset < TWO_62 && |data| < TWO_62
  {
    Varint(id) + ((if ty / 4 % 2 == 1 then Varint(offset) else [])
                  + ((if ty / 2 % 2 == 1 then Varint(|data|) else []) + data))
  }

  /** All eight STREAM types.  Without an offset it is zero, without a length the data goes on to the
      end of the packet, and the lowest bit ends the stream. */
  lemma StreamParsed(ty: nat, id: nat, offset: nat, data: seq<byte>, rest: seq<byte>)
    requires 0x08 <= ty <= 0x0f && id < TWO_62 && offset < TWO_62 && |data| < TWO_62
    requires ty / 4 % 2 == 0 ==> offset == 0
    requires ty / 2 % 2 == 0 ==> rest == []
    ensures ParseBody(ty, StreamBody(ty, id, offset, data) + rest)
         == if offset + |data| < 0x4000_0000_0000_0000 then Ok((Stream(id, offset, data, ty % 2 == 1), rest))
            else Err(InvalidFrame)
  {
    hide TakeVarint, TakeBytes, Varint;
    var tail := data + rest;
    var lengthPart := if ty / 2 % 2 == 1 then Varint(|data|) else [];
    var offsetPart := if ty / 4 % 2 == 1 then Varint(offset) else [];
    var s2 := lengthPart + tail;
    var s1 := offsetPart + s2;
    StreamSplit(ty, id, offset, data, rest, offsetPart, lengthPart);
    VarintRoundTrip(id, s1);
    if ty / 4 % 2 == 1 {
      VarintRoundTrip(offset, s2);
    } else {
      assert [] + s2 == s2;
    }
    if ty / 2 % 2 == 1 {
      VarintRoundTrip(|data|, tail);
    } else {
      assert [] + tail == tail && data + [] == data;
    }
    TakeBytesAppend(data, rest);
    StreamSteps(ty, id, offset, data, rest, Varint(id) + s1, s1, s2, tail);
    hide ParseStream;
  }

  lemma StreamSplit(ty: nat, id: nat, offset: nat, data: seq<byte>, rest: seq<byte>,
                    offsetPart: seq<byte>, lengthPart: seq<byte>)
    requires id < TWO_62 && offset < TWO_62 && |data| < TWO_62
    requires lengthPart == if ty / 2 % 2 == 1 then Varint(|data|) else []
    requires offsetPart == if ty / 4 % 2 == 1 then Varint(offset) else []
    ensures StreamBody(ty, id, offset, data) + rest == Varint(id) + (offsetPart + (lengthPart + (data + rest)))
  {
    hide Varint;
  }

  lemma StreamSteps(ty: nat, id: nat, offset: nat, data: seq<byte>, rest: seq<byte>,
                    s0: seq<byte>, s1: seq<byte>, s2: seq<byte>, s3: seq<byte>)
    requires TakeVarint(s0) == Ok((id, s1))
    requires if ty / 4 % 2 == 1 then TakeVarint(s1) == Ok((offset, s2)) else offset == 0 && s1 == s2
    requires if ty / 2 % 2 == 1 then TakeVarint(s2) == Ok((|data|, s3)) else s2 == s3 && |s2| == |data|
    requires TakeBytes(s3, |data|) == Ok((data, rest))
    ensures ParseStream(ty, s0) == if offset + |data| < 0x4000_0000_0000_0000
                                   then Ok((Stream(id, offset, data, ty % 2 == 1), rest)) else Err(InvalidFrame)
  {
    hide TakeVarint, TakeBytes;
  }

  /** DATAGRAM frames with and without a length. */
  lemma DatagramParsed(data: seq<byte>, rest: seq<byte>)
    requires |data| < TWO_62
    ensures ParseBody(0x30, data) == Ok((Datagram(data), []))
    ensures ParseBody(0x31, Varint(|data|) + (data + rest)) == Ok((Datagram(data), rest))
  {
    hide TakeVarint, Varint;
    VarintRoundTrip(|data|, data + rest);
    TakeBytesAppend(data, rest);
    TakeBytesAppend(data, []);
    assert data + [] == data;
  }

  /** What the parser refuses: an empty token, a connection ID of no or of more than 20 bytes, and
      every type that has no frame. */
  lemma Refused(num: nat, prior: nat, len: byte, rest: seq<byte>, ty: nat)
    requires num < TWO_62 && prior < TWO_62
    ensures ParseBody(0x07, [0] + rest) == Err(InvalidFrame)
    ensures len == 0 || len > 20 ==>
              ParseBody(0x18, Varint(num) + (Varint(prior) + ([len] + rest))) == Err(InvalidFrame)
    ensures 0x1f <= ty <= 0x2f || 0x32 <= ty <= 0x33 || 0x34 < ty ==> ParseBody(ty, rest) == Err(InvalidFrame)
  {
    TypeByte(0);
    VarintRoundTrip(0, rest);
    VarintRoundTrip(prior, [len] + rest);
    VarintRoundTrip(num, Varint(prior) + ([len] + rest));
    FirstOf(len, rest);
    hide TakeVarint, Varint, TakeU, TakeBytes;
  }

  lemma FirstOf(b: byte, rest: seq<byte>)
    ensures TakeU([b] + rest, 1) == Ok((b as nat, rest))
  {
    var s := [b] + rest;
    assert s[..1] == [b] && s[1..] == rest && [b][..0] == [];
    assert FromBE([b]) == FromBE([]) * 256 + b;
  }
}
