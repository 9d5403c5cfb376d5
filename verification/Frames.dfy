/** The frames of quiche/src/frame.rs on byte strings: what each frame is written as, how
    long that is, and how it is parsed.  FEC symbol frames are not included. */
module Frames {
  import opened Basics
  import opened Octets
  import opened Ranges

  const MAX_CID_LEN := 20
  const MAX_STREAM_SIZE: nat := TWO_62

  datatype PacketType = Initial | Retry | Handshake | ZeroRTT | VersionNegotiation | Short

  datatype EcnCounts = EcnCounts(ect0: nat, ect1: nat, ce: nat)

  datatype Frame =
    | Padding(len: nat)
    | Ping
    | ACK(ackDelay: nat, ranges: seq<Range>, ecn: Option<EcnCounts>)
    | ResetStream(streamId: nat, errorCode: nat, finalSize: nat)
    | StopSending(streamId: nat, errorCode: nat)
    | Crypto(offset: nat, data: seq<byte>)
    | NewToken(token: seq<byte>)
    | Stream(streamId: nat, offset: nat, data: seq<byte>, fin: bool)
    | MaxData(max: nat)
    | MaxStreamData(streamId: nat, max: nat)
    | MaxStreamsBidi(max: nat)
    | MaxStreamsUni(max: nat)
    | DataBlocked(limit: nat)
    | StreamDataBlocked(streamId: nat, limit: nat)
    | StreamsBlockedBidi(limit: nat)
    | StreamsBlockedUni(limit: nat)
    | NewConnectionId(seqNum: nat, retirePriorTo: nat, connId: seq<byte>, resetToken: seq<byte>)
    | RetireConnectionId(seqNum: nat)
    | PathChallenge(data: seq<byte>)
    | PathResponse(data: seq<byte>)
    | ConnectionClose(errorCode: nat, frameType: nat, reason: seq<byte>)
    | ApplicationClose(errorCode: nat, reason: seq<byte>)
    | HandshakeDone
    | Datagram(data: seq<byte>)
    | SourceSymbolACK(ranges: seq<Range>)

  // ---------- Writing ----------

  /** One write: a varint, a varint of fixed two bytes, one byte, or raw bytes. */
  datatype Field = V(v: nat) | V2(v: nat) | U8(v: nat) | Raw(s: seq<byte>)

  ghost predicate FieldOk(f: Field) {
    f.V? ==> f.v < TWO_62
  }

  function FieldBytes(f: Field): seq<byte>
    requires FieldOk(f)
  {
    match f
    case V(v) => Varint(v)
    case V2(v) => VarintBytes(v, 2)
    case U8(v) => ToBE(v, 1)
    case Raw(s) => s
  }

  ghost predicate FieldsOk(fs: seq<Field>) {
    forall i :: 0 <= i < |fs| ==> FieldOk(fs[i])
  }

  function Bytes(fs: seq<Field>): seq<byte>
    requires FieldsOk(fs)
  {
    if fs == [] then [] else FieldBytes(fs[0]) + Bytes(fs[1..])
  }

  /** The gap and length pairs of an ACK frame, from the highest remaining range down.
      The subtractions need the ranges to be separated. */
  function BlockFields(s: seq<Range>, smallest: nat): seq<Field>
    requires WellFormed(s) && (s != [] ==> s[|s| - 1].end < smallest)
    decreases |s|
  {
    if s == [] then []
    else
      var b := s[|s| - 1];
      [V(smallest - b.end - 1), V(b.end - 1 - b.start)] + BlockFields(s[..|s| - 1], b.start)
  }

  function EcnFields(ecn: Option<EcnCounts>): seq<Field> {
    match ecn
    case None => []
    case Some(c) => [V(c.ect0), V(c.ect1), V(c.ce)]
  }

  ghost predicate RangesOk(s: seq<Range>) {
    WellFormed(s) && s != []
  }

  /** The writes of `to_bytes`, in order. */
  function Layout(f: Frame): seq<Field>
    requires f.ACK? || f.SourceSymbolACK? ==> RangesOk(f.ranges)
  {
    match f
    case Padding(len) => seq(len, i => V(0))
    case Ping => [V(0x01)]
    case ACK(delay, s, ecn) =>
      var top := s[|s| - 1];
      [V(if ecn.None? then 0x02 else 0x03), V(top.end - 1), V(delay), V(|s| - 1), V(top.end - 1 - top.start)]
      + BlockFields(s[..|s| - 1], top.start) + EcnFields(ecn)
    case ResetStream(id, code, size) => [V(0x04), V(id), V(code), V(size)]
    case StopSending(id, code) => [V(0x05), V(id), V(code)]
    case Crypto(offset, data) => [V(0x06), V(offset), V2(|data|), Raw(data)]
    case NewToken(token) => [V(0x07), V(|token|), Raw(token)]
    case Stream(id, offset, data, fin) =>
      [V(if fin then 0x0f else 0x0e), V(id), V(offset), V2(|data|), Raw(data)]
    case MaxData(max) => [V(0x10), V(max)]
    case MaxStreamData(id, max) => [V(0x11), V(id), V(max)]
    case MaxStreamsBidi(max) => [V(0x12), V(max)]
    case MaxStreamsUni(max) => [V(0x13), V(max)]
    case DataBlocked(limit) => [V(0x14), V(limit)]
    case StreamDataBlocked(id, limit) => [V(0x15), V(id), V(limit)]
    case StreamsBlockedBidi(limit) => [V(0x16), V(limit)]
    case StreamsBlockedUni(limit) => [V(0x17), V(limit)]
    case NewConnectionId(num, prior, cid, token) =>
      [V(0x18), V(num), V(prior), U8(|cid|), Raw(cid), Raw(token)]
    case RetireConnectionId(num) => [V(0x19), V(num)]
    case PathChallenge(data) => [V(0x1a), Raw(data)]
    case PathResponse(data) => [V(0x1b), Raw(data)]
    case ConnectionClose(code, ty, reason) => [V(0x1c), V(code), V(ty), V(|reason|), Raw(reason)]
    case ApplicationClose(code, reason) => [V(0x1d), V(code), V(|reason|), Raw(reason)]
    case HandshakeDone => [V(0x1e)]
    case Datagram(data) => [V(0x31), V2(|data|), Raw(data)]
    case SourceSymbolACK(s) =>
      var top := s[|s| - 1];
      [V(0x34), V(top.end - 1), V(|s| - 1), V(top.end - 1 - top.start)] + BlockFields(s[..|s| - 1], top.start)
  }

  /** The frames that the encoder can write without a panic: no varint beyond 62 bits, at least one
      acknowledged range, and byte arrays of the declared size. */
  ghost predicate Writable(f: Frame) {
    match f
    case ACK(delay, s, ecn) =>
      && RangesOk(s) && s[|s| - 1].end <= TWO_62 && delay < TWO_62
      && (ecn.Some? ==> ecn.value.ect0 < TWO_62 && ecn.value.ect1 < TWO_62 && ecn.value.ce < TWO_62)
    case SourceSymbolACK(s) => RangesOk(s) && s[|s| - 1].end <= TWO_62
    case ResetStream(id, code, size) => id < TWO_62 && code < TWO_62 && size < TWO_62
    case StopSending(id, code) => id < TWO_62 && code < TWO_62
    case Crypto(offset, _) => offset < TWO_62
    case NewToken(token) => |token| < TWO_62
    case Stream(id, offset, _, _) => id < TWO_62 && offset < TWO_62
    case MaxData(max) => max < TWO_62
    case MaxStreamData(id, max) => id < TWO_62 && max < TWO_62
    case MaxStreamsBidi(max) => max < TWO_62
    case MaxStreamsUni(max) => max < TWO_62
    case DataBlocked(limit) => limit < TWO_62
    case StreamDataBlocked(id, limit) => id < TWO_62 && limit < TWO_62
    case StreamsBlockedBidi(limit) => limit < TWO_62
    case StreamsBlockedUni(limit) => limit < TWO_62
    case NewConnectionId(num, prior, _, token) => num < TWO_62 && prior < TWO_62 && |token| == 16
    case RetireConnectionId(num) => num < TWO_62
    case PathChallenge(data) => |data| == 8
    case PathResponse(data) => |data| == 8
    case ConnectionClose(code, ty, reason) => code < TWO_62 && ty < TWO_62 && |reason| < TWO_62
    case ApplicationClose(code, reason) => code < TWO_62 && |reason| < TWO_62
    case _ => true
  }

  /** What the two-byte lengths can hold and the parser insists on. */
  predicate Acceptable(f: Frame) {
    match f
    case Padding(len) => len >= 1
    case Crypto(_, data) => |data| <= 16383
    case NewToken(token) => token != []
    case Stream(_, offset, data, _) => |data| <= 16383 && offset + |data| < MAX_STREAM_SIZE
    case NewConnectionId(_, _, cid, _) => 1 <= |cid| <= MAX_CID_LEN
    case Datagram(data) => |data| <= 16383
    case _ => true
  }

  /** The frames that are written so that they can be read back. */
  ghost predicate Encodable(f: Frame) {
    Writable(f) && Acceptable(f)
  }

  // ---------- Lengths ----------

  function BlocksLen(s: seq<Range>, smallest: nat): nat
    requires WellFormed(s) && (s != [] ==> s[|s| - 1].end < smallest <= TWO_62)
    decreases |s|
  {
    if s == [] then 0
    else
      var b := s[|s| - 1];
      VarintLen(smallest - b.end - 1) + VarintLen(b.end - 1 - b.start) + BlocksLen(s[..|s| - 1], b.start)
  }

  function EcnLen(ecn: Option<EcnCounts>): nat
    requires ecn.Some? ==> ecn.value.ect0 < TWO_62 && ecn.value.ect1 < TWO_62 && ecn.value.ce < TWO_62
  {
    match ecn
    case None => 0
    case Some(c) => VarintLen(c.ect0) + VarintLen(c.ect1) + VarintLen(c.ce)
  }

  /** `wire_len`, which adds up lengths without writing. */
  function WireLen(f: Frame): nat
    requires Writable(f)
  {
    match f
    case Padding(len) => len
    case Ping => 1
    case ACK(delay, s, ecn) =>
      var top := s[|s| - 1];
      CountBound(s);
      1 + VarintLen(top.end - 1) + VarintLen(delay) + VarintLen(|s| - 1) + VarintLen(top.end - 1 - top.start)
      + BlocksLen(s[..|s| - 1], top.start) + EcnLen(ecn)
    case ResetStream(id, code, size) => 1 + VarintLen(id) + VarintLen(code) + VarintLen(size)
    case StopSending(id, code) => 1 + VarintLen(id) + VarintLen(code)
    case Crypto(offset, data) => 1 + VarintLen(offset) + 2 + |data|
    case NewToken(token) => 1 + VarintLen(|token|) + |token|
    case Stream(id, offset, data, _) => 1 + VarintLen(id) + VarintLen(offset) + 2 + |data|
    case MaxData(max) => 1 + VarintLen(max)
    case MaxStreamData(id, max) => 1 + VarintLen(id) + VarintLen(max)
    case MaxStreamsBidi(max) => 1 + VarintLen(max)
    case MaxStreamsUni(max) => 1 + VarintLen(max)
    case DataBlocked(limit) => 1 + VarintLen(limit)
    case StreamDataBlocked(id, limit) => 1 + VarintLen(id) + VarintLen(limit)
    case StreamsBlockedBidi(limit) => 1 + VarintLen(limit)
    case StreamsBlockedUni(limit) => 1 + VarintLen(limit)
    case NewConnectionId(num, prior, cid, token) => 1 + VarintLen(num) + VarintLen(prior) + 1 + |cid| + |token|
    case RetireConnectionId(num) => 1 + VarintLen(num)
    case PathChallenge(_) => 1 + 8
    case PathResponse(_) => 1 + 8
    case ConnectionClose(code, ty, reason) => 1 + VarintLen(code) + VarintLen(ty) + VarintLen(|reason|) + |reason|
    case ApplicationClose(code, reason) => 1 + VarintLen(code) + VarintLen(|reason|) + |reason|
    case HandshakeDone => 1
    case Datagram(data) => 1 + 2 + |data|
    case SourceSymbolACK(s) =>
      var top := s[|s| - 1];
      CountBound(s);
      1 + VarintLen(top.end - 1) + VarintLen(|s| - 1) + VarintLen(top.end - 1 - top.start)
      + BlocksLen(s[..|s| - 1], top.start)
  }

  /** Separated ranges below a bound are fewer than the bound, so their count is a varint. */
  lemma {:induction false} CountBound(s: seq<Range>)
    requires WellFormed(s) && s != []
    ensures |s| <= s[|s| - 1].end
    decreases |s|
  {
    if |s| > 1 {
      CountBound(s[..|s| - 1]);
      assert s[|s| - 2].end < s[|s| - 1].start;
    }
  }

  // ---------- Parsing ----------

  /** Counts the zero bytes that follow a PADDING type. */
  function SkipZeros(s: seq<byte>): (nat, seq<byte>) {
    if s == [] || s[0] != 0 then (0, s)
    else
      var (n, rest) := SkipZeros(s[1..]);
      (n + 1, rest)
  }

  /** The blocks below `smallest`, in increasing order. */
  function ParseBlocks(count: nat, smallest: nat, s: seq<byte>): Result<(seq<Range>, seq<byte>)>
    decreases count
  {
    if count == 0 then Ok(([], s))
    else
      var (gap, s1) :- TakeVarint(s);
      if smallest < 2 + gap then Err(InvalidFrame)
      else
        var largest := smallest - gap - 2;
        var (block, s2) :- TakeVarint(s1);
        if largest < block then Err(InvalidFrame)
        else
          var (lower, s3) :- ParseBlocks(count - 1, largest - block, s2);
          Ok((lower + [Range(largest - block, largest + 1)], s3))
  }

  function ParseAckRanges(largest: nat, count: nat, block: nat, s: seq<byte>): Result<(seq<Range>, seq<byte>)> {
    if largest < block then Err(InvalidFrame)
    else
      var (lower, rest) :- ParseBlocks(count, largest - block, s);
      Ok((lower + [Range(largest - block, largest + 1)], rest))
  }

  function ParseEcn(present: bool, s: seq<byte>): Result<(Option<EcnCounts>, seq<byte>)> {
    if !present then Ok((None, s))
    else
      var (ect0, s1) :- TakeVarint(s);
      var (ect1, s2) :- TakeVarint(s1);
      var (ce, s3) :- TakeVarint(s2);
      Ok((Some(EcnCounts(ect0, ect1, ce)), s3))
  }

  function ParseAck(ty: nat, s: seq<byte>): Result<(Frame, seq<byte>)> {
    var (largest, s1) :- TakeVarint(s);
    var (delay, s2) :- TakeVarint(s1);
    var (count, s3) :- TakeVarint(s2);
    var (block, s4) :- TakeVarint(s3);
    var (ranges, s5) :- ParseAckRanges(largest, count, block, s4);
    var (ecn, s6) :- ParseEcn(ty % 2 == 1, s5);
    Ok((ACK(delay, ranges, ecn), s6))
  }

  function ParseSourceSymbolAck(s: seq<byte>): Result<(Frame, seq<byte>)> {
    var (largest, s1) :- TakeVarint(s);
    var (count, s2) :- TakeVarint(s1);
    var (block, s3) :- TakeVarint(s2);
    var (ranges, s4) :- ParseAckRanges(largest, count, block, s3);
    Ok((SourceSymbolACK(ranges), s4))
  }

  /** The type bits say whether an offset, a length and the end of the stream are present. */
  function ParseStream(ty: nat, s: seq<byte>): Result<(Frame, seq<byte>)> {
    var (id, s1) :- TakeVarint(s);
    var (offset, s2) :- if ty / 4 % 2 == 1 then TakeVarint(s1) else Ok((0, s1));
    var (len, s3) :- if ty / 2 % 2 == 1 then TakeVarint(s2) else Ok((|s2|, s2));
    if offset + len >= MAX_STREAM_SIZE then Err(InvalidFrame)
    else
      var (data, s4) :- TakeBytes(s3, len);
      Ok((Stream(id, offset, data, ty % 2 == 1), s4))
  }

  function ParseDatagram(ty: nat, s: seq<byte>): Result<(Frame, seq<byte>)> {
    var (len, s1) :- if ty % 2 == 1 then TakeVarint(s) else Ok((|s|, s));
    var (data, s2) :- TakeBytes(s1, len);
    Ok((Datagram(data), s2))
  }

  /** Frames with one varint after the type. */
  function ParseOne(ty: nat, s: seq<byte>): Result<(Frame, seq<byte>)>
    requires ty in {0x10, 0x12, 0x13, 0x14, 0x16, 0x17, 0x19}
  {
    var (v, s1) :- TakeVarint(s);
    Ok((if ty == 0x10 then MaxData(v)
        else if ty == 0x12 then MaxStreamsBidi(v)
        else if ty == 0x13 then MaxStreamsUni(v)
        else if ty == 0x14 then DataBlocked(v)
        else if ty == 0x16 then StreamsBlockedBidi(v)
        else if ty == 0x17 then StreamsBlockedUni(v)
        else RetireConnectionId(v), s1))
  }

  /** Frames with two varints after the type. */
  function ParseTwo(ty: nat, s: seq<byte>): Result<(Frame, seq<byte>)>
    requires ty in {0x05, 0x11, 0x15}
  {
    var (id, s1) :- TakeVarint(s);
    var (v, s2) :- TakeVarint(s1);
    Ok((if ty == 0x05 then StopSending(id, v)
        else if ty == 0x11 then MaxStreamData(id, v)
        else StreamDataBlocked(id, v), s2))
  }

  function ParseNewConnectionId(s: seq<byte>): Result<(Frame, seq<byte>)> {
    var (num, s1) :- TakeVarint(s);
    var (prior, s2) :- TakeVarint(s1);
    var (len, s3) :- TakeU(s2, 1);
    if !(1 <= len <= MAX_CID_LEN) then Err(InvalidFrame)
    else
      var (cid, s4) :- TakeBytes(s3, len);
      var (token, s5) :- TakeBytes(s4, 16);
      Ok((NewConnectionId(num, prior, cid, token), s5))
  }

  /** The part of `from_bytes` after the type has been read. */
  function ParseBody(ty: nat, s: seq<byte>): Result<(Frame, seq<byte>)> {
    if ty == 0x00 then
      var (n, s1) := SkipZeros(s);
      Ok((Padding(n + 1), s1))
    else if ty == 0x01 then Ok((Ping, s))
    else if 0x02 <= ty <= 0x03 then ParseAck(ty, s)
    else if ty == 0x04 then
      var (id, s1) :- TakeVarint(s);
      var (code, s2) :- TakeVarint(s1);
      var (size, s3) :- TakeVarint(s2);
      Ok((ResetStream(id, code, size), s3))
    else if ty == 0x06 then
      var (offset, s1) :- TakeVarint(s);
      var (data, s2) :- TakeVarBytes(s1);
      Ok((Crypto(offset, data), s2))
    else if ty == 0x07 then
      var (len, s1) :- TakeVarint(s);
      if len == 0 then Err(InvalidFrame)
      else
        var (token, s2) :- TakeBytes(s1, len);
        Ok((NewToken(token), s2))
    else if 0x08 <= ty <= 0x0f then ParseStream(ty, s)
    else if ty in {0x05, 0x11, 0x15} then ParseTwo(ty, s)
    else if ty in {0x10, 0x12, 0x13, 0x14, 0x16, 0x17, 0x19} then ParseOne(ty, s)
    else if ty == 0x18 then ParseNewConnectionId(s)
    else if ty == 0x1a || ty == 0x1b then
      var (data, s1) :- TakeBytes(s, 8);
      Ok((if ty == 0x1a then PathChallenge(data) else PathResponse(data), s1))
    else if ty == 0x1c then
      var (code, s1) :- TakeVarint(s);
      var (kind, s2) :- TakeVarint(s1);
      var (reason, s3) :- TakeVarBytes(s2);
      Ok((ConnectionClose(code, kind, reason), s3))
    else if ty == 0x1d then
      var (code, s1) :- TakeVarint(s);
      var (reason, s2) :- TakeVarBytes(s1);
      Ok((ApplicationClose(code, reason), s2))
    else if ty == 0x1e then Ok((HandshakeDone, s))
    else if 0x30 <= ty <= 0x31 then ParseDatagram(ty, s)
    else if ty == 0x34 then ParseSourceSymbolAck(s)
    else Err(InvalidFrame)
  }

  /** Which frames a packet of each type may carry. */
  predicate Allowed(pkt: PacketType, f: Frame) {
    if f.Padding? || f.Ping? then true
    else if pkt.ZeroRTT? && (f.ACK? || f.Crypto? || f.HandshakeDone? || f.NewToken? || f.PathResponse?
                             || f.RetireConnectionId? || f.ConnectionClose?) then false
    else if f.ACK? || f.Crypto? || f.ConnectionClose? then true
    else pkt.Short? || pkt.ZeroRTT?
  }

  /** `from_bytes`: the frame at the front of a byte string and what follows it. */
  function Parse(s: seq<byte>, pkt: PacketType): Result<(Frame, seq<byte>)> {
    var (ty, s1) :- TakeVarint(s);
    var (frame, s2) :- ParseBody(ty, s1);
    if Allowed(pkt, frame) then Ok((frame, s2)) else Err(InvalidPacket)
  }
}
