/** `to_bytes`, `wire_len` and `from_bytes` as code that moves a cursor, with the loops over
    ACK ranges and PADDING, proved against the functions on byte strings. */
module FrameCodec {
  import opened Basics
  import opened Octets
  import opened Buffers
  import opened Ranges
  import opened RangeSets
  import opened Frames
  import opened FrameRoundTrip

  const USIZE_MAX: nat := 0xFFFF_FFFF_FFFF_FFFF

  // ---------- Writing ----------

  method PutField(b: Writer, f: Field) returns (r: Result<()>)
    requires b.Valid() && FieldOk(f)
    modifies b`off, b.buf
    ensures b.Valid()
    ensures r == if |FieldBytes(f)| <= b.buf.Length - old(b.off) then Ok(()) else Err(BufferTooShort)
    ensures r.Ok? ==> b.off == old(b.off) + |FieldBytes(f)|
                      && b.buf[..] == Splice(old(b.buf[..]), old(b.off), FieldBytes(f))
    ensures r.Err? ==> b.off == old(b.off) && b.buf[..] == old(b.buf[..])
  {
    match f
    case V(v) => r := b.PutVarint(v);
    case V2(v) => r := b.PutVarintWithLen(v, 2);
    case U8(v) => r := b.PutU(v, 1);
    case Raw(s) => r := b.PutBytes(s);
  }

  lemma BytesPrefix(fs: seq<Field>, i: nat)
    requires FieldsOk(fs) && i < |fs|
    ensures Bytes(fs[..i + 1]) == Bytes(fs[..i]) + FieldBytes(fs[i])
    ensures |Bytes(fs[..i])| <= |Bytes(fs)| && |Bytes(fs[..i + 1])| <= |Bytes(fs)|
  {
    hide Bytes, FieldBytes;
    OneField(fs[i]);
    assert fs[..i + 1] == fs[..i] + [fs[i]];
    BytesConcat(fs[..i], [fs[i]]);
    assert fs == fs[..i] + fs[i..] && fs == fs[..i + 1] + fs[i + 1..];
    BytesConcat(fs[..i], fs[i..]);
    BytesConcat(fs[..i + 1], fs[i + 1..]);
  }

  lemma OneField(f: Field)
    requires FieldOk(f)
    ensures Bytes([f]) == FieldBytes(f)
  {
    assert [f][1..] == [];
    assert Bytes([f]) == FieldBytes(f) + Bytes([]);
  }

  /** Writes fields one after the other and stops at the first that does not fit. */
  method PutFields(b: Writer, fs: seq<Field>) returns (r: Result<()>)
    requires b.Valid() && FieldsOk(fs)
    modifies b`off, b.buf
    ensures b.Valid()
    ensures r == if |Bytes(fs)| <= b.buf.Length - old(b.off) then Ok(()) else Err(BufferTooShort)
    ensures r.Ok? ==> b.off == old(b.off) + |Bytes(fs)| && b.buf[..] == Splice(old(b.buf[..]), old(b.off), Bytes(fs))
    ensures b.buf[..old(b.off)] == old(b.buf[..b.off])
  {
    hide Bytes, FieldBytes;
    ghost var was, start := b.buf[..], b.off;
    assert Bytes(fs[..0]) == [] by { EmptyBytes(fs[..0]); }
    for i := 0 to |fs|
      invariant b.Valid() && start + |Bytes(fs[..i])| <= |was| == b.buf.Length
      invariant b.off == start + |Bytes(fs[..i])| && b.buf[..] == Splice(was, start, Bytes(fs[..i]))
    {
      BytesPrefix(fs, i);
      var put := PutField(b, fs[i]);
      if put.Err? {
        assert b.buf[..start] == b.buf[..][..start] == was[..start];
        return put;
      }
      SpliceTwice(was, start, Bytes(fs[..i]), FieldBytes(fs[i]));
    }
    assert fs[..|fs|] == fs;
    assert b.buf[..start] == b.buf[..][..start] == was[..start];
    r := Ok(());
  }

  lemma EmptyBytes(fs: seq<Field>)
    requires fs == []
    ensures FieldsOk(fs) && Bytes(fs) == []
  {
  }

  /** The gap and length pairs of the ranges below the highest, computed by walking down. */
  method AckBlocks(s: seq<Range>) returns (fs: seq<Field>)
    requires RangesOk(s)
    ensures fs == BlockFields(s[..|s| - 1], s[|s| - 1].start)
  {
    hide BlockFields;
    fs := [];
    var smallest := s[|s| - 1].start;
    var i := |s| - 1;
    while i > 0
      invariant 0 <= i < |s| && smallest == s[i].start
      invariant fs + BlockFields(s[..i], smallest) == BlockFields(s[..|s| - 1], s[|s| - 1].start)
    {
      i := i - 1;
      var gap := smallest - s[i].end - 1;
      var block := s[i].end - 1 - s[i].start;
      BlockFieldsStep(s, i, smallest);
      fs := fs + [V(gap), V(block)];
      smallest := s[i].start;
    }
    NoBlockFields(s[..0], smallest);
  }

  lemma BlockFieldsStep(s: seq<Range>, i: nat, smallest: nat)
    requires WellFormed(s) && i < |s| && s[i].end < smallest
    ensures BlockFields(s[..i + 1], smallest)
         == [V(smallest - s[i].end - 1), V(s[i].end - 1 - s[i].start)] + BlockFields(s[..i], s[i].start)
  {
    assert s[..i + 1][..i] == s[..i] && s[..i + 1][i] == s[i];
  }

  lemma NoBlockFields(s: seq<Range>, smallest: nat)
    requires s == []
    ensures BlockFields(s, smallest) == []
  {
  }

  /** `to_bytes`: succeeds exactly when `wire_len` bytes are left, writes exactly the encoding
      of the frame there, and returns its length. */
  method ToBytes(f: Frame, b: Writer) returns (r: Result<nat>)
    requires b.Valid() && Writable(f)
    modifies b`off, b.buf
    ensures b.Valid()
    ensures r == if WireLen(f) <= b.buf.Length - old(b.off) then Ok(WireLen(f)) else Err(BufferTooShort)
    ensures r.Ok? ==> |Encode(f)| == WireLen(f) && b.off == old(b.off) + WireLen(f)
                      && b.buf[..] == Splice(old(b.buf[..]), old(b.off), Encode(f))
    ensures b.buf[..old(b.off)] == old(b.buf[..b.off])
  {
    LayoutOk(f);
    WireLenExact(f);
    var fs := Fields(f);
    hide Layout, WireLen, Writable, Bytes;
    var before := b.off;
    var put := PutFields(b, fs);
    if put.Err? {
      return Err(put.error);
    }
    r := Ok(b.off - before);
  }

  /** The writes of a frame, with the PADDING and ACK loops spelled out. */
  method Fields(f: Frame) returns (fs: seq<Field>)
    requires Writable(f)
    ensures fs == Layout(f)
  {
    match f {
      case Padding(len) => fs := PaddingFields(len);
      case ACK(delay, s, ecn) => fs := AckFields(delay, s, ecn);
      case SourceSymbolACK(s) => fs := SourceSymbolAckFields(s);
      case _ => fs := Layout(f);
    }
  }

  method PaddingFields(len: nat) returns (fs: seq<Field>)
    ensures fs == Layout(Padding(len))
  {
    fs := [];
    var left := len;
    while left > 0
      invariant 0 <= left <= len && fs == seq(len - left, i => V(0))
    {
      fs := fs + [V(0)];
      left := left - 1;
    }
  }

  method AckFields(delay: nat, s: seq<Range>, ecn: Option<EcnCounts>) returns (fs: seq<Field>)
    requires RangesOk(s)
    ensures fs == Layout(ACK(delay, s, ecn))
  {
    hide BlockFields;
    var top := s[|s| - 1];
    var blocks := AckBlocks(s);
    fs := [V(if ecn.None? then 0x02 else 0x03), V(top.end - 1), V(delay), V(|s| - 1), V(top.end - 1 - top.start)]
          + blocks + EcnFields(ecn);
  }

  method SourceSymbolAckFields(s: seq<Range>) returns (fs: seq<Field>)
    requires RangesOk(s)
    ensures fs == Layout(SourceSymbolACK(s))
  {
    hide BlockFields;
    var top := s[|s| - 1];
    var blocks := AckBlocks(s);
    fs := [V(0x34), V(top.end - 1), V(|s| - 1), V(top.end - 1 - top.start)] + blocks;
  }

  /** `wire_len`, with the loop of the ACK frames. */
  method WireLength(f: Frame) returns (len: nat)
    requires Writable(f)
    ensures len == WireLen(f) && len == |Encode(f)|
  {
    WireLenExact(f);
    hide Encode, WireLen, Writable;
    if f.ACK? || f.SourceSymbolACK? {
      len := AckWireLength(f);
    } else {
      len := WireLen(f);
    }
  }

  method AckWireLength(f: Frame) returns (len: nat)
    requires Writable(f) && (f.ACK? || f.SourceSymbolACK?)
    ensures len == WireLen(f)
  {
    hide VarintLen, BlocksLen, EcnLen, WireLen, Writable;
    AckWireLen(f);
    len := AckLength(f.ranges);
    hide WellFormed;
    if f.ACK? {
      len := len + VarintLen(f.ackDelay) + EcnLen(f.ecn);
    }
  }

  lemma AckWireLen(f: Frame)
    requires Writable(f)
    ensures f.ACK? || f.SourceSymbolACK? ==>
              && RangesOk(f.ranges) && |f.ranges| <= f.ranges[|f.ranges| - 1].end <= TWO_62
              && (f.ACK? ==> f.ackDelay < TWO_62 && (f.ecn.Some? ==>
                    f.ecn.value.ect0 < TWO_62 && f.ecn.value.ect1 < TWO_62 && f.ecn.value.ce < TWO_62))
              && var s, top := f.ranges, f.ranges[|f.ranges| - 1];
                 WireLen(f) == 1 + VarintLen(top.end - 1) + VarintLen(|s| - 1) + VarintLen(top.end - 1 - top.start)
                               + BlocksLen(s[..|s| - 1], top.start)
                               + if f.ACK? then VarintLen(f.ackDelay) + EcnLen(f.ecn) else 0
  {
    hide VarintLen, BlocksLen, EcnLen;
    if f.ACK? || f.SourceSymbolACK? {
      CountBound(f.ranges);
    }
  }

  /** The part that the two ACK frames share. */
  method AckLength(s: seq<Range>) returns (len: nat)
    requires RangesOk(s) && s[|s| - 1].end <= TWO_62
    ensures |s| <= TWO_62
    ensures var top := s[|s| - 1];
            len == 1 + VarintLen(top.end - 1) + VarintLen(|s| - 1) + VarintLen(top.end - 1 - top.start)
                   + BlocksLen(s[..|s| - 1], top.start)
  {
    hide VarintLen, BlocksLen;
    CountBound(s);
    var top := s[|s| - 1];
    var blocks := AckBlocksLen(s);
    len := 1 + VarintLen(top.end - 1) + VarintLen(|s| - 1) + VarintLen(top.end - 1 - top.start) + blocks;
  }

  /** The loop of `wire_len` over the lower ranges of an ACK frame. */
  method AckBlocksLen(s: seq<Range>) returns (len: nat)
    requires RangesOk(s) && s[|s| - 1].end <= TWO_62
    ensures len == BlocksLen(s[..|s| - 1], s[|s| - 1].start)
  {
    len := 0;
    var smallest := s[|s| - 1].start;
    var i := |s| - 1;
    while i > 0
      invariant 0 <= i < |s| && smallest == s[i].start
      invariant len + BlocksLen(s[..i], smallest) == BlocksLen(s[..|s| - 1], s[|s| - 1].start)
    {
      i := i - 1;
      BlocksLenStep(s, i, smallest);
      hide BlocksLen, VarintLen;
      len := len + VarintLen(smallest - s[i].end - 1) + VarintLen(s[i].end - 1 - s[i].start);
      smallest := s[i].start;
    }
  }

  lemma BlocksLenStep(s: seq<Range>, i: nat, smallest: nat)
    requires WellFormed(s) && i + 1 < |s| && s[i + 1].start == smallest <= TWO_62
    ensures BlocksLen(s[..i + 1], smallest)
         == VarintLen(smallest - s[i].end - 1) + VarintLen(s[i].end - 1 - s[i].start) + BlocksLen(s[..i], s[i].start)
  {
    assert s[..i + 1][..i] == s[..i] && s[..i + 1][i] == s[i];
  }

  // ---------- Parsing ----------

  /** Combines the blocks still to be parsed with the ranges collected so far. */
  function WithUpper(p: Result<(seq<Range>, seq<byte>)>, upper: seq<Range>): Result<(seq<Range>, seq<byte>)> {
    match p
    case Err(e) => Err(e)
    case Ok((lower, rest)) => Ok((lower + upper, rest))
  }

  lemma WithUpperStep(count: nat, smallest: nat, s: seq<byte>, gap: nat, s1: seq<byte>, block: nat, s2: seq<byte>,
                      upper: seq<Range>)
    requires count > 0 && TakeVarint(s) == Ok((gap, s1)) && TakeVarint(s1) == Ok((block, s2))
    requires 2 + gap <= smallest && block <= smallest - gap - 2
    ensures WithUpper(ParseBlocks(count, smallest, s), upper)
         == WithUpper(ParseBlocks(count - 1, smallest - gap - 2 - block, s2),
                      [Range(smallest - gap - 2 - block, smallest - gap - 1)] + upper)
  {
    hide TakeVarint;
    var largest := smallest - gap - 2;
    var r := Range(largest - block, largest + 1);
    var p := ParseBlocks(count - 1, largest - block, s2);
    if p.Ok? {
      assert p.value.0 + [r] + upper == p.value.0 + ([r] + upper);
    }
  }

  /** One turn of the loop: reads a gap and a block, and puts the range below the others. */
  method ParseBlock(b: Reader, ranges: RangeSet, smallest: nat, ghost count: nat) returns (r: Result<nat>)
    requires b.Valid() && ranges.Valid() && ranges.capacity == USIZE_MAX && 0 < count
    requires WellFormed(ranges.Contents()) && 0 < |ranges.Contents()| < USIZE_MAX
    requires ranges.Contents()[0].start == smallest
    modifies b`off, ranges
    ensures b.Valid() && ranges.Valid()
    ensures var all := WithUpper(ParseBlocks(count, smallest, old(b.Rest())), old(ranges.Contents()));
            match r
            case Err(e) => all == Err(e)
            case Ok(next) =>
              && all == WithUpper(ParseBlocks(count - 1, next, b.Rest()), ranges.Contents())
              && WellFormed(ranges.Contents()) && |ranges.Contents()| == |old(ranges.Contents())| + 1
              && ranges.Contents()[0].start == next
  {
    hide TakeVarint;
    ghost var s0 := b.Rest();
    var gap :- b.GetVarint();
    ghost var s1 := b.Rest();
    if smallest < 2 + gap {
      return Err(InvalidFrame);
    }
    var largest := smallest - gap - 2;
    var block :- b.GetVarint();
    if largest < block {
      return Err(InvalidFrame);
    }
    WithUpperStep(count, smallest, s0, gap, s1, block, b.Rest(), ranges.Contents());
    var next := largest - block;
    InsertBelow(ranges.Contents(), Range(next, largest + 1), USIZE_MAX);
    WellFormedCons(Range(next, largest + 1), ranges.Contents());
    var _ := ranges.Insert(Range(next, largest + 1));
    r := Ok(next);
  }

  /** Reads the blocks into a range set, from the highest down.  Every insertion goes below
      all earlier ones, so the set only ever grows at its lower end. */
  method ParseRanges(b: Reader, largestAck: nat, count: nat, ackBlock: nat) returns (r: Result<seq<Range>>)
    requires b.Valid() && count < TWO_62
    modifies b`off
    ensures b.Valid()
    ensures match ParseAckRanges(largestAck, count, ackBlock, old(b.Rest()))
            case Err(e) => r == Err(e)
            case Ok((s, rest)) => r == Ok(s) && b.Rest() == rest
  {
    if largestAck < ackBlock {
      return Err(InvalidFrame);
    }
    AckRangesStart(largestAck, count, ackBlock, b.Rest());
    hide ParseBlocks, ParseAckRanges;
    var smallest := largestAck - ackBlock;
    var ranges := FirstRange(Range(smallest, largestAck + 1));
    var _ :- ParseAllBlocks(b, ranges, smallest, count);
    var s := ranges.Iter();
    r := Ok(s);
  }

  /** A new set with one range. */
  method FirstRange(item: Range) returns (ranges: RangeSet)
    requires item.NonEmpty()
    ensures fresh(ranges) && ranges.Valid() && ranges.capacity == USIZE_MAX && ranges.Contents() == [item]
  {
    ranges := new RangeSet(USIZE_MAX);
    InsertBelow([], item, USIZE_MAX);
    var _ := ranges.Insert(item);
  }

  /** The loop over the blocks below the first. */
  method ParseAllBlocks(b: Reader, ranges: RangeSet, first: nat, count: nat) returns (r: Result<()>)
    requires b.Valid() && ranges.Valid() && ranges.capacity == USIZE_MAX && count < TWO_62
    requires |ranges.Contents()| == 1 && ranges.Contents()[0].NonEmpty() && ranges.Contents()[0].start == first
    modifies b`off, ranges
    ensures b.Valid() && ranges.Valid()
    ensures match WithUpper(ParseBlocks(count, first, old(b.Rest())), old(ranges.Contents()))
            case Err(e) => r == Err(e)
            case Ok((s, rest)) => r == Ok(()) && ranges.Contents() == s && b.Rest() == rest
  {
    hide ParseBlocks;
    var smallest := first;
    for i := 0 to count
      invariant b.Valid() && ranges.Valid()
      invariant WellFormed(ranges.Contents()) && |ranges.Contents()| == i + 1
      invariant ranges.Contents()[0].start == smallest
      invariant WithUpper(ParseBlocks(count, first, old(b.Rest())), old(ranges.Contents()))
             == WithUpper(ParseBlocks(count - i, smallest, b.Rest()), ranges.Contents())
    {
      smallest :- ParseBlock(b, ranges, smallest, count - i);
    }
    NoBlocksLeft(smallest, b.Rest(), ranges.Contents());
    r := Ok(());
  }

  lemma AckRangesStart(largest: nat, count: nat, block: nat, s: seq<byte>)
    requires block <= largest
    ensures ParseAckRanges(largest, count, block, s)
         == WithUpper(ParseBlocks(count, largest - block, s), [Range(largest - block, largest + 1)])
  {
  }

  lemma NoBlocksLeft(smallest: nat, s: seq<byte>, upper: seq<Range>)
    ensures WithUpper(ParseBlocks(0, smallest, s), upper) == Ok((upper, s))
  {
    assert [] + upper == upper;
  }

  method ParseAckFrame(ty: nat, b: Reader) returns (r: Result<Frame>)
    requires b.Valid()
    modifies b`off
    ensures b.Valid()
    ensures match ParseAck(ty, old(b.Rest()))
            case Err(e) => r == Err(e)
            case Ok((f, rest)) => r == Ok(f) && b.Rest() == rest
  {
    hide TakeVarint, ParseAckRanges;
    var largestAck :- b.GetVarint();
    var ackDelay :- b.GetVarint();
    ghost var s2 := b.Rest();
    var blockCount :- b.GetVarint();
    VarintBound(s2);
    var ackBlock :- b.GetVarint();
    var ranges :- ParseRanges(b, largestAck, blockCount, ackBlock);
    if ty % 2 == 1 {
      var ect0 :- b.GetVarint();
      var ect1 :- b.GetVarint();
      var ce :- b.GetVarint();
      return Ok(ACK(ackDelay, ranges, Some(EcnCounts(ect0, ect1, ce))));
    }
    r := Ok(ACK(ackDelay, ranges, None));
  }

  lemma VarintBound(s: seq<byte>)
    ensures TakeVarint(s).Ok? ==> TakeVarint(s).value.0 < TWO_62
  {
  }

  method ParseSourceSymbolAckFrame(b: Reader) returns (r: Result<Frame>)
    requires b.Valid()
    modifies b`off
    ensures b.Valid()
    ensures match ParseSourceSymbolAck(old(b.Rest()))
            case Err(e) => r == Err(e)
            case Ok((f, rest)) => r == Ok(f) && b.Rest() == rest
  {
    hide TakeVarint, ParseAckRanges;
    var largestAck :- b.GetVarint();
    ghost var s1 := b.Rest();
    var blockCount :- b.GetVarint();
    VarintBound(s1);
    var ackBlock :- b.GetVarint();
    var ranges :- ParseRanges(b, largestAck, blockCount, ackBlock);
    r := Ok(SourceSymbolACK(ranges));
  }

  method ParseStreamFrame(ty: nat, b: Reader) returns (r: Result<Frame>)
    requires b.Valid()
    modifies b`off
    ensures b.Valid()
    ensures match ParseStream(ty, old(b.Rest()))
            case Err(e) => r == Err(e)
            case Ok((f, rest)) => r == Ok(f) && b.Rest() == rest
  {
    hide TakeVarint, TakeBytes;
    var streamId :- b.GetVarint();
    var offset: nat := 0;
    if ty / 4 % 2 == 1 {
      offset :- b.GetVarint();
    }
    var len: nat;
    if ty / 2 % 2 == 1 {
      len :- b.GetVarint();
    } else {
      len := b.Cap();
    }
    if offset + len >= MAX_STREAM_SIZE {
      return Err(InvalidFrame);
    }
    var data :- b.GetBytes(len);
    r := Ok(Stream(streamId, offset, data, ty % 2 == 1));
  }

  method ParseDatagramFrame(ty: nat, b: Reader) returns (r: Result<Frame>)
    requires b.Valid()
    modifies b`off
    ensures b.Valid()
    ensures match ParseDatagram(ty, old(b.Rest()))
            case Err(e) => r == Err(e)
            case Ok((f, rest)) => r == Ok(f) && b.Rest() == rest
  {
    hide TakeVarint, TakeBytes;
    var len: nat;
    if ty % 2 == 1 {
      len :- b.GetVarint();
    } else {
      len := b.Cap();
    }
    var data :- b.GetBytes(len);
    r := Ok(Datagram(data));
  }

  /** Reads the zero bytes after a PADDING type. */
  method ParsePadding(b: Reader) returns (len: nat)
    requires b.Valid()
    modifies b`off
    ensures b.Valid()
    ensures SkipZeros(old(b.Rest())) == (len - 1, b.Rest()) && len >= 1
  {
    len := 1;
    while true
      invariant b.Valid() && len >= 1
      invariant SkipZeros(old(b.Rest())) == (SkipZeros(b.Rest()).0 + (len - 1), SkipZeros(b.Rest()).1)
      decreases |b.buf| - b.off
    {
      var next := b.PeekU8();
      if next != Ok(0) {
        break;
      }
      ghost var before := b.Rest();
      var _ := b.GetU(1);
      assert b.Rest() == before[1..];
      len := len + 1;
    }
  }

  /** The arms of `from_bytes` for frames made of varints and byte strings. */
  method ParsePlain(ty: nat, b: Reader) returns (r: Result<Frame>)
    requires b.Valid()
    requires ty == 0x04 || ty == 0x06 || ty == 0x07 || ty == 0x1a || ty == 0x1b || ty == 0x1c || ty == 0x1d
    modifies b`off
    ensures b.Valid()
    ensures match ParseBody(ty, old(b.Rest()))
            case Err(e) => r == Err(e)
            case Ok((f, rest)) => r == Ok(f) && b.Rest() == rest
  {
    hide TakeVarint, TakeBytes, TakeVarBytes;
    if ty == 0x04 {
      var streamId :- b.GetVarint();
      var errorCode :- b.GetVarint();
      var finalSize :- b.GetVarint();
      r := Ok(ResetStream(streamId, errorCode, finalSize));
    } else if ty == 0x06 {
      var offset :- b.GetVarint();
      var data :- b.GetBytesWithVarintLength();
      r := Ok(Crypto(offset, data));
    } else if ty == 0x07 {
      var len :- b.GetVarint();
      if len == 0 {
        return Err(InvalidFrame);
      }
      var token :- b.GetBytes(len);
      r := Ok(NewToken(token));
    } else if ty == 0x1a || ty == 0x1b {
      var data :- b.GetBytes(8);
      r := Ok(if ty == 0x1a then PathChallenge(data) else PathResponse(data));
    } else {
      var errorCode :- b.GetVarint();
      if ty == 0x1c {
        var frameType :- b.GetVarint();
        var reason :- b.GetBytesWithVarintLength();
        return Ok(ConnectionClose(errorCode, frameType, reason));
      }
      var reason :- b.GetBytesWithVarintLength();
      r := Ok(ApplicationClose(errorCode, reason));
    }
  }

  /** The arms for frames of one varint, of two varints, and NEW_CONNECTION_ID. */
  method ParseLimits(ty: nat, b: Reader) returns (r: Result<Frame>)
    requires b.Valid()
    requires ty == 0x05 || 0x10 <= ty <= 0x19
    modifies b`off
    ensures b.Valid()
    ensures match ParseBody(ty, old(b.Rest()))
            case Err(e) => r == Err(e)
            case Ok((f, rest)) => r == Ok(f) && b.Rest() == rest
  {
    hide TakeVarint, TakeBytes, TakeU;
    var first :- b.GetVarint();
    if ty == 0x18 {
      var prior :- b.GetVarint();
      var len :- b.GetU(1);
      if !(1 <= len <= MAX_CID_LEN) {
        return Err(InvalidFrame);
      }
      var cid :- b.GetBytes(len);
      var token :- b.GetBytes(16);
      return Ok(NewConnectionId(first, prior, cid, token));
    }
    if ty == 0x05 || ty == 0x11 || ty == 0x15 {
      var second :- b.GetVarint();
      return Ok(if ty == 0x05 then StopSending(first, second)
                else if ty == 0x11 then MaxStreamData(first, second)
                else StreamDataBlocked(first, second));
    }
    r := Ok(if ty == 0x10 then MaxData(first)
            else if ty == 0x12 then MaxStreamsBidi(first)
            else if ty == 0x13 then MaxStreamsUni(first)
            else if ty == 0x14 then DataBlocked(first)
            else if ty == 0x16 then StreamsBlockedBidi(first)
            else if ty == 0x17 then StreamsBlockedUni(first)
            else RetireConnectionId(first));
  }

  /** `from_bytes`. */
  method FromBytes(b: Reader, pkt: PacketType) returns (r: Result<Frame>)
    requires b.Valid()
    modifies b`off
    ensures b.Valid()
    ensures match Parse(old(b.Rest()), pkt)
            case Err(e) => r == Err(e)
            case Ok((f, rest)) => r == Ok(f) && b.Rest() == rest
  {
    hide TakeVarint, ParseBody;
    var ty :- b.GetVarint();
    var frame :- ParseByType(ty, b);
    r := if Allowed(pkt, frame) then Ok(frame) else Err(InvalidPacket);
  }

  method ParseByType(ty: nat, b: Reader) returns (r: Result<Frame>)
    requires b.Valid()
    modifies b`off
    ensures b.Valid()
    ensures match ParseBody(ty, old(b.Rest()))
            case Err(e) => r == Err(e)
            case Ok((f, rest)) => r == Ok(f) && b.Rest() == rest
  {
    hide TakeVarint, TakeBytes, ParseAck, ParseSourceSymbolAck, ParseStream, ParseDatagram, SkipZeros;
    if ty == 0x00 {
      var len := ParsePadding(b);
      r := Ok(Padding(len));
    } else if ty == 0x01 {
      r := Ok(Ping);
    } else if 0x02 <= ty <= 0x03 {
      r := ParseAckFrame(ty, b);
    } else if ty == 0x05 || 0x10 <= ty <= 0x19 {
      r := ParseLimits(ty, b);
    } else if ty == 0x04 || ty == 0x06 || ty == 0x07 || 0x1a <= ty <= 0x1d {
      r := ParsePlain(ty, b);
    } else if 0x08 <= ty <= 0x0f {
      r := ParseStreamFrame(ty, b);
    } else if ty == 0x1e {
      r := Ok(HandshakeDone);
    } else if 0x30 <= ty <= 0x31 {
      r := ParseDatagramFrame(ty, b);
    } else if ty == 0x34 {
      r := ParseSourceSymbolAckFrame(b);
    } else {
      r := Err(InvalidFrame);
    }
  }
}
