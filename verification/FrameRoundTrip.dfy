/** Writing and parsing frames are inverse, frame by frame and for whole payloads. */
module FrameRoundTrip {
  import opened Basics
  import opened Octets
  import opened Ranges
  import opened Frames

  // ---------- Reading field by field ----------

  /** The bytes left when `i` fields have been read, with `rest` after the last field. */
  ghost function Left(fs: seq<Field>, i: nat, rest: seq<byte>): seq<byte>
    requires FieldsOk(fs) && i <= |fs|
  {
    Bytes(fs[i..]) + rest
  }

  lemma LeftStep(fs: seq<Field>, i: nat, rest: seq<byte>)
    requires FieldsOk(fs) && i < |fs|
    ensures Left(fs, i, rest) == FieldBytes(fs[i]) + Left(fs, i + 1, rest)
  {
    assert fs[i..][0] == fs[i] && fs[i..][1..] == fs[i + 1..];
    assert Bytes(fs[i..]) + rest == FieldBytes(fs[i]) + (Bytes(fs[i + 1..]) + rest);
  }

  lemma LeftEnd(fs: seq<Field>, rest: seq<byte>)
    requires FieldsOk(fs)
    ensures Left(fs, |fs|, rest) == rest
  {
    assert Bytes([]) + rest == rest;
  }

  lemma NextV(fs: seq<Field>, i: nat, rest: seq<byte>)
    requires FieldsOk(fs) && i < |fs| && fs[i].V?
    ensures TakeVarint(Left(fs, i, rest)) == Ok((fs[i].v, Left(fs, i + 1, rest)))
  {
    LeftStep(fs, i, rest);
    VarintRoundTrip(fs[i].v, Left(fs, i + 1, rest));
  }

  lemma NextV2(fs: seq<Field>, i: nat, rest: seq<byte>)
    requires FieldsOk(fs) && i < |fs| && fs[i].V2? && fs[i].v <= 16383
    ensures TakeVarint(Left(fs, i, rest)) == Ok((fs[i].v, Left(fs, i + 1, rest)))
  {
    LeftStep(fs, i, rest);
    VarintExactly(fs[i].v, 2, Left(fs, i + 1, rest));
  }

  lemma NextU8(fs: seq<Field>, i: nat, rest: seq<byte>)
    requires FieldsOk(fs) && i < |fs| && fs[i].U8? && fs[i].v < 256
    ensures TakeU(Left(fs, i, rest), 1) == Ok((fs[i].v, Left(fs, i + 1, rest)))
  {
    LeftStep(fs, i, rest);
    TakeUAppend(fs[i].v, 1, Left(fs, i + 1, rest));
    assert Pow256(1) == 256 * Pow256(0);
  }

  lemma NextRaw(fs: seq<Field>, i: nat, rest: seq<byte>)
    requires FieldsOk(fs) && i < |fs| && fs[i].Raw?
    ensures TakeBytes(Left(fs, i, rest), |fs[i].s|) == Ok((fs[i].s, Left(fs, i + 1, rest)))
  {
    LeftStep(fs, i, rest);
    TakeBytesAppend(fs[i].s, Left(fs, i + 1, rest));
  }

  lemma {:induction false} BytesConcat(fs: seq<Field>, gs: seq<Field>)
    requires FieldsOk(fs) && FieldsOk(gs)
    ensures FieldsOk(fs + gs) && Bytes(fs + gs) == Bytes(fs) + Bytes(gs)
    decreases |fs|
  {
    hide FieldBytes, FieldOk;
    if fs == [] {
      assert fs + gs == gs;
      assert Bytes(fs) + Bytes(gs) == Bytes(gs);
    } else {
      BytesConcat(fs[1..], gs);
      BytesCons(fs, gs);
    }
  }

  lemma BytesCons(fs: seq<Field>, gs: seq<Field>)
    requires FieldsOk(fs) && FieldsOk(gs) && fs != [] && FieldsOk(fs[1..] + gs)
    requires Bytes(fs[1..] + gs) == Bytes(fs[1..]) + Bytes(gs)
    ensures FieldsOk(fs + gs) && Bytes(fs + gs) == Bytes(fs) + Bytes(gs)
  {
    hide FieldBytes, FieldOk;
    assert (fs + gs)[1..] == fs[1..] + gs && (fs + gs)[0] == fs[0];
  }

  // ---------- ACK blocks ----------

  lemma {:induction false} BlocksOk(s: seq<Range>, smallest: nat)
    requires WellFormed(s) && (s != [] ==> s[|s| - 1].end < smallest <= TWO_62)
    ensures FieldsOk(BlockFields(s, smallest))
    ensures |Bytes(BlockFields(s, smallest))| == BlocksLen(s, smallest)
    decreases |s|
  {
    if s != [] {
      var b, lower := s[|s| - 1], s[..|s| - 1];
      var head := [V(smallest - b.end - 1), V(b.end - 1 - b.start)];
      BlocksOk(lower, b.start);
      assert BlockFields(s, smallest) == head + BlockFields(lower, b.start);
      hide BlockFields, Bytes, WellFormed;
      BytesConcat(head, BlockFields(lower, b.start));
      TwoVarints(smallest - b.end - 1, b.end - 1 - b.start);
    }
  }

  lemma TwoVarints(a: nat, b: nat)
    requires a < TWO_62 && b < TWO_62
    ensures Bytes([V(a), V(b)]) == Varint(a) + Varint(b)
  {
    assert [V(a), V(b)][1..] == [V(b)] && [V(b)][1..] == [];
    assert Bytes([V(b)]) == Varint(b) + Bytes([]);
  }

  /** The encoder's gaps lead the parser back to the same ranges.  The blocks of the ranges
      below index `n` are the fields from `at` on. */
  lemma {:induction false} BlocksRoundTrip(s: seq<Range>, smallest: nat, fs: seq<Field>, at: nat, rest: seq<byte>)
    requires WellFormed(s) && (s != [] ==> s[|s| - 1].end < smallest <= TWO_62) && FieldsOk(fs)
    requires at + 2 * |s| <= |fs| && fs[at..at + 2 * |s|] == BlockFields(s, smallest)
    ensures ParseBlocks(|s|, smallest, Left(fs, at, rest)) == Ok((s, Left(fs, at + 2 * |s|, rest)))
    decreases |s|
  {
    hide TakeVarint, Bytes;
    if s != [] {
      var b := s[|s| - 1];
      var lower := s[..|s| - 1];
      var all := fs[at..at + 2 * |s|];
      assert fs[at] == all[0] == V(smallest - b.end - 1) && fs[at + 1] == all[1] == V(b.end - 1 - b.start);
      assert all[2..] == fs[at + 2..at + 2 + 2 * |lower|];
      assert BlockFields(s, smallest)[2..] == BlockFields(lower, b.start);
      NextV(fs, at, rest);
      NextV(fs, at + 1, rest);
      BlocksRoundTrip(lower, b.start, fs, at + 2, rest);
      BlockStep(s, smallest, Left(fs, at, rest), Left(fs, at + 1, rest), Left(fs, at + 2, rest),
                Left(fs, at + 2 * |s|, rest));
    }
  }

  lemma BlockStep(s: seq<Range>, smallest: nat, s0: seq<byte>, s1: seq<byte>, s2: seq<byte>, s3: seq<byte>)
    requires WellFormed(s) && s != [] && s[|s| - 1].end < smallest
    requires TakeVarint(s0) == Ok((smallest - s[|s| - 1].end - 1, s1))
    requires TakeVarint(s1) == Ok((s[|s| - 1].end - 1 - s[|s| - 1].start, s2))
    requires ParseBlocks(|s| - 1, s[|s| - 1].start, s2) == Ok((s[..|s| - 1], s3))
    ensures ParseBlocks(|s|, smallest, s0) == Ok((s, s3))
  {
    hide TakeVarint, TakeBytes, TakeU, Bytes, WellFormed;
    var b := s[|s| - 1];
    assert s == s[..|s| - 1] + [Range(b.start, b.end)];
  }

  lemma {:induction false} BlockCount(s: seq<Range>, smallest: nat)
    requires WellFormed(s) && (s != [] ==> s[|s| - 1].end < smallest)
    ensures |BlockFields(s, smallest)| == 2 * |s|
    decreases |s|
  {
    if s != [] {
      BlockCount(s[..|s| - 1], s[|s| - 1].start);
    }
  }

  /** Whatever the parser accepts is a separated list with one range per block: nothing was
      merged, and the next range down would start below the first. */
  lemma {:induction false} ParseBlocksMeaning(count: nat, smallest: nat, s: seq<byte>)
    requires ParseBlocks(count, smallest, s).Ok?
    ensures var ranges := ParseBlocks(count, smallest, s).value.0;
            && WellFormed(ranges) && |ranges| == count
            && (count > 0 ==> ranges[count - 1].end < smallest)
    decreases count
  {
    hide TakeVarint;
    if count > 0 {
      var (gap, s1) := TakeVarint(s).value;
      var largest := smallest - gap - 2;
      var (block, s2) := TakeVarint(s1).value;
      ParseBlocksMeaning(count - 1, largest - block, s2);
      var lower := ParseBlocks(count - 1, largest - block, s2).value.0;
      AppendAbove(lower, Range(largest - block, largest + 1));
    }
  }

  lemma AppendAbove(s: seq<Range>, r: Range)
    requires WellFormed(s) && r.NonEmpty() && (s != [] ==> s[|s| - 1].end < r.start)
    ensures WellFormed(s + [r])
  {
    var t := s + [r];
    forall i, j | 0 <= i < j < |t| ensures t[i].end < t[j].start {
      if j == |s| && i < |s| - 1 {
        assert s[i].end < s[|s| - 1].start;
      }
    }
  }

  lemma ParseAckRangesMeaning(largest: nat, count: nat, block: nat, s: seq<byte>)
    requires ParseAckRanges(largest, count, block, s).Ok?
    ensures var ranges := ParseAckRanges(largest, count, block, s).value.0;
            WellFormed(ranges) && |ranges| == count + 1 && ranges[count].end == largest + 1
  {
    ParseBlocksMeaning(count, largest - block, s);
    AppendAbove(ParseBlocks(count, largest - block, s).value.0, Range(largest - block, largest + 1));
  }

  // ---------- Whole frames ----------

  lemma LayoutOk(f: Frame)
    requires Writable(f)
    ensures FieldsOk(Layout(f))
  {
    if f.ACK? || f.SourceSymbolACK? {
      CountBound(f.ranges);
      BlocksOk(f.ranges[..|f.ranges| - 1], f.ranges[|f.ranges| - 1].start);
      AckLayoutOk(f);
    } else {
      OtherLayoutOk(f);
    }
  }

  lemma AckLayoutOk(f: Frame)
    requires Writable(f) && (f.ACK? || f.SourceSymbolACK?) && |f.ranges| <= TWO_62
    requires FieldsOk(BlockFields(f.ranges[..|f.ranges| - 1], f.ranges[|f.ranges| - 1].start))
    ensures FieldsOk(Layout(f))
  {
  }

  lemma OtherLayoutOk(f: Frame)
    requires Writable(f) && !f.ACK? && !f.SourceSymbolACK?
    ensures FieldsOk(Layout(f))
  {
  }

  /** The bytes that `to_bytes` writes. */
  function Encode(f: Frame): seq<byte>
    requires Writable(f)
  {
    LayoutOk(f);
    Bytes(Layout(f))
  }

  lemma AckRangesRoundTrip(s: seq<Range>, fs: seq<Field>, at: nat, rest: seq<byte>)
    requires RangesOk(s) && s[|s| - 1].end <= TWO_62 && FieldsOk(fs)
    requires var lower := BlockFields(s[..|s| - 1], s[|s| - 1].start);
             at + |lower| <= |fs| && fs[at..at + |lower|] == lower
    ensures |BlockFields(s[..|s| - 1], s[|s| - 1].start)| == 2 * (|s| - 1)
    ensures ParseAckRanges(s[|s| - 1].end - 1, |s| - 1, s[|s| - 1].end - 1 - s[|s| - 1].start, Left(fs, at, rest))
         == Ok((s, Left(fs, at + 2 * (|s| - 1), rest)))
  {
    hide TakeVarint, Bytes, ParseBlocks, BlockFields;
    var top, lower := s[|s| - 1], s[..|s| - 1];
    BlockCount(lower, top.start);
    BlocksRoundTrip(lower, top.start, fs, at, rest);
    assert s == lower + [Range(top.start, top.end)];
  }

  lemma AckRoundTrip(f: Frame, rest: seq<byte>)
    requires Encodable(f) && f.ACK? && FieldsOk(Layout(f))
    ensures ParseAck(Layout(f)[0].v, Left(Layout(f), 1, rest)) == Ok((f, rest))
  {
    hide TakeVarint, TakeBytes, TakeU, Bytes, BlockFields, ParseAckRanges, ParseEcn;
    var fs, s := Layout(f), f.ranges;
    var lower := BlockFields(s[..|s| - 1], s[|s| - 1].start);
    assert fs[5..5 + |lower|] == lower && fs[5 + |lower|..] == EcnFields(f.ecn);
    NextV(fs, 1, rest);
    NextV(fs, 2, rest);
    NextV(fs, 3, rest);
    NextV(fs, 4, rest);
    AckRangesRoundTrip(s, fs, 5, rest);
    EcnRoundTrip(f.ecn, fs, 5 + |lower|, rest);
  }

  lemma EcnRoundTrip(ecn: Option<EcnCounts>, fs: seq<Field>, at: nat, rest: seq<byte>)
    requires FieldsOk(fs) && at <= |fs| && fs[at..] == EcnFields(ecn)
    ensures ParseEcn(ecn.Some?, Left(fs, at, rest)) == Ok((ecn, rest))
  {
    hide TakeVarint, TakeBytes, TakeU, Bytes, WellFormed;
    LeftEnd(fs, rest);
    if ecn.Some? {
      assert fs[at] == fs[at..][0] && fs[at + 1] == fs[at..][1] && fs[at + 2] == fs[at..][2];
      NextV(fs, at, rest);
      NextV(fs, at + 1, rest);
      NextV(fs, at + 2, rest);
    }
  }

  lemma SourceSymbolAckRoundTrip(f: Frame, rest: seq<byte>)
    requires Encodable(f) && f.SourceSymbolACK? && FieldsOk(Layout(f))
    ensures ParseSourceSymbolAck(Left(Layout(f), 1, rest)) == Ok((f, rest))
  {
    hide TakeVarint, TakeBytes, TakeU, Bytes, BlockFields, ParseAckRanges, ParseEcn;
    var fs, s := Layout(f), f.ranges;
    var lower := BlockFields(s[..|s| - 1], s[|s| - 1].start);
    assert fs[4..4 + |lower|] == lower;
    NextV(fs, 1, rest);
    NextV(fs, 2, rest);
    NextV(fs, 3, rest);
    AckRangesRoundTrip(s, fs, 4, rest);
    LeftEnd(fs, rest);
  }

  lemma VarintFrames(f: Frame, rest: seq<byte>)
    requires Encodable(f) && FieldsOk(Layout(f))
    requires f.MaxData? || f.MaxStreamsBidi? || f.MaxStreamsUni? || f.DataBlocked? || f.StreamsBlockedBidi?
             || f.StreamsBlockedUni? || f.RetireConnectionId?
    ensures ParseBody(Layout(f)[0].v, Left(Layout(f), 1, rest)) == Ok((f, rest))
  {
    hide TakeVarint, TakeBytes, TakeU, Bytes, WellFormed;
    NextV(Layout(f), 1, rest);
    LeftEnd(Layout(f), rest);
  }

  lemma TwoVarintFrames(f: Frame, rest: seq<byte>)
    requires Encodable(f) && FieldsOk(Layout(f)) && (f.StopSending? || f.MaxStreamData? || f.StreamDataBlocked?)
    ensures ParseBody(Layout(f)[0].v, Left(Layout(f), 1, rest)) == Ok((f, rest))
  {
    hide TakeVarint, TakeBytes, TakeU, Bytes, WellFormed;
    NextV(Layout(f), 1, rest);
    NextV(Layout(f), 2, rest);
    LeftEnd(Layout(f), rest);
  }

  lemma ResetStreamFrame(f: Frame, rest: seq<byte>)
    requires Encodable(f) && FieldsOk(Layout(f)) && f.ResetStream?
    ensures ParseBody(Layout(f)[0].v, Left(Layout(f), 1, rest)) == Ok((f, rest))
  {
    hide TakeVarint, TakeBytes, TakeU, Bytes, WellFormed;
    NextV(Layout(f), 1, rest);
    NextV(Layout(f), 2, rest);
    NextV(Layout(f), 3, rest);
    LeftEnd(Layout(f), rest);
  }

  lemma DataFrames(f: Frame, rest: seq<byte>)
    requires Encodable(f) && FieldsOk(Layout(f)) && (f.Crypto? || f.NewToken? || f.Datagram?)
    ensures ParseBody(Layout(f)[0].v, Left(Layout(f), 1, rest)) == Ok((f, rest))
  {
    hide TakeVarint, TakeBytes, TakeU, Bytes, WellFormed;
    var fs := Layout(f);
    if f.Crypto? {
      NextV(fs, 1, rest);
      NextV2(fs, 2, rest);
      NextRaw(fs, 3, rest);
    } else if f.NewToken? {
      NextV(fs, 1, rest);
      NextRaw(fs, 2, rest);
    } else {
      NextV2(fs, 1, rest);
      NextRaw(fs, 2, rest);
    }
    LeftEnd(fs, rest);
  }

  lemma StreamFrame(f: Frame, rest: seq<byte>)
    requires Encodable(f) && FieldsOk(Layout(f)) && f.Stream?
    ensures ParseBody(Layout(f)[0].v, Left(Layout(f), 1, rest)) == Ok((f, rest))
  {
    hide TakeVarint, TakeBytes, TakeU, Bytes, WellFormed;
    NextV(Layout(f), 1, rest);
    NextV(Layout(f), 2, rest);
    NextV2(Layout(f), 3, rest);
    NextRaw(Layout(f), 4, rest);
    LeftEnd(Layout(f), rest);
  }

  lemma NewConnectionIdFrame(f: Frame, rest: seq<byte>)
    requires Encodable(f) && FieldsOk(Layout(f)) && f.NewConnectionId?
    ensures ParseNewConnectionId(Left(Layout(f), 1, rest)) == Ok((f, rest))
  {
    hide TakeVarint, TakeBytes, TakeU, Bytes, WellFormed;
    NextV(Layout(f), 1, rest);
    NextV(Layout(f), 2, rest);
    NextU8(Layout(f), 3, rest);
    NextRaw(Layout(f), 4, rest);
    NextRaw(Layout(f), 5, rest);
    LeftEnd(Layout(f), rest);
  }

  lemma PathFrames(f: Frame, rest: seq<byte>)
    requires Encodable(f) && FieldsOk(Layout(f)) && (f.PathChallenge? || f.PathResponse?)
    ensures ParseBody(Layout(f)[0].v, Left(Layout(f), 1, rest)) == Ok((f, rest))
  {
    hide TakeVarint, TakeBytes, TakeU, Bytes, WellFormed;
    NextRaw(Layout(f), 1, rest);
    LeftEnd(Layout(f), rest);
  }

  lemma CloseFrames(f: Frame, rest: seq<byte>)
    requires Encodable(f) && FieldsOk(Layout(f)) && (f.ConnectionClose? || f.ApplicationClose?)
    ensures ParseBody(Layout(f)[0].v, Left(Layout(f), 1, rest)) == Ok((f, rest))
  {
    hide TakeVarint, TakeBytes, TakeU, Bytes, WellFormed;
    var fs := Layout(f);
    NextV(fs, 1, rest);
    NextV(fs, 2, rest);
    if f.ConnectionClose? {
      NextV(fs, 3, rest);
      NextRaw(fs, 4, rest);
    } else {
      NextRaw(fs, 3, rest);
    }
    LeftEnd(fs, rest);
  }

  lemma BodyRoundTrip(f: Frame, rest: seq<byte>)
    requires Encodable(f) && FieldsOk(Layout(f)) && !f.Padding?
    ensures ParseBody(Layout(f)[0].v, Left(Layout(f), 1, rest)) == Ok((f, rest))
  {
    hide TakeVarint, TakeBytes, TakeU, Bytes, WellFormed, Left, Writable, Acceptable, FieldsOk;
    hide ParseStream, ParseDatagram, ParseOne, ParseTwo, ParseAck, ParseNewConnectionId, ParseSourceSymbolAck;
    match f {
      case ACK(_, _, _) => AckRoundTrip(f, rest);
      case SourceSymbolACK(_) => SourceSymbolAckRoundTrip(f, rest);
      case ResetStream(_, _, _) => ResetStreamFrame(f, rest);
      case Crypto(_, _) => DataFrames(f, rest);
      case NewToken(_) => DataFrames(f, rest);
      case Datagram(_) => DataFrames(f, rest);
      case Stream(_, _, _, _) => StreamFrame(f, rest);
      case NewConnectionId(_, _, _, _) => NewConnectionIdFrame(f, rest);
      case PathChallenge(_) => PathFrames(f, rest);
      case PathResponse(_) => PathFrames(f, rest);
      case ConnectionClose(_, _, _) => CloseFrames(f, rest);
      case ApplicationClose(_, _) => CloseFrames(f, rest);
      case Ping => LeftEnd(Layout(f), rest);
      case HandshakeDone => LeftEnd(Layout(f), rest);
      case StopSending(_, _) => TwoVarintFrames(f, rest);
      case MaxStreamData(_, _) => TwoVarintFrames(f, rest);
      case StreamDataBlocked(_, _) => TwoVarintFrames(f, rest);
      case _ => VarintFrames(f, rest);
    }
  }

  // ---------- PADDING ----------

  function Zeros(n: nat): seq<byte> {
    seq(n, i => 0)
  }

  lemma {:induction false} PaddingBytes(n: nat)
    ensures FieldsOk(Layout(Padding(n))) && Bytes(Layout(Padding(n))) == Zeros(n)
  {
    var fs := Layout(Padding(n));
    if n > 0 {
      PaddingBytes(n - 1);
      assert fs[1..] == Layout(Padding(n - 1));
      assert Varint(0) == [0] by {
        assert ToBE(0, 1) == ToBE(0, 0) + [0];
      }
      assert Zeros(n) == [0] + Zeros(n - 1);
    }
  }

  lemma {:induction false} ZerosSkipped(n: nat, rest: seq<byte>)
    requires rest != [] ==> rest[0] != 0
    ensures SkipZeros(Zeros(n) + rest) == (n, rest)
  {
    if n == 0 {
      assert Zeros(0) + rest == rest;
    } else {
      ZerosSkipped(n - 1, rest);
      assert (Zeros(n) + rest)[1..] == Zeros(n - 1) + rest;
    }
  }

  lemma PaddingRoundTrip(n: nat, rest: seq<byte>)
    requires n >= 1 && (rest != [] ==> rest[0] != 0)
    ensures TakeVarint(Zeros(n) + rest) == Ok((0, Zeros(n - 1) + rest))
    ensures ParseBody(0, Zeros(n - 1) + rest) == Ok((Padding(n), rest))
  {
    var s := Zeros(n) + rest;
    assert s[1..] == Zeros(n - 1) + rest;
    assert s[..1] == [0];
    assert FromBE([0]) == FromBE([]) * 256 + 0 by {
      assert [0][..0] == [];
    }
    ZerosSkipped(n - 1, rest);
  }

  // ---------- The main results ----------

  /** Frames are self-delimiting: whatever follows an encoded frame, parsing gives back the
      frame and exactly what follows, or rejects it if the packet may not carry it. */
  lemma FrameRoundTrips(f: Frame, rest: seq<byte>, pkt: PacketType)
    requires Encodable(f) && (f.Padding? && rest != [] ==> rest[0] != 0)
    ensures Parse(Encode(f) + rest, pkt) == if Allowed(pkt, f) then Ok((f, rest)) else Err(InvalidPacket)
  {
    hide TakeVarint, TakeBytes, TakeU, Bytes, ParseBody, BlockFields;
    LayoutOk(f);
    if f.Padding? {
      PaddingBytes(f.len);
      PaddingRoundTrip(f.len, rest);
    } else {
      var fs := Layout(f);
      assert fs[0..] == fs;
      NextV(fs, 0, rest);
      BodyRoundTrip(f, rest);
    }
  }

  /** Parsing an ACK body yields one range per block and one more, separated, so that the
      range set merged nothing. */
  lemma AcceptedAck(ty: nat, s: seq<byte>)
    requires ParseAck(ty, s).Ok?
    ensures var f := ParseAck(ty, s).value.0;
            var s1 := TakeVarint(s).value.1;
            var s2 := TakeVarint(s1).value.1;
            && f.ACK? && RangesOk(f.ranges)
            && |f.ranges| == TakeVarint(s2).value.0 + 1
            && f.ranges[|f.ranges| - 1].end == TakeVarint(s).value.0 + 1
  {
    hide TakeVarint, ParseAckRanges, WellFormed;
    var (largest, s1) := TakeVarint(s).value;
    var (_, s2) := TakeVarint(s1).value;
    var (count, s3) := TakeVarint(s2).value;
    var (block, s4) := TakeVarint(s3).value;
    ParseAckRangesMeaning(largest, count, block, s4);
  }

  lemma AcceptedSourceSymbolAck(s: seq<byte>)
    requires ParseSourceSymbolAck(s).Ok?
    ensures var f := ParseSourceSymbolAck(s).value.0;
            var s1 := TakeVarint(s).value.1;
            && f.SourceSymbolACK? && RangesOk(f.ranges)
            && |f.ranges| == TakeVarint(s1).value.0 + 1
            && f.ranges[|f.ranges| - 1].end == TakeVarint(s).value.0 + 1
  {
    hide TakeVarint, ParseAckRanges, WellFormed;
    var (largest, s1) := TakeVarint(s).value;
    var (count, s2) := TakeVarint(s1).value;
    var (block, s3) := TakeVarint(s2).value;
    ParseAckRangesMeaning(largest, count, block, s3);
  }

  // ---------- Lengths ----------

  function FieldLen(fs: seq<Field>, i: nat): nat
    requires FieldsOk(fs)
  {
    if i < |fs| then |FieldBytes(fs[i])| else 0
  }

  lemma BytesStep(fs: seq<Field>, i: nat)
    requires FieldsOk(fs)
    ensures i < |fs| ==> |Bytes(fs[i..])| == FieldLen(fs, i) + |Bytes(fs[i + 1..])|
  {
    if i < |fs| {
      assert fs[i..][0] == fs[i] && fs[i..][1..] == fs[i + 1..];
    }
  }

  lemma ShortLen(fs: seq<Field>)
    requires FieldsOk(fs) && |fs| <= 6
    ensures |Bytes(fs)| == FieldLen(fs, 0) + FieldLen(fs, 1) + FieldLen(fs, 2)
                         + FieldLen(fs, 3) + FieldLen(fs, 4) + FieldLen(fs, 5)
  {
    hide FieldLen, FieldBytes;
    NoFieldLen(fs);
    assert fs[0..] == fs;
    assert Bytes(fs[|fs|..]) == [];
    BytesStep(fs, 0);
    BytesStep(fs, 1);
    BytesStep(fs, 2);
    BytesStep(fs, 3);
    BytesStep(fs, 4);
    BytesStep(fs, 5);
  }

  lemma NoFieldLen(fs: seq<Field>)
    requires FieldsOk(fs)
    ensures forall i :: |fs| <= i ==> FieldLen(fs, i) == 0
  {
  }

  /** The length of an ACK frame up to its first block. */
  ghost function AckHeadBytes(f: Frame): nat
    requires Writable(f) && (f.ACK? || f.SourceSymbolACK?) && |f.ranges| <= TWO_62
  {
    var top := f.ranges[|f.ranges| - 1];
    1 + VarintLen(top.end - 1) + (if f.ACK? then VarintLen(f.ackDelay) else 0)
    + VarintLen(|f.ranges| - 1) + VarintLen(top.end - 1 - top.start)
  }

  lemma AckLen(f: Frame)
    requires Writable(f) && (f.ACK? || f.SourceSymbolACK?)
    ensures FieldsOk(Layout(f)) && |Bytes(Layout(f))| == WireLen(f)
  {
    hide Bytes, BlocksLen, Layout, FieldsOk, WellFormed, VarintLen;
    LayoutOk(f);
    AckLenParts(f);
  }

  lemma AckLenParts(f: Frame)
    requires Writable(f) && FieldsOk(Layout(f)) && (f.ACK? || f.SourceSymbolACK?)
    ensures |f.ranges| <= TWO_62
    ensures WellFormed(f.ranges[..|f.ranges| - 1])
    ensures |Bytes(Layout(f))| == AckHeadBytes(f)
                                  + BlocksLen(f.ranges[..|f.ranges| - 1], f.ranges[|f.ranges| - 1].start)
                                  + EcnLen(if f.ACK? then f.ecn else None)
  {
    hide Bytes, BlocksLen, Layout, FieldsOk, WellFormed, VarintLen, EcnLen, AckHeadBytes;
    LowerRangesOk(f.ranges);
    CountBound(f.ranges);
    var n := if f.ACK? then 5 else 4;
    AckTailLen(f, n);
    AckHeadLen(f, n, Layout(f)[..n]);
  }

  lemma LowerRangesOk(s: seq<Range>)
    requires RangesOk(s)
    ensures var lower := s[..|s| - 1];
            && WellFormed(lower) && (lower != [] ==> lower[|lower| - 1].end < s[|s| - 1].start)
            && s[|s| - 1].NonEmpty()
  {
  }

  lemma AckTailLen(f: Frame, n: nat)
    requires Writable(f) && FieldsOk(Layout(f)) && (f.ACK? || f.SourceSymbolACK?) && n == (if f.ACK? then 5 else 4)
    ensures n <= |Layout(f)| && FieldsOk(Layout(f)[..n])
    ensures |Bytes(Layout(f))| == |Bytes(Layout(f)[..n])|
                                  + BlocksLen(f.ranges[..|f.ranges| - 1], f.ranges[|f.ranges| - 1].start)
                                  + EcnLen(if f.ACK? then f.ecn else None)
  {
    hide Bytes, BlockFields, BlocksLen, Layout, WellFormed, EcnLen;
    AckLayoutSplit(f);
    LowerRangesOk(f.ranges);
    var lower, start := f.ranges[..|f.ranges| - 1], f.ranges[|f.ranges| - 1].start;
    var ecn := if f.ACK? then f.ecn else None;
    BlocksOk(lower, start);
    SplitLen(Layout(f), n, BlockFields(lower, start), EcnFields(ecn));
    EcnFieldsLen(ecn);
  }

  lemma AckLayoutSplit(f: Frame)
    requires Writable(f) && (f.ACK? || f.SourceSymbolACK?)
    ensures var n := if f.ACK? then 5 else 4;
            var s := f.ranges;
            && n <= |Layout(f)|
            && Layout(f)[n..] == BlockFields(s[..|s| - 1], s[|s| - 1].start)
                                 + EcnFields(if f.ACK? then f.ecn else None)
  {
    hide BlockFields;
  }

  lemma SplitLen(fs: seq<Field>, n: nat, blocks: seq<Field>, ecn: seq<Field>)
    requires FieldsOk(fs) && n <= |fs| && fs[n..] == blocks + ecn
    ensures FieldsOk(fs[..n]) && FieldsOk(blocks) && FieldsOk(ecn)
    ensures |Bytes(fs)| == |Bytes(fs[..n])| + |Bytes(blocks)| + |Bytes(ecn)|
  {
    assert fs == fs[..n] + (blocks + ecn);
    assert FieldsOk(blocks) by {
      assert forall i :: 0 <= i < |blocks| ==> blocks[i] == fs[n + i];
    }
    assert FieldsOk(ecn) by {
      assert forall i :: 0 <= i < |ecn| ==> ecn[i] == fs[n + |blocks| + i];
    }
    hide Bytes;
    BytesConcat(blocks, ecn);
    BytesConcat(fs[..n], blocks + ecn);
  }

  lemma AckHeadLen(f: Frame, n: nat, head: seq<Field>)
    requires Writable(f) && (f.ACK? || f.SourceSymbolACK?) && n == (if f.ACK? then 5 else 4)
    requires |Layout(f)| >= n && head == Layout(f)[..n] && FieldsOk(head) && |f.ranges| <= TWO_62
    ensures |Bytes(head)| == AckHeadBytes(f)
  {
    hide Bytes, Layout, WellFormed, Writable, FieldsOk, VarintLen;
    HeadFields(f, n);
    AckFacts(f);
    var s, top := f.ranges, f.ranges[|f.ranges| - 1];
    if f.ACK? {
      FiveVarints(if f.ecn.None? then 0x02 else 0x03, top.end - 1, f.ackDelay, |s| - 1, top.end - 1 - top.start);
    } else {
      FourVarints(0x34, top.end - 1, |s| - 1, top.end - 1 - top.start);
    }
  }

  lemma AckFacts(f: Frame)
    requires Writable(f) && (f.ACK? || f.SourceSymbolACK?)
    ensures f.ranges != []
    ensures var top := f.ranges[|f.ranges| - 1];
            top.start < top.end <= TWO_62 && (f.ACK? ==> f.ackDelay < TWO_62)
    ensures VarintLen(0x02) == VarintLen(0x03) == VarintLen(0x34) == 1
  {
  }

  lemma FiveVarints(a: nat, b: nat, c: nat, d: nat, e: nat)
    requires a < TWO_62 && b < TWO_62 && c < TWO_62 && d < TWO_62 && e < TWO_62
    ensures |Bytes([V(a), V(b), V(c), V(d), V(e)])|
         == VarintLen(a) + VarintLen(b) + VarintLen(c) + VarintLen(d) + VarintLen(e)
  {
    hide Bytes, VarintLen;
    FourVarints(b, c, d, e);
    assert [V(a)] + [V(b), V(c), V(d), V(e)] == [V(a), V(b), V(c), V(d), V(e)];
    BytesConcat([V(a)], [V(b), V(c), V(d), V(e)]);
    OneVarint(a);
  }

  lemma FourVarints(a: nat, b: nat, c: nat, d: nat)
    requires a < TWO_62 && b < TWO_62 && c < TWO_62 && d < TWO_62
    ensures |Bytes([V(a), V(b), V(c), V(d)])| == VarintLen(a) + VarintLen(b) + VarintLen(c) + VarintLen(d)
  {
    hide Bytes, VarintLen;
    TwoVarints(a, b);
    TwoVarints(c, d);
    assert [V(a), V(b)] + [V(c), V(d)] == [V(a), V(b), V(c), V(d)];
    BytesConcat([V(a), V(b)], [V(c), V(d)]);
  }

  lemma OneVarint(a: nat)
    requires a < TWO_62
    ensures Bytes([V(a)]) == Varint(a)
  {
    assert [V(a)][1..] == [];
    assert Bytes([V(a)]) == Varint(a) + Bytes([]);
  }

  lemma HeadFields(f: Frame, n: nat)
    requires Writable(f) && (f.ACK? || f.SourceSymbolACK?) && n == (if f.ACK? then 5 else 4) && |Layout(f)| >= n
    ensures var s, top := f.ranges, f.ranges[|f.ranges| - 1];
            Layout(f)[..n] ==
              if f.ACK? then [V(if f.ecn.None? then 0x02 else 0x03), V(top.end - 1), V(f.ackDelay), V(|s| - 1),
                              V(top.end - 1 - top.start)]
              else [V(0x34), V(top.end - 1), V(|s| - 1), V(top.end - 1 - top.start)]
  {
    hide BlockFields, WellFormed;
  }

  lemma EcnFieldsLen(ecn: Option<EcnCounts>)
    requires ecn.Some? ==> ecn.value.ect0 < TWO_62 && ecn.value.ect1 < TWO_62 && ecn.value.ce < TWO_62
    ensures |Bytes(EcnFields(ecn))| == EcnLen(ecn)
  {
    ShortLen(EcnFields(ecn));
  }

  predicate HasBytes(f: Frame) {
    f.Crypto? || f.NewToken? || f.Stream? || f.Datagram?
  }

  predicate HasReason(f: Frame) {
    f.NewConnectionId? || f.PathChallenge? || f.PathResponse? || f.ConnectionClose? || f.ApplicationClose?
  }

  lemma ReasonFrameLen(f: Frame)
    requires Writable(f) && HasReason(f) && FieldsOk(Layout(f))
    ensures |Bytes(Layout(f))| == WireLen(f)
  {
    hide Bytes, VarintBytes, ToBE, BlockFields, BlocksLen, WellFormed;
    ShortLen(Layout(f));
  }

  lemma BytesFrameLen(f: Frame)
    requires Writable(f) && HasBytes(f) && FieldsOk(Layout(f))
    ensures |Bytes(Layout(f))| == WireLen(f)
  {
    hide Bytes, VarintBytes, ToBE, BlockFields, BlocksLen, WellFormed;
    ShortLen(Layout(f));
  }

  lemma PlainFrameLen(f: Frame)
    requires Writable(f) && !HasBytes(f) && !HasReason(f) && FieldsOk(Layout(f))
    requires !f.Padding? && !f.ACK? && !f.SourceSymbolACK?
    ensures |Bytes(Layout(f))| == WireLen(f)
  {
    hide Bytes, VarintBytes, ToBE, BlockFields, BlocksLen, WellFormed;
    ShortLen(Layout(f));
  }

  /** `wire_len` is exactly the number of bytes that `to_bytes` writes. */
  lemma WireLenExact(f: Frame)
    requires Writable(f)
    ensures |Encode(f)| == WireLen(f)
  {
    LayoutOk(f);
    if f.Padding? {
      PaddingBytes(f.len);
    } else if f.ACK? || f.SourceSymbolACK? {
      AckLen(f);
    } else if HasBytes(f) {
      BytesFrameLen(f);
    } else if HasReason(f) {
      ReasonFrameLen(f);
    } else {
      PlainFrameLen(f);
    }
  }

  // ---------- Payloads ----------

  lemma FirstByte(f: Frame)
    requires Encodable(f) && !f.Padding?
    ensures Encode(f) != [] && Encode(f)[0] != 0
  {
    LayoutOk(f);
    var ty := Layout(f)[0].v;
    assert 0 < ty < 64;
    assert ToBE(ty, 1) == ToBE(ty / 256, 0) + [ty % 256];
    assert Varint(ty) == [ty];
  }

  function EncodeAll(fs: seq<Frame>): seq<byte>
    requires forall i :: 0 <= i < |fs| ==> Encodable(fs[i])
  {
    if fs == [] then [] else
      assert Encodable(fs[0]);
      Encode(fs[0]) + EncodeAll(fs[1..])
  }

  /** Adjacent PADDING frames are one run of zero bytes on the wire. */
  function MergePadding(fs: seq<Frame>): seq<Frame>
    decreases |fs|
  {
    if |fs| >= 2 && fs[0].Padding? && fs[1].Padding?
    then MergePadding([Padding(fs[0].len + fs[1].len)] + fs[2..])
    else if fs == [] then []
    else [fs[0]] + MergePadding(fs[1..])
  }

  lemma {:induction false} SkipZerosShrinks(s: seq<byte>)
    ensures |SkipZeros(s).1| <= |s|
  {
    if s != [] && s[0] == 0 {
      SkipZerosShrinks(s[1..]);
    }
  }

  lemma {:induction false} ParseBlocksShrinks(count: nat, smallest: nat, s: seq<byte>)
    requires ParseBlocks(count, smallest, s).Ok?
    ensures |ParseBlocks(count, smallest, s).value.1| <= |s|
    decreases count
  {
    hide TakeVarint;
    if count > 0 {
      var (gap, s1) := TakeVarint(s).value;
      var (block, s2) := TakeVarint(s1).value;
      ParseBlocksShrinks(count - 1, smallest - gap - 2 - block, s2);
    }
  }

  lemma AckShrinks(ty: nat, s: seq<byte>)
    requires ParseAck(ty, s).Ok?
    ensures |ParseAck(ty, s).value.1| <= |s|
  {
    hide TakeVarint, ParseBlocks;
    var (largest, s1) := TakeVarint(s).value;
    var (_, s2) := TakeVarint(s1).value;
    var (count, s3) := TakeVarint(s2).value;
    var (block, s4) := TakeVarint(s3).value;
    ParseBlocksShrinks(count, largest - block, s4);
  }

  lemma SourceSymbolAckShrinks(s: seq<byte>)
    requires ParseSourceSymbolAck(s).Ok?
    ensures |ParseSourceSymbolAck(s).value.1| <= |s|
  {
    hide TakeVarint, ParseBlocks;
    var (largest, s1) := TakeVarint(s).value;
    var (count, s2) := TakeVarint(s1).value;
    var (block, s3) := TakeVarint(s2).value;
    ParseBlocksShrinks(count, largest - block, s3);
  }

  lemma ParseShrinks(s: seq<byte>, pkt: PacketType)
    requires Parse(s, pkt).Ok?
    ensures |Parse(s, pkt).value.1| < |s|
  {
    hide TakeVarint, ParseAck, ParseSourceSymbolAck, Allowed;
    var (ty, s1) := TakeVarint(s).value;
    SkipZerosShrinks(s1);
    if 0x02 <= ty <= 0x03 {
      AckShrinks(ty, s1);
    } else if ty == 0x34 {
      SourceSymbolAckShrinks(s1);
    }
  }

  /** Parses frames until the payload is used up. */
  function ParseAll(s: seq<byte>, pkt: PacketType): Result<seq<Frame>>
    decreases |s|
  {
    if s == [] then Ok([])
    else
      var r := Parse(s, pkt);
      if r.Err? then Err(r.error)
      else
        ParseShrinks(s, pkt);
        var more :- ParseAll(r.value.1, pkt);
        Ok([r.value.0] + more)
  }

  lemma JoinPadding(a: nat, b: nat)
    requires a >= 1 && b >= 1
    ensures Encode(Padding(a)) + Encode(Padding(b)) == Encode(Padding(a + b))
  {
    PaddingEncode(a);
    PaddingEncode(b);
    PaddingEncode(a + b);
    hide Encode;
    assert Zeros(a) + Zeros(b) == Zeros(a + b);
  }

  lemma PaddingEncode(n: nat)
    requires n >= 1
    ensures Encode(Padding(n)) == Zeros(n)
  {
    PaddingBytes(n);
  }

  /** A whole payload parses back to its frames, adjacent PADDING frames being joined. */
  lemma {:induction false} PayloadRoundTrips(fs: seq<Frame>, pkt: PacketType)
    requires forall i :: 0 <= i < |fs| ==> Encodable(fs[i]) && Allowed(pkt, fs[i])
    ensures ParseAll(EncodeAll(fs), pkt) == Ok(MergePadding(fs))
    decreases |fs|
  {
    hide Writable, Acceptable, Parse, Encode, Allowed;
    if fs != [] {
      if |fs| >= 2 && fs[0].Padding? && fs[1].Padding? {
        var joined := [Padding(fs[0].len + fs[1].len)] + fs[2..];
        JoinedOk(fs, pkt);
        PayloadRoundTrips(joined, pkt);
        JoinedBytes(fs, joined);
      } else {
        PayloadRoundTrips(fs[1..], pkt);
        var rest := EncodeAll(fs[1..]);
        if |fs| >= 2 && fs[0].Padding? {
          FirstByte(fs[1]);
          assert rest == Encode(fs[1]) + EncodeAll(fs[1..][1..]);
        }
        FrameRoundTrips(fs[0], rest, pkt);
        EncodeNonEmpty(fs[0]);
      }
    }
  }

  lemma EncodeNonEmpty(f: Frame)
    requires Encodable(f)
    ensures Encode(f) != []
  {
    if f.Padding? {
      PaddingBytes(f.len);
    } else {
      FirstByte(f);
    }
  }

  lemma JoinedOk(fs: seq<Frame>, pkt: PacketType)
    requires |fs| >= 2 && fs[0].Padding? && fs[1].Padding?
    requires forall i :: 0 <= i < |fs| ==> Encodable(fs[i]) && Allowed(pkt, fs[i])
    ensures var joined := [Padding(fs[0].len + fs[1].len)] + fs[2..];
            forall i :: 0 <= i < |joined| ==> Encodable(joined[i]) && Allowed(pkt, joined[i])
    ensures fs[0].len >= 1 && fs[1].len >= 1
  {
    assert fs[0].len >= 1;
  }

  lemma JoinedBytes(fs: seq<Frame>, joined: seq<Frame>)
    requires |fs| >= 2 && fs[0].Padding? && fs[1].Padding? && fs[0].len >= 1 && fs[1].len >= 1
    requires forall i :: 0 <= i < |fs| ==> Encodable(fs[i])
    requires joined == [Padding(fs[0].len + fs[1].len)] + fs[2..]
    requires forall i :: 0 <= i < |joined| ==> Encodable(joined[i])
    ensures EncodeAll(fs) == EncodeAll(joined)
  {
    hide Encode, Writable, Acceptable;
    JoinPadding(fs[0].len, fs[1].len);
    FirstTwo(fs);
    assert joined[0] == Padding(fs[0].len + fs[1].len) && joined[1..] == fs[2..];
    Associate(Encode(fs[0]), Encode(fs[1]), EncodeAll(fs[2..]));
  }

  lemma FirstTwo(fs: seq<Frame>)
    requires |fs| >= 2 && forall i :: 0 <= i < |fs| ==> Encodable(fs[i])
    ensures EncodeAll(fs) == Encode(fs[0]) + (Encode(fs[1]) + EncodeAll(fs[2..]))
  {
    hide Encode, Writable, Acceptable;
    assert fs[1..][1..] == fs[2..];
  }

  lemma Associate(a: seq<byte>, b: seq<byte>, c: seq<byte>)
    ensures a + (b + c) == (a + b) + c
  {
  }
}
