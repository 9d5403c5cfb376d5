/** Exactly which frames are read back: the encoder writes more frames than the two-byte length
    field can describe and the parser accepts. */
module FrameAcceptance {
  import opened Basics
  import opened Octets
  import opened Frames
  import opened FrameRoundTrip

  /** What holds of every parsed frame. */
  predicate Insisted(f: Frame) {
    match f
    case Padding(len) => len >= 1
    case NewToken(token) => token != []
    case Stream(_, offset, data, _) => offset + |data| < MAX_STREAM_SIZE
    case NewConnectionId(_, _, cid, _) => 1 <= |cid| <= MAX_CID_LEN
    case _ => true
  }

  lemma StreamInsists(ty: nat, s: seq<byte>)
    ensures ParseStream(ty, s).Ok? ==> Insisted(ParseStream(ty, s).value.0)
  {
    hide TakeVarint;
  }

  lemma NewConnectionIdInsists(s: seq<byte>)
    ensures ParseNewConnectionId(s).Ok? ==> Insisted(ParseNewConnectionId(s).value.0)
  {
    hide TakeVarint, TakeU;
  }

  lemma BodyInsists(ty: nat, s: seq<byte>)
    ensures ParseBody(ty, s).Ok? ==> Insisted(ParseBody(ty, s).value.0)
  {
    hide TakeVarint, TakeU, TakeVarBytes, ParseStream, ParseNewConnectionId, ParseAckRanges, ParseEcn;
    if 0x08 <= ty <= 0x0f {
      StreamInsists(ty, s);
    } else if ty == 0x18 {
      NewConnectionIdInsists(s);
    } else if ty == 0x07 {
      assert ParseBody(ty, s).Ok? ==> ParseBody(ty, s).value.0.NewToken?;
    } else {
      assert ParseBody(ty, s).Ok? ==>
               var f := ParseBody(ty, s).value.0;
               !f.NewToken? && !f.Stream? && !f.NewConnectionId? && (f.Padding? ==> f.len >= 1);
    }
  }

  /** A length that does not fit two bytes never leads back to the data and what follows it:
      whatever is read as the length, a right one would have taken exactly two bytes. */
  lemma LongLength(fs: seq<Field>, i: nat, data: seq<byte>, rest: seq<byte>)
    requires FieldsOk(fs) && |fs| == i + 2 && fs[i] == V2(|data|) && fs[i + 1] == Raw(data) && |data| > 16383
    ensures var length := TakeVarint(Left(fs, i, rest));
            length.Ok? ==> TakeBytes(length.value.1, length.value.0) != Ok((data, rest))
  {
    LeftStep(fs, i, rest);
    LeftStep(fs, i + 1, rest);
    LeftEnd(fs, rest);
    var body := data + rest;
    assert Left(fs, i, rest) == VarintBytes(|data|, 2) + body;
    hide Left, Bytes;
    LongVarint(|data|, body);
    hide TakeVarint, VarintBytes;
  }

  lemma LongVarint(v: nat, body: seq<byte>)
    requires v > 16383
    ensures var r := TakeVarint(VarintBytes(v, 2) + body); r.Ok? && |r.value.1| == |body| ==> r.value.0 != v
  {
    var s := VarintBytes(v, 2) + body;
    assert |s| == 2 + |body|;
    VarintRanges();
    hide VarintBytes, FromBE, ToBE, VarintRange;
    assert VarintParseLen(s[0]) == 2 && TakeVarint(s).Ok? ==> TakeVarint(s).value.0 < 16384;
  }

  /** Data that is too long for its length field is not read back. */
  lemma LongData(f: Frame, rest: seq<byte>)
    requires Writable(f) && FieldsOk(Layout(f)) && (f.Crypto? || f.Stream? || f.Datagram?) && |f.data| > 16383
    ensures ParseBody(Layout(f)[0].v, Left(Layout(f), 1, rest)) != Ok((f, rest))
  {
    match f {
      case Crypto(offset, data) => LongCrypto(Layout(f), offset, data, rest);
      case Stream(id, offset, data, fin) => LongStream(Layout(f), id, offset, data, fin, rest);
      case Datagram(data) => LongDatagram(Layout(f), data, rest);
    }
  }

  lemma LongCrypto(fs: seq<Field>, offset: nat, data: seq<byte>, rest: seq<byte>)
    requires offset < TWO_62 && |data| > 16383 && fs == [V(0x06), V(offset), V2(|data|), Raw(data)]
    ensures ParseBody(0x06, Left(fs, 1, rest)) != Ok((Crypto(offset, data), rest))
  {
    LongLength(fs, 2, data, rest);
    NextV(fs, 1, rest);
    hide TakeVarint, TakeBytes, Left;
  }

  lemma LongStream(fs: seq<Field>, id: nat, offset: nat, data: seq<byte>, fin: bool, rest: seq<byte>)
    requires id < TWO_62 && offset < TWO_62 && |data| > 16383
    requires fs == [V(if fin then 0x0f else 0x0e), V(id), V(offset), V2(|data|), Raw(data)]
    ensures ParseBody(fs[0].v, Left(fs, 1, rest)) != Ok((Stream(id, offset, data, fin), rest))
  {
    var ty := fs[0].v;
    LongLength(fs, 3, data, rest);
    NextV(fs, 1, rest);
    NextV(fs, 2, rest);
    hide TakeVarint, TakeBytes, Left, FieldsOk;
    StreamFields(ty, id, offset, Left(fs, 1, rest), Left(fs, 2, rest), Left(fs, 3, rest), data, fin, rest);
    hide ParseStream;
  }

  lemma StreamFields(ty: nat, id: nat, offset: nat, s1: seq<byte>, s2: seq<byte>, s3: seq<byte>,
                     data: seq<byte>, fin: bool, rest: seq<byte>)
    requires ty == 0x0e || ty == 0x0f
    requires TakeVarint(s1) == Ok((id, s2)) && TakeVarint(s2) == Ok((offset, s3))
    requires TakeVarint(s3).Ok? ==> TakeBytes(TakeVarint(s3).value.1, TakeVarint(s3).value.0) != Ok((data, rest))
    ensures ParseStream(ty, s1) != Ok((Stream(id, offset, data, fin), rest))
  {
    hide TakeVarint, TakeBytes;
    var length := TakeVarint(s3);
    if length.Ok? {
      SamePair(TakeBytes(length.value.1, length.value.0));
    }
  }

  lemma LongDatagram(fs: seq<Field>, data: seq<byte>, rest: seq<byte>)
    requires |data| > 16383 && fs == [V(0x31), V2(|data|), Raw(data)]
    ensures ParseBody(0x31, Left(fs, 1, rest)) != Ok((Datagram(data), rest))
  {
    LongLength(fs, 1, data, rest);
    hide TakeVarint, TakeBytes, Left;
    DatagramFields(Left(fs, 1, rest), data, rest);
    hide ParseDatagram;
  }

  lemma DatagramFields(s: seq<byte>, data: seq<byte>, rest: seq<byte>)
    requires TakeVarint(s).Ok? ==> TakeBytes(TakeVarint(s).value.1, TakeVarint(s).value.0) != Ok((data, rest))
    ensures ParseDatagram(0x31, s) != Ok((Datagram(data), rest))
  {
    hide TakeVarint, TakeBytes;
    assert 0x31 % 2 == 1;
    var length := TakeVarint(s);
    if length.Ok? {
      SamePair(TakeBytes(length.value.1, length.value.0));
    }
  }

  lemma SamePair<T>(r: Result<(T, seq<byte>)>)
    ensures r.Ok? ==> r == Ok((r.value.0, r.value.1))
  {
  }

  /** Exactly the acceptable frames are read back, with exactly what follows them, in the packets
      that may carry them. */
  lemma RoundTripIff(f: Frame, rest: seq<byte>, pkt: PacketType)
    requires Writable(f) && (f.Padding? && rest != [] ==> rest[0] != 0)
    ensures Parse(Encode(f) + rest, pkt) == Ok((f, rest)) <==> Acceptable(f) && Allowed(pkt, f)
  {
    if Acceptable(f) {
      FrameRoundTrips(f, rest, pkt);
    } else if Insisted(f) {
      LayoutOk(f);
      LongData(f, rest);
      LongFrame(f, rest, pkt);
    } else {
      ParseInsists(Encode(f) + rest, pkt);
    }
  }

  lemma ParseInsists(s: seq<byte>, pkt: PacketType)
    ensures Parse(s, pkt).Ok? ==> Insisted(Parse(s, pkt).value.0)
  {
    hide TakeVarint, ParseBody, Insisted;
    if TakeVarint(s).Ok? {
      BodyInsists(TakeVarint(s).value.0, TakeVarint(s).value.1);
    }
  }

  lemma LongFrame(f: Frame, rest: seq<byte>, pkt: PacketType)
    requires Writable(f) && FieldsOk(Layout(f)) && Layout(f) != [] && Layout(f)[0].V?
    requires ParseBody(Layout(f)[0].v, Left(Layout(f), 1, rest)) != Ok((f, rest))
    ensures Parse(Encode(f) + rest, pkt) != Ok((f, rest))
  {
    hide TakeVarint, ParseBody, Bytes, BlockFields;
    assert Layout(f)[0..] == Layout(f);
    assert Left(Layout(f), 0, rest) == Encode(f) + rest;
    NextV(Layout(f), 0, rest);
    SamePair(ParseBody(Layout(f)[0].v, Left(Layout(f), 1, rest)));
    hide Left, Layout, Encode, FieldsOk, Writable;
  }

  /** The smallest such frame: 16384 bytes of data are announced as none. */
  lemma LongestPlusOne(data: seq<byte>)
    requires |data| == 16384
    ensures Parse(Encode(Datagram(data)), Short) == Ok((Datagram([]), data))
  {
    var f := Datagram(data);
    var fs := Layout(f);
    LayoutOk(f);
    DatagramBytes(fs, data);
    NextV(fs, 0, []);
    EmptyDatagram(data);
    hide Left, Bytes, TakeVarint, ParseBody;
  }

  lemma DatagramBytes(fs: seq<Field>, data: seq<byte>)
    requires |data| == 16384 && fs == [V(0x31), V2(|data|), Raw(data)]
    ensures Left(fs, 0, []) == Bytes(fs) && Left(fs, 1, []) == [64, 0] + data
  {
    assert fs[0..] == fs && Bytes(fs) + [] == Bytes(fs);
    LeftStep(fs, 1, []);
    LeftStep(fs, 2, []);
    LeftEnd(fs, []);
    hide Left, Bytes;
    assert data + [] == data;
    ZeroLength();
  }

  lemma ZeroLength()
    ensures VarintBytes(16384, 2) == [64, 0]
  {
    assert ToBE(16384, 2) == ToBE(64, 1) + [0];
    assert ToBE(64, 1) == ToBE(0, 0) + [64];
  }

  lemma EmptyDatagram(data: seq<byte>)
    ensures ParseBody(0x31, [64, 0] + data) == Ok((Datagram([]), data))
  {
    var s := [64, 0] + data;
    assert s[..2] == [64, 0] && s[2..] == data;
    assert FromBE([64, 0]) == 16384 by {
      assert [64, 0][..1] == [64] && [64][..0] == [];
      assert FromBE([64]) == FromBE([]) * 256 + 64;
    }
    VarintRanges();
    assert TakeVarint(s) == Ok((0, data));
    hide TakeVarint;
    assert data[..0] == [] && data[0..] == data;
  }
}
