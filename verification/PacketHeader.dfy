/** Packet headers: `Header::to_bytes` and `Header::from_bytes` of quiche/src/packet.rs. */
module PacketHeader {
  import opened Basics
  import opened Octets
  import opened Buffers
  import opened Frames

  const PROTOCOL_VERSION_V1 := 0x0000_0001
  const RETRY_TAG_LEN := 16

  datatype Header = Header(
    ty: PacketType,
    version: nat,
    dcid: seq<byte>,
    scid: seq<byte>,
    pktNum: nat,
    pktNumLen: nat,
    token: Option<seq<byte>>,
    versions: Option<seq<nat>>,
    keyPhase: bool)

  predicate VersionIsSupported(version: nat) { version == PROTOCOL_VERSION_V1 }

  // ---------- Writing ----------

  function TypeBits(ty: PacketType): nat
    requires !ty.Short? && !ty.VersionNegotiation?
  {
    match ty
    case Initial => 0
    case ZeroRTT => 1
    case Handshake => 2
    case Retry => 3
  }

  /** The form, fixed, type or key phase, and packet number length bits. */
  function FirstByte(h: Header): byte
    requires h.pktNumLen <= 4 && !h.ty.VersionNegotiation?
  {
    var len := if h.pktNumLen == 0 then 0 else h.pktNumLen - 1;
    if h.ty.Short? then 0x40 + (if h.keyPhase then 0x04 else 0) + len
    else 0x80 + 0x40 + 16 * TypeBits(h.ty) + len
  }

  /** What the encoder needs: lengths that fit their fields, and a token to send in a Retry. */
  ghost predicate Encodable(h: Header) {
    && !h.ty.VersionNegotiation? && h.pktNumLen <= 4 && h.version < 0x1_0000_0000
    && (!h.ty.Short? ==> |h.dcid| <= 255 && |h.scid| <= 255)
    && (h.ty.Initial? && h.token.Some? ==> |h.token.value| < TWO_62)
    && (h.ty.Retry? ==> h.token.Some?)
  }

  function TokenBytes(h: Header): seq<byte>
    requires Encodable(h)
  {
    match h.ty
    case Initial => if h.token.Some? then Varint(|h.token.value|) + h.token.value else Varint(0)
    case Retry => h.token.value
    case _ => []
  }

  /** Everything after the first byte. */
  function TailBytes(h: Header): seq<byte>
    requires Encodable(h)
  {
    if h.ty.Short? then h.dcid
    else ToBE(h.version, 4) + ([|h.dcid|] + (h.dcid + ([|h.scid|] + (h.scid + TokenBytes(h)))))
  }

  function HeaderBytes(h: Header): seq<byte>
    requires Encodable(h)
  {
    [FirstByte(h)] + TailBytes(h)
  }

  // ---------- Parsing ----------

  /** Versions until the packet ends. */
  function ParseVersions(s: seq<byte>): Result<(seq<nat>, seq<byte>)>
    decreases |s|
  {
    if s == [] then Ok(([], s))
    else
      var (v, s1) :- TakeU(s, 4);
      var (more, s2) :- ParseVersions(s1);
      Ok(([v] + more, s2))
  }

  /** A connection ID with its length; known versions limit the length. */
  function ParseCid(s: seq<byte>, version: nat): Result<(seq<byte>, seq<byte>)> {
    var (len, s1) :- TakeU(s, 1);
    if VersionIsSupported(version) && len > MAX_CID_LEN then Err(InvalidPacket)
    else TakeBytes(s1, len)
  }

  function LongType(first: byte, version: nat): PacketType {
    if version == 0 then VersionNegotiation
    else
      match first / 16 % 4
      case 0 => Initial
      case 1 => ZeroRTT
      case 2 => Handshake
      case _ => Retry
  }

  /** The token or the version list that some types carry. */
  function ParseExtra(ty: PacketType, s: seq<byte>): Result<(Option<seq<byte>>, Option<seq<nat>>, seq<byte>)> {
    match ty
    case Initial =>
      var (token, rest) :- TakeVarBytes(s);
      Ok((Some(token), None, rest))
    case Retry =>
      if |s| < RETRY_TAG_LEN then Err(InvalidPacket)
      else
        var (token, rest) :- TakeBytes(s, |s| - RETRY_TAG_LEN);
        Ok((Some(token), None, rest))
    case VersionNegotiation =>
      var (versions, rest) :- ParseVersions(s);
      Ok((None, Some(versions), rest))
    case _ => Ok((None, None, s))
  }

  function ParseLong(first: byte, s: seq<byte>): Result<(Header, seq<byte>)> {
    var (version, s1) :- TakeU(s, 4);
    var ty := LongType(first, version);
    var (dcid, s2) :- ParseCid(s1, version);
    var (scid, s3) :- ParseCid(s2, version);
    var (token, versions, s4) :- ParseExtra(ty, s3);
    Ok((Header(ty, version, dcid, scid, 0, 0, token, versions, false), s4))
  }

  function ParseShort(s: seq<byte>, dcidLen: nat): Result<(Header, seq<byte>)> {
    var (dcid, s1) :- TakeBytes(s, dcidLen);
    Ok((Header(Short, 0, dcid, [], 0, 0, None, None, false), s1))
  }

  /** `from_bytes`: the header and the bytes after it. */
  function ParseHeader(s: seq<byte>, dcidLen: nat): Result<(Header, seq<byte>)> {
    var (first, s1) :- TakeU(s, 1);
    if s[0] / 128 == 0 then ParseShort(s1, dcidLen) else ParseLong(s[0], s1)
  }

  lemma {:induction false} ParseVersionsShrinks(s: seq<byte>)
    requires ParseVersions(s).Ok?
    ensures |ParseVersions(s).value.1| <= |s|
    decreases |s|
  {
    if s != [] {
      ParseVersionsShrinks(TakeU(s, 4).value.1);
    }
  }

  /** A parsed header has at least its first byte. */
  lemma ParseHeaderShrinks(s: seq<byte>, dcidLen: nat)
    requires ParseHeader(s, dcidLen).Ok?
    ensures |ParseHeader(s, dcidLen).value.1| < |s|
  {
    hide TakeVarint, ParseVersions;
    var s1 := TakeU(s, 1).value.1;
    if s[0] / 128 != 0 {
      var (version, s2) := TakeU(s1, 4).value;
      var (_, s3) := ParseCid(s2, version).value;
      var (_, s4) := ParseCid(s3, version).value;
      if LongType(s[0], version).VersionNegotiation? {
        ParseVersionsShrinks(s4);
      }
    }
  }

  // ---------- The two are inverse ----------

  lemma TakeOne(b: byte, s: seq<byte>)
    ensures TakeU([b] + s, 1) == Ok((b as nat, s))
  {
    var t := [b] + s;
    assert t[..1] == [b] && t[1..] == s;
    assert [b][..0] == [];
    assert FromBE([b]) == FromBE([]) * 256 + b;
  }

  /** The parser does not look at the bits that header protection covers. */
  predicate SameForm(first: byte, other: byte) {
    if first / 128 == 1 then first / 16 == other / 16 else other / 128 == 0
  }

  /** What a parsed header looks like: the fields under protection are not known yet, a
      missing Initial token is an empty one, and short headers carry no version. */
  function Parsed(h: Header): Header {
    Header(h.ty, if h.ty.Short? then 0 else h.version, h.dcid, if h.ty.Short? then [] else h.scid, 0, 0,
           if h.ty.Initial? then Some(if h.token.Some? then h.token.value else [])
           else if h.ty.Retry? then h.token else None,
           None, false)
  }

  /** The connection ID limit that the parser enforces for version 1, and the version that it
      reads as version negotiation. */
  ghost predicate Parseable(h: Header) {
    Encodable(h) && (!h.ty.Short? ==>
                       && h.version != 0
                       && (VersionIsSupported(h.version) ==> |h.dcid| <= MAX_CID_LEN && |h.scid| <= MAX_CID_LEN))
  }

  lemma CidRoundTrip(cid: seq<byte>, version: nat, rest: seq<byte>)
    requires |cid| <= 255 && (VersionIsSupported(version) ==> |cid| <= MAX_CID_LEN)
    ensures ParseCid([|cid|] + (cid + rest), version) == Ok((cid, rest))
  {
    TakeOne(|cid|, cid + rest);
    TakeBytesAppend(cid, rest);
  }

  lemma ExtraRoundTrip(h: Header, rest: seq<byte>)
    requires Encodable(h) && !h.ty.Short? && (h.ty.Retry? ==> |rest| == RETRY_TAG_LEN)
    ensures ParseExtra(h.ty, TokenBytes(h) + rest) == Ok((Parsed(h).token, None, rest))
  {
    if h.ty.Initial? {
      var token := if h.token.Some? then h.token.value else [];
      assert TokenBytes(h) + rest == Varint(|token|) + (token + rest);
      VarintRoundTrip(|token|, token + rest);
      hide TakeVarint;
      TakeBytesAppend(token, rest);
    } else if h.ty.Retry? {
      TakeBytesAppend(h.token.value, rest);
    } else {
      assert TokenBytes(h) + rest == rest;
    }
  }

  lemma LongRoundTrip(h: Header, first: byte, rest: seq<byte>)
    requires Parseable(h) && !h.ty.Short? && first / 16 == FirstByte(h) / 16
    requires h.ty.Retry? ==> |rest| == RETRY_TAG_LEN
    ensures ParseLong(first, TailBytes(h) + rest) == Ok((Parsed(h), rest))
  {
    hide ParseCid, ParseExtra, TakeU, ToBE, TokenBytes, Varint;
    var t4 := TokenBytes(h) + rest;
    var t3 := [|h.scid|] + (h.scid + t4);
    var t2 := [|h.dcid|] + (h.dcid + t3);
    TailSplit(h, rest);
    VersionRoundTrip(h.version, t2);
    assert LongType(first, h.version) == h.ty;
    CidRoundTrip(h.dcid, h.version, t3);
    CidRoundTrip(h.scid, h.version, t4);
    ExtraRoundTrip(h, rest);
  }

  lemma TailSplit(h: Header, rest: seq<byte>)
    requires Encodable(h) && !h.ty.Short?
    ensures TailBytes(h) + rest
         == ToBE(h.version, 4) + ([|h.dcid|] + (h.dcid + ([|h.scid|] + (h.scid + (TokenBytes(h) + rest)))))
  {
  }

  lemma VersionRoundTrip(version: nat, rest: seq<byte>)
    requires version < 0x1_0000_0000
    ensures TakeU(ToBE(version, 4) + rest, 4) == Ok((version, rest))
  {
    TakeUAppend(version, 4, rest);
    assert Pow256(4) == 0x1_0000_0000 by {
      assert Pow256(2) == 256 * 256;
    }
    hide Pow256;
    ModUnique(version, 0, Pow256(4), version);
  }

  /** A header, with anything after it and any value of the protected bits, parses back. */
  lemma HeaderRoundTrips(h: Header, first: byte, rest: seq<byte>)
    requires Parseable(h) && SameForm(FirstByte(h), first)
    requires h.ty.Retry? ==> |rest| == RETRY_TAG_LEN
    ensures ParseHeader([first] + (TailBytes(h) + rest), |h.dcid|) == Ok((Parsed(h), rest))
  {
    TakeOne(first, TailBytes(h) + rest);
    hide TakeU, ParseLong, TailBytes;
    if h.ty.Short? {
      ShortRoundTrip(h, rest);
    } else {
      LongRoundTrip(h, first, rest);
    }
  }

  lemma ShortRoundTrip(h: Header, rest: seq<byte>)
    requires Encodable(h) && h.ty.Short?
    ensures ParseShort(TailBytes(h) + rest, |h.dcid|) == Ok((Parsed(h), rest))
  {
    TakeBytesAppend(h.dcid, rest);
  }

  // ---------- Writing in place ----------

  /** The concatenation of byte strings, written one after the other. */
  method PutAll(b: Writer, parts: seq<seq<byte>>) returns (r: Result<()>)
    requires b.Valid()
    modifies b`off, b.buf
    ensures b.Valid()
    ensures r == if |Concat(parts)| <= b.buf.Length - old(b.off) then Ok(()) else Err(BufferTooShort)
    ensures r.Ok? ==> b.off == old(b.off) + |Concat(parts)|
                      && b.buf[..] == Splice(old(b.buf[..]), old(b.off), Concat(parts))
    ensures b.buf[..old(b.off)] == old(b.buf[..b.off])
  {
    ghost var was, start := b.buf[..], b.off;
    for i := 0 to |parts|
      invariant b.Valid() && start + |Concat(parts[..i])| <= |was| == b.buf.Length
      invariant b.off == start + |Concat(parts[..i])| && b.buf[..] == Splice(was, start, Concat(parts[..i]))
    {
      ConcatPrefix(parts, i);
      hide Concat;
      var put := b.PutBytes(parts[i]);
      if put.Err? {
        assert b.buf[..start] == b.buf[..][..start] == was[..start];
        return put;
      }
      SpliceTwice(was, start, Concat(parts[..i]), parts[i]);
    }
    assert parts[..|parts|] == parts;
    assert b.buf[..start] == b.buf[..][..start] == was[..start];
    r := Ok(());
  }

  function Concat(parts: seq<seq<byte>>): seq<byte> {
    if parts == [] then [] else parts[0] + Concat(parts[1..])
  }

  lemma {:induction false} ConcatAppend(a: seq<seq<byte>>, b: seq<seq<byte>>)
    ensures Concat(a + b) == Concat(a) + Concat(b)
  {
    if a == [] {
      assert a + b == b;
    } else {
      assert (a + b)[1..] == a[1..] + b;
      ConcatAppend(a[1..], b);
    }
  }

  lemma ConcatPrefix(parts: seq<seq<byte>>, i: nat)
    requires i < |parts|
    ensures Concat(parts[..i + 1]) == Concat(parts[..i]) + parts[i]
    ensures |Concat(parts[..i + 1])| <= |Concat(parts)|
  {
    assert parts[..i + 1] == parts[..i] + [parts[i]];
    ConcatAppend(parts[..i], [parts[i]]);
    assert Concat([parts[i]]) == parts[i] + Concat([]);
    assert parts == parts[..i + 1] + parts[i + 1..];
    ConcatAppend(parts[..i + 1], parts[i + 1..]);
  }

  /** `to_bytes`: version negotiation headers are refused, and the others are written out in
      the order first byte, version, connection IDs, token. */
  method ToBytes(h: Header, b: Writer) returns (r: Result<()>)
    requires b.Valid() && (h.ty.VersionNegotiation? || Encodable(h))
    modifies b`off, b.buf
    ensures b.Valid() && b.buf[..old(b.off)] == old(b.buf[..b.off])
    ensures r == if h.ty.VersionNegotiation? then Err(InvalidPacket)
                 else if |HeaderBytes(h)| <= b.buf.Length - old(b.off) then Ok(()) else Err(BufferTooShort)
    ensures r.Ok? ==> b.off == old(b.off) + |HeaderBytes(h)|
                      && b.buf[..] == Splice(old(b.buf[..]), old(b.off), HeaderBytes(h))
  {
    if h.ty.VersionNegotiation? {
      return Err(InvalidPacket);
    }
    var parts: seq<seq<byte>> := [[FirstByte(h)], h.dcid];
    if !h.ty.Short? {
      parts := [[FirstByte(h)], ToBE(h.version, 4), [|h.dcid|], h.dcid, [|h.scid|], h.scid, TokenBytes(h)];
    }
    PartsOf(h, parts);
    hide Concat, HeaderBytes;
    r := PutAll(b, parts);
  }

  lemma PartsOf(h: Header, parts: seq<seq<byte>>)
    requires Encodable(h)
    requires parts == if h.ty.Short? then [[FirstByte(h)], h.dcid]
                      else [[FirstByte(h)], ToBE(h.version, 4), [|h.dcid|], h.dcid, [|h.scid|], h.scid, TokenBytes(h)]
    ensures Concat(parts) == HeaderBytes(h)
  {
    if h.ty.Short? {
      assert parts[1..][1..] == [];
      assert Concat(parts[1..]) == h.dcid + Concat([]);
    } else {
      hide FirstByte, TokenBytes, ToBE;
      var last := parts[6..];
      assert last[1..] == [];
      assert Concat(last) == TokenBytes(h) + Concat([]) == TokenBytes(h);
      assert parts[5..][1..] == last && parts[4..][1..] == parts[5..] && parts[3..][1..] == parts[4..];
      assert parts[2..][1..] == parts[3..] && parts[1..][1..] == parts[2..];
      assert Concat(parts[4..]) == [|h.scid|] + (h.scid + TokenBytes(h));
      assert Concat(parts[2..]) == [|h.dcid|] + (h.dcid + Concat(parts[4..]));
      assert Concat(parts[1..]) == TailBytes(h);
    }
  }

  // ---------- Version negotiation ----------

  /** What `negotiate_version` writes: the two connection IDs swapped by the caller, and the
      one supported version. */
  function NegotiationBytes(first: byte, scid: seq<byte>, dcid: seq<byte>): seq<byte>
    requires |scid| <= 255 && |dcid| <= 255
  {
    [first] + (ToBE(0, 4) + ([|scid|] + (scid + ([|dcid|] + (dcid + ToBE(PROTOCOL_VERSION_V1, 4))))))
  }

  lemma NegotiationRoundTrips(first: byte, scid: seq<byte>, dcid: seq<byte>, dcidLen: nat)
    requires first >= 0x80 && |scid| <= 255 && |dcid| <= 255
    ensures ParseHeader(NegotiationBytes(first, scid, dcid), dcidLen)
         == Ok((Header(VersionNegotiation, 0, scid, dcid, 0, 0, None, Some([PROTOCOL_VERSION_V1]), false), []))
  {
    hide TakeU, ToBE, ParseCid, ParseVersions;
    var v := ToBE(PROTOCOL_VERSION_V1, 4);
    var t3 := [|dcid|] + (dcid + v);
    var t2 := [|scid|] + (scid + t3);
    TakeOne(first, ToBE(0, 4) + t2);
    VersionRoundTrip(0, t2);
    OneVersion(PROTOCOL_VERSION_V1);
    CidRoundTrip(scid, 0, t3);
    CidRoundTrip(dcid, 0, v);
  }

  lemma OneVersion(version: nat)
    requires version < 0x1_0000_0000
    ensures ParseVersions(ToBE(version, 4)) == Ok(([version], []))
  {
    hide TakeU, ToBE, ParseVersions;
    VersionRoundTrip(version, []);
    assert ToBE(version, 4) + [] == ToBE(version, 4);
    LastVersion(ToBE(version, 4), version);
  }

  lemma LastVersion(s: seq<byte>, version: nat)
    requires s != [] && TakeU(s, 4) == Ok((version, []))
    ensures ParseVersions(s) == Ok(([version], []))
  {
    hide TakeU;
    var none: seq<nat>, end: seq<byte> := [], [];
    assert ParseVersions(end) == Ok((none, end));
    assert [version] + none == [version];
  }

  // ---------- Parsing with a cursor ----------

  method GetVersions(b: Reader) returns (r: Result<seq<nat>>)
    requires b.Valid()
    modifies b`off
    ensures b.Valid()
    ensures match ParseVersions(old(b.Rest()))
            case Err(e) => r == Err(e)
            case Ok((vs, rest)) => r == Ok(vs) && b.Rest() == rest
  {
    var list: seq<nat> := [];
    var cap := b.Cap();
    if ParseVersions(b.Rest()).Ok? {
      ghost var vs := ParseVersions(b.Rest()).value.0;
      assert list + vs == vs;
    }
    while cap > 0
      invariant b.Valid() && cap == |b.Rest()|
      invariant match ParseVersions(b.Rest())
                case Err(e) => ParseVersions(old(b.Rest())) == Err(e)
                case Ok((vs, rest)) => ParseVersions(old(b.Rest())) == Ok((list + vs, rest))
      decreases |b.buf| - b.off
    {
      ghost var before := b.Rest();
      var version :- b.GetU(4);
      if ParseVersions(b.Rest()).Ok? {
        ghost var vs := ParseVersions(b.Rest()).value.0;
        assert list + ([version] + vs) == (list + [version]) + vs;
      }
      list := list + [version];
      cap := b.Cap();
    }
    assert list + [] == list;
    r := Ok(list);
  }

  method GetCid(b: Reader, version: nat) returns (r: Result<seq<byte>>)
    requires b.Valid()
    modifies b`off
    ensures b.Valid()
    ensures match ParseCid(old(b.Rest()), version)
            case Err(e) => r == Err(e)
            case Ok((cid, rest)) => r == Ok(cid) && b.Rest() == rest
  {
    var len :- b.GetU(1);
    if VersionIsSupported(version) && len > MAX_CID_LEN {
      return Err(InvalidPacket);
    }
    r := b.GetBytes(len);
  }

  method GetExtra(b: Reader, ty: PacketType) returns (r: Result<(Option<seq<byte>>, Option<seq<nat>>)>)
    requires b.Valid()
    modifies b`off
    ensures b.Valid()
    ensures match ParseExtra(ty, old(b.Rest()))
            case Err(e) => r == Err(e)
            case Ok((token, versions, rest)) => r == Ok((token, versions)) && b.Rest() == rest
  {
    hide ParseVersions, TakeVarBytes;
    match ty {
      case Initial =>
        var token :- b.GetBytesWithVarintLength();
        r := Ok((Some(token), None));
      case Retry =>
        var cap := b.Cap();
        if cap < RETRY_TAG_LEN {
          return Err(InvalidPacket);
        }
        var token := b.GetBytes(cap - RETRY_TAG_LEN);
        r := Ok((Some(token.value), None));
      case VersionNegotiation =>
        var versions :- GetVersions(b);
        r := Ok((None, Some(versions)));
      case _ =>
        r := Ok((None, None));
    }
  }

  /** `from_bytes`. */
  method FromBytes(b: Reader, dcidLen: nat) returns (r: Result<Header>)
    requires b.Valid()
    modifies b`off
    ensures b.Valid()
    ensures match ParseHeader(old(b.Rest()), dcidLen)
            case Err(e) => r == Err(e)
            case Ok((h, rest)) => r == Ok(h) && b.Rest() == rest
  {
    hide ParseCid, ParseExtra;
    var peek := b.PeekU8();
    var _ :- b.GetU(1);
    hide TakeU, TakeBytes;
    var first := peek.value;
    if first / 128 == 0 {
      var dcid :- b.GetBytes(dcidLen);
      return Ok(Header(Short, 0, dcid, [], 0, 0, None, None, false));
    }
    var version :- b.GetU(4);
    var ty := LongType(first, version);
    var dcid :- GetCid(b, version);
    var scid :- GetCid(b, version);
    var extra :- GetExtra(b, ty);
    r := Ok(Header(ty, version, dcid, scid, 0, 0, extra.0, extra.1, false));
  }
}
