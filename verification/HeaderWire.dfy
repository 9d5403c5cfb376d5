/** The bytes of a packet header as section 17 of RFC 9000 lays them out, position by position: what
    the encoder writes, and what the parser makes of any byte string. */
module HeaderWire {
  import opened Basics
  import opened Octets
  import opened Frames
  import opened PacketHeader

  // ---------- Written ----------

  /** The first byte of a long header: form, fixed bit and type, then the packet number length. */
  lemma LongFirstByte(h: Header)
    requires PacketHeader.Encodable(h) && !h.ty.Short?
    ensures var b := HeaderBytes(h)[0];
            && (b / 16 == 12 <==> h.ty.Initial?)
            && (b / 16 == 13 <==> h.ty.ZeroRTT?)
            && (b / 16 == 14 <==> h.ty.Handshake?)
            && (b / 16 == 15 <==> h.ty.Retry?)
            && b % 16 == if h.pktNumLen == 0 then 0 else h.pktNumLen - 1
  {
    hide TailBytes;
  }

  /** A short header: form and fixed bit, three zero bits, key phase, packet number length, and the
      connection ID without its length. */
  lemma ShortOnWire(h: Header)
    requires PacketHeader.Encodable(h) && h.ty.Short?
    ensures var s := HeaderBytes(h);
            && s[0] / 8 == 8
            && (s[0] / 4 % 2 == 1 <==> h.keyPhase)
            && s[0] % 4 == (if h.pktNumLen == 0 then 0 else h.pktNumLen - 1)
            && s[1..] == h.dcid
  {
  }

  /** After the first byte: the version in four bytes, both connection IDs with their lengths, the
      destination first, and then the token of an Initial with its length or of a Retry without. */
  lemma LongOnWire(h: Header)
    requires PacketHeader.Encodable(h) && !h.ty.Short?
    ensures var s, d, c := HeaderBytes(h), |h.dcid|, |h.scid|;
            && |s| >= 7 + d + c
            && FromBE(s[1..5]) == h.version
            && s[5] == d && s[6..6 + d] == h.dcid
            && s[6 + d] == c && s[7 + d..7 + d + c] == h.scid
            && s[7 + d + c..] == (if h.ty.Retry? then h.token.value
                                  else if !h.ty.Initial? then []
                                  else if h.token.Some? then Varint(|h.token.value|) + h.token.value
                                  else [0])
  {
    var v := ToBE(h.version, 4);
    BERoundTrip(h.version, 4);
    VersionFits(h.version);
    EmptyToken();
    LongPositions(FirstByte(h), v, h.dcid, h.scid, TokenBytes(h), HeaderBytes(h));
    hide ToBE, FromBE, FirstByte;
  }

  lemma VersionFits(v: nat)
    requires v < 0x1_0000_0000
    ensures v % Pow256(4) == v
  {
    assert Pow256(2) == 256 * 256;
    assert Pow256(4) == 256 * 256 * Pow256(2);
  }

  lemma EmptyToken()
    ensures Varint(0) == [0]
  {
    assert ToBE(0, 1) == ToBE(0, 0) + [0];
  }

  lemma LongPositions(first: byte, v: seq<byte>, dcid: seq<byte>, scid: seq<byte>, extra: seq<byte>, s: seq<byte>)
    requires |v| == 4 && |dcid| <= 255 && |scid| <= 255
    requires s == [first] + (v + ([|dcid|] + (dcid + ([|scid|] + (scid + extra)))))
    ensures var d, c := |dcid|, |scid|;
            && |s| >= 7 + d + c && s[1..5] == v && s[5] == d && s[6..6 + d] == dcid
            && s[6 + d] == c && s[7 + d..7 + d + c] == scid && s[7 + d + c..] == extra
  {
  }

  // ---------- Parsed ----------

  /** A byte string with a clear form bit is a short header with a connection ID of known length. */
  lemma ShortParsed(s: seq<byte>, dcidLen: nat)
    requires s != [] && s[0] / 128 == 0
    ensures if |s| - 1 < dcidLen then ParseHeader(s, dcidLen) == Err(BufferTooShort)
            else ParseHeader(s, dcidLen)
                 == Ok((Header(Short, 0, s[1..1 + dcidLen], [], 0, 0, None, None, false), s[1 + dcidLen..]))
  {
    if |s| - 1 >= dcidLen {
      assert s[1..][..dcidLen] == s[1..1 + dcidLen] && s[1..][dcidLen..] == s[1 + dcidLen..];
    }
  }

  /** The type of every accepted long header, by its first byte and its version. */
  lemma LongTypeParsed(s: seq<byte>, dcidLen: nat)
    requires s != [] && s[0] / 128 == 1 && ParseHeader(s, dcidLen).Ok?
    ensures |s| >= 5
    ensures var h, version := ParseHeader(s, dcidLen).value.0, FromBE(s[1..5]);
            && h.version == version
            && (h.ty.VersionNegotiation? <==> version == 0)
            && (h.ty.Initial? <==> version != 0 && s[0] / 16 % 4 == 0)
            && (h.ty.ZeroRTT? <==> version != 0 && s[0] / 16 % 4 == 1)
            && (h.ty.Handshake? <==> version != 0 && s[0] / 16 % 4 == 2)
            && (h.ty.Retry? <==> version != 0 && s[0] / 16 % 4 == 3)
  {
    hide ParseHeader, ParseExtra, ParseCid, FromBE;
    var version, dcid, s2, scid, s3, h, rest := LongSteps(s, dcidLen);
  }

  /** The steps of the parser on a long header. */
  lemma LongSteps(s: seq<byte>, dcidLen: nat) returns (version: nat, dcid: seq<byte>, s2: seq<byte>,
                                                      scid: seq<byte>, s3: seq<byte>, h: Header, rest: seq<byte>)
    requires s != [] && s[0] / 128 == 1 && ParseHeader(s, dcidLen).Ok?
    ensures |s| >= 5 && version == FromBE(s[1..5])
    ensures ParseCid(s[5..], version) == Ok((dcid, s2)) && ParseCid(s2, version) == Ok((scid, s3))
    ensures ParseHeader(s, dcidLen) == Ok((h, rest)) && ParseExtra(h.ty, s3) == Ok((h.token, h.versions, rest))
    ensures h == Header(LongType(s[0], version), version, dcid, scid, 0, 0, h.token, h.versions, false)
  {
    hide ParseExtra, ParseCid, LongType, FromBE;
    assert s[1..][..4] == s[1..5] && s[1..][4..] == s[5..];
    version := FromBE(s[1..5]);
    dcid, s2 := ParseCid(s[5..], version).value.0, ParseCid(s[5..], version).value.1;
    scid, s3 := ParseCid(s2, version).value.0, ParseCid(s2, version).value.1;
    h, rest := ParseHeader(s, dcidLen).value.0, ParseHeader(s, dcidLen).value.1;
    var extra := ParseExtra(LongType(s[0], version), s3);
    assert extra.value == (extra.value.0, extra.value.1, extra.value.2);
  }

  /** One connection ID: its length, no more than 20 in version 1, and that many bytes. */
  lemma CidParsed(s: seq<byte>, version: nat)
    ensures ParseCid(s, version).Ok? <==> s != [] && 1 + s[0] <= |s| && (version == 1 ==> s[0] <= 20)
    ensures ParseCid(s, version).Ok? ==> ParseCid(s, version) == Ok((s[1..1 + s[0]], s[1 + s[0]..]))
    ensures s != [] && version == 1 && s[0] > 20 ==> ParseCid(s, version) == Err(InvalidPacket)
  {
    if s != [] {
      OneByte(s[..1]);
      if 1 + s[0] <= |s| {
        assert s[1..][..s[0]] == s[1..1 + s[0]] && s[1..][s[0]..] == s[1 + s[0]..];
      }
    }
  }

  lemma OneByte(s: seq<byte>)
    requires |s| == 1
    ensures FromBE(s) == s[0]
  {
    assert s[..0] == [];
    assert FromBE(s) == FromBE([]) * 256 + s[0];
  }

  /** The connection IDs of every accepted long header, and what is left for the rest. */
  lemma LongCidsParsed(s: seq<byte>, dcidLen: nat) returns (d: nat, c: nat)
    requires s != [] && s[0] / 128 == 1 && ParseHeader(s, dcidLen).Ok?
    ensures |s| >= 7 + d + c && s[5] == d && s[6 + d] == c
    ensures FromBE(s[1..5]) == 1 ==> d <= 20 && c <= 20
    ensures var (h, rest) := ParseHeader(s, dcidLen).value;
            && h.dcid == s[6..6 + d] && h.scid == s[7 + d..7 + d + c]
            && ParseExtra(h.ty, s[7 + d + c..]) == Ok((h.token, h.versions, rest))
  {
    hide ParseHeader, ParseExtra, ParseCid, LongType, FromBE;
    var version, dcid, s2, scid, s3, h, rest := LongSteps(s, dcidLen);
    d := TakenCid(s, 5, version);
    c := TakenCid(s, 6 + d, version);
  }

  lemma TakenCid(s: seq<byte>, at: nat, version: nat) returns (n: nat)
    requires at <= |s| && ParseCid(s[at..], version).Ok?
    ensures at + 1 + n <= |s| && s[at] == n && (version == 1 ==> n <= 20)
    ensures ParseCid(s[at..], version) == Ok((s[at + 1..at + 1 + n], s[at + 1 + n..]))
  {
    CidParsed(s[at..], version);
    hide ParseCid;
    var t := s[at..];
    n := t[0];
    assert t[1..1 + n] == s[at + 1..at + 1 + n] && t[1 + n..] == s[at + 1 + n..];
  }

  /** What follows the connection IDs: an Initial has a token with its length, a Retry a token up to
      the last 16 bytes, Version Negotiation a list of versions, and the others nothing. */
  lemma ExtraParsed(ty: PacketType, s: seq<byte>)
    requires ParseExtra(ty, s).Ok?
    ensures var (token, versions, rest) := ParseExtra(ty, s).value;
            && (ty.ZeroRTT? || ty.Handshake? ==> token.None? && versions.None? && rest == s)
            && (ty.Retry? ==> versions.None? && |rest| == 16 && token.Some? && s == token.value + rest)
            && (ty.Initial? ==> versions.None? && token.Some? && TakeVarBytes(s) == Ok((token.value, rest)))
            && (ty.VersionNegotiation? ==> token.None? && versions.Some? && rest == []
                                           && |s| == 4 * |versions.value|
                                           && forall i :: 0 <= i < |versions.value| ==>
                                                versions.value[i] == FromBE(s[4 * i..4 * i + 4]))
  {
    if ty.VersionNegotiation? {
      VersionsParsed(s);
    }
  }

  lemma {:induction false} VersionsParsed(s: seq<byte>)
    requires ParseVersions(s).Ok?
    ensures var (versions, rest) := ParseVersions(s).value;
            && rest == [] && |s| == 4 * |versions|
            && forall i :: 0 <= i < |versions| ==> versions[i] == FromBE(s[4 * i..4 * i + 4])
    decreases |s|
  {
    hide FromBE;
    if s != [] {
      var tail := s[4..];
      VersionsParsed(tail);
      var more := ParseVersions(tail).value.0;
      var all := ParseVersions(s).value.0;
      assert all == [FromBE(s[..4])] + more;
      forall i | 0 <= i < |all| ensures all[i] == FromBE(s[4 * i..4 * i + 4]) {
        if i == 0 {
          assert s[0..4] == s[..4];
        } else {
          assert tail[4 * (i - 1)..4 * (i - 1) + 4] == s[4 * i..4 * i + 4];
        }
      }
    }
  }

  /** Which headers are read back: any version but zero, and in version 1 connection IDs of at most
      20 bytes. */
  lemma ParseableIff(h: Header)
    requires PacketHeader.Encodable(h)
    ensures Parseable(h) <==>
              h.ty.Short? || (h.version != 0 && (h.version == 1 ==> |h.dcid| <= 20 && |h.scid| <= 20))
  {
  }

  /** Only the types with a packet number, and Retry, are written: Version Negotiation packets have
      a writer of their own. */
  lemma TypesAgree(h: Header, dcidLen: nat, rest: seq<byte>)
    requires Parseable(h) && !h.ty.Short? && ParseHeader(HeaderBytes(h) + rest, dcidLen).Ok?
    ensures ParseHeader(HeaderBytes(h) + rest, dcidLen).value.0.ty == h.ty
  {
    hide ParseHeader, HeaderBytes, FromBE;
    var s := HeaderBytes(h) + rest;
    LongFirstByte(h);
    LongOnWire(h);
    assert s[0] == HeaderBytes(h)[0] && s[1..5] == HeaderBytes(h)[1..5];
    LongTypeParsed(s, dcidLen);
  }
}
