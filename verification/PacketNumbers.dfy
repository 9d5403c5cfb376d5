/** Packet number lengths, truncation and recovery: quiche/src/packet.rs and section 17.1 and
    appendix A of RFC 9000. */
module PacketNumbers {
  import opened Octets

  // ---------- How many bytes to send ----------

  /** The number of bits of `n` without leading zeros. */
  function BitLength(n: nat): nat {
    if n == 0 then 0 else 1 + BitLength(n / 2)
  }

  function Pow2(n: nat): (p: nat)
    ensures p > 0
  {
    if n == 0 then 1 else 2 * Pow2(n - 1)
  }

  function NumUnacked(pn: nat, largestAcked: nat): nat {
    (if pn >= largestAcked then pn - largestAcked else 0) + 1
  }

  function PktNumLen(pn: nat, largestAcked: nat): nat {
    (BitLength(NumUnacked(pn, largestAcked)) + 7) / 8
  }

  lemma {:induction false} BitLengthBounds(n: nat)
    ensures n < Pow2(BitLength(n))
    ensures n > 0 ==> BitLength(n) > 0 && Pow2(BitLength(n) - 1) <= n
  {
    if n > 0 {
      BitLengthBounds(n / 2);
    }
  }

  lemma {:induction false} Pow2Monotone(a: nat, b: nat)
    requires a <= b
    ensures Pow2(a) <= Pow2(b)
    decreases b
  {
    if a < b {
      Pow2Monotone(a, b - 1);
    }
  }

  lemma {:induction false} Pow256IsPow2(k: nat)
    ensures Pow256(k) == Pow2(8 * k)
  {
    if k > 0 {
      Pow256IsPow2(k - 1);
      EightDoublings(8 * k - 8);
    }
  }

  lemma EightDoublings(n: nat)
    ensures Pow2(n + 8) == 256 * Pow2(n)
  {
    assert Pow2(n + 2) == 4 * Pow2(n);
    assert Pow2(n + 4) == 4 * Pow2(n + 2);
    assert Pow2(n + 6) == 4 * Pow2(n + 4);
    assert Pow2(n + 8) == 4 * Pow2(n + 6);
  }

  /** The chosen length is the least number of bytes that can count the packets that are not
      acknowledged yet. */
  lemma PktNumLenIsLeast(pn: nat, largestAcked: nat, k: nat)
    ensures (if pn >= largestAcked then pn - largestAcked + 1 else 1) < Pow256(k) <==> PktNumLen(pn, largestAcked) <= k
  {
    var n := NumUnacked(pn, largestAcked);
    var bits := BitLength(n);
    BitLengthBounds(n);
    Pow256IsPow2(k);
    if bits <= 8 * k {
      Pow2Monotone(bits, 8 * k);
    } else {
      Pow2Monotone(8 * k, bits - 1);
    }
  }

  // ---------- Recovering the full number ----------

  /** `truncated` is the `pnLen`-byte field of the packet. */
  function DecodePktNum(largest: nat, truncated: nat, pnLen: nat): nat
    requires 1 <= pnLen <= 4 && truncated < Pow256(pnLen)
  {
    DecodeIn(largest + 1, truncated, Pow256(pnLen))
  }

  /** The candidate in the window of the expected number, moved by one window if that
      brings it closer. */
  function DecodeIn(expected: nat, truncated: nat, win: nat): nat
    requires truncated < win
  {
    var candidate := expected - expected % win + truncated;
    if candidate + win / 2 <= expected && candidate < TWO_62 - win then candidate + win
    else if candidate > expected + win / 2 && candidate >= win then candidate - win
    else candidate
  }

  lemma Windows()
    ensures Pow256(1) == 0x100 && Pow256(2) == 0x1_0000 && Pow256(3) == 0x100_0000 && Pow256(4) == 0x1_0000_0000
  {
    assert Pow256(0) == 1;
  }

  /** Decoding only ever changes the bits that were not sent. */
  lemma DecodeIsCongruent(largest: nat, truncated: nat, pnLen: nat)
    requires 1 <= pnLen <= 4 && truncated < Pow256(pnLen)
    ensures DecodePktNum(largest, truncated, pnLen) % Pow256(pnLen) == truncated
  {
    hide Pow256;
    var win, expected := Pow256(pnLen), largest + 1;
    var r := DecodeIn(expected, truncated, win);
    var q := Quotient(expected, win);
    Multiples(q, win);
    var k := if r == q * win + truncated then q else if r > q * win + truncated then q + 1 else q - 1;
    if q == 0 {
      assert q * win == 0;
    }
    assert r == k * win + truncated;
    ModUnique(r, k, win, truncated);
  }

  lemma Quotient(n: nat, win: nat) returns (q: nat)
    requires win > 0
    ensures q == n / win && n - n % win == q * win
  {
    q := n / win;
    assert n == win * q + n % win;
  }

  lemma Multiples(q: nat, win: nat)
    ensures (q + 1) * win == q * win + win
    ensures q > 0 ==> (q - 1) * win == q * win - win
  {
  }

  /** The numbers that decode to themselves: those in the half window on either side of the
      expected one, and the few at the two ends of the number space where the code does
      not move the candidate. */
  ghost predicate Decodable(pn: nat, expected: nat, win: nat)
    requires win > 0
  {
    || (expected < pn + win / 2 && pn <= expected + win / 2)
    || (pn / win == expected / win && pn + win / 2 <= expected && pn >= TWO_62 - win)
    || (pn / win == expected / win && pn > expected + win / 2 && pn < win)
  }

  /** Decoding restores a truncated number exactly when it is decodable. */
  lemma DecodeInverts(pn: nat, largest: nat, pnLen: nat)
    requires 1 <= pnLen <= 4 && pn < TWO_62
    ensures DecodePktNum(largest, pn % Pow256(pnLen), pnLen) == pn <==> Decodable(pn, largest + 1, Pow256(pnLen))
  {
    hide Pow256, DecodeIn, Decodable;
    WindowIsEven(pnLen);
    var win, expected := Pow256(pnLen), largest + 1;
    var q := Quotient(expected, win);
    var p := Quotient(pn, win);
    FarApart(p, q, win);
    DecodeLinear(pn, expected, win, p, q, p * win, q * win);
  }

  lemma WindowIsEven(pnLen: nat)
    requires 1 <= pnLen
    ensures Pow256(pnLen) > 1 && Pow256(pnLen) % 2 == 0
  {
    assert Pow256(pnLen) == 2 * (128 * Pow256(pnLen - 1));
  }

  lemma FarApart(p: nat, q: nat, win: nat)
    ensures p + 1 == q ==> p * win + win == q * win
    ensures q + 1 == p ==> q * win + win == p * win
    ensures p + 1 < q ==> p * win + 2 * win <= q * win
    ensures q + 1 < p ==> q * win + 2 * win <= p * win
  {
    Multiples(p, win);
    Multiples(q, win);
    NextMultiple(p + 1, q, win);
    NextMultiple(q + 1, p, win);
  }

  /** The comparison of windows, with the multiples of the window given. */
  lemma DecodeLinear(pn: nat, expected: nat, win: nat, p: nat, q: nat, pw: nat, qw: nat)
    requires win > 1 && win % 2 == 0 && pn < TWO_62
    requires p == pn / win && q == expected / win && pn - pn % win == pw && expected - expected % win == qw
    requires p == q ==> pw == qw
    requires p + 1 == q ==> pw + win == qw
    requires q + 1 == p ==> qw + win == pw
    requires p + 1 < q ==> pw + 2 * win <= qw
    requires q + 1 < p ==> qw + 2 * win <= pw
    ensures DecodeIn(expected, pn % win, win) == pn <==> Decodable(pn, expected, win)
  {
    var t, e := pn % win, expected % win;
    assert 0 <= t < win && 0 <= e < win;
    var r := DecodeIn(expected, t, win);
    assert r == qw + t || r == qw + t + win || r == qw + t - win;
    if p == q {
    } else if p + 1 == q {
      assert pw >= 0;
    } else if q + 1 == p {
    } else if p < q {
    } else {
    }
  }

  // ---------- Sender and receiver together ----------

  /** When a number sent with the chosen length is recovered.  A number newer than all received is,
      exactly when it is in the first window or within half a window of the expected one; an older
      one, exactly when it is less than half a window behind, or at the top of the number space. */
  lemma SentNumberRecovered(pn: nat, largestAcked: nat, largestReceived: nat)
    requires pn < TWO_62 && PktNumLen(pn, largestAcked) <= 4
    ensures var k := PktNumLen(pn, largestAcked);
            && 1 <= k
            && (DecodePktNum(largestReceived, pn % Pow256(k), k) == pn <==>
                  if largestReceived < pn
                  then pn < Pow256(k) || pn <= largestReceived + 1 + Pow256(k) / 2
                  else largestReceived + 1 < pn + Pow256(k) / 2
                       || (TWO_62 - Pow256(k) <= pn && pn / Pow256(k) == (largestReceived + 1) / Pow256(k)))
  {
    var k := PktNumLen(pn, largestAcked);
    PktNumLenIsLeast(pn, largestAcked, 0);
    DecodeInverts(pn, largestReceived, k);
    Windows();
    hide Pow256;
    if largestReceived < pn {
      SmallQuotients(pn, largestReceived + 1, Pow256(k));
    }
  }

  lemma SmallQuotients(a: nat, b: nat, win: nat)
    requires win > 0 && b <= a
    ensures a < win ==> a / win == 0 && b / win == 0
  {
  }

  /** The chosen length is one bit short of the requirement of section 17.1 of RFC 9000: a
      receiver that is 200 packets behind decodes packet 1200 as packet 944. */
  lemma HalfWindowIsNotGuaranteed()
    ensures PktNumLen(1200, 1000) == 1
    ensures DecodePktNum(1000, 1200 % Pow256(1), 1) == 944
  {
    PktNumLenIsLeast(1200, 1000, 1);
    PktNumLenIsLeast(1200, 1000, 0);
    Windows();
  }
}
