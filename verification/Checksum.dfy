/** The Internet checksum in tools/tunslip.c: the end-around-carry sum (RFC 1071), the check of
    incoming packets, the incremental update of the header checksum (section 3 of RFC 1624),
    and the checksums of relayed DHCP replies. */
module Checksum {

  import opened Bytes

  const IP_P: nat := 9
  const IP_SRC: nat := 12
  const UH_SPORT: nat := 20
  const UH_SUM: nat := 26
  const TCP: nat := 6
  const UDP: nat := 17
  const ICMP: nat := 1

  // ----- Sums -----

  function Word(high: byte, low: byte): uint16 {
    high as int * 256 + low
  }

  /** The sum of the big-endian words of a text; an odd last byte is padded with zero. */
  function WordSum(p: seq<byte>): nat {
    if |p| == 0 then 0
    else if |p| == 1 then Word(p[0], 0)
    else Word(p[0], p[1]) + WordSum(p[2..])
  }

  /** The 16-bit number that stands for a sum: congruent to it modulo 65535, and zero only for
      zero. */
  function Norm(n: nat): (r: uint16)
    ensures r % 65535 == n % 65535
    ensures r == 0 <==> n == 0
  {
    if n == 0 then 0 else (n - 1) % 65535 + 1
  }

  lemma NormUnique(n: nat, r: uint16)
    requires r % 65535 == n % 65535 && (r == 0 <==> n == 0)
    ensures r == Norm(n)
  {
    if n > 0 {
      Congruent(r, Norm(n));
    }
  }

  lemma Congruent(a: int, b: int)
    requires 0 < a <= 65535 && 0 < b <= 65535 && a % 65535 == b % 65535
    ensures a == b
  {
  }

  /** One addition with end-around carry, as ip4sum does it on 16-bit numbers. */
  function AddCarry(sum: uint16, t: uint16): (r: uint16)
    ensures r % 65535 == (sum as int + t) % 65535
    ensures r == 0 <==> sum == 0 && t == 0
  {
    var s := (sum as int + t) % 0x1_0000;
    if s < t then s + 1 else s
  }

  lemma AddNorm(n: nat, t: uint16)
    ensures AddCarry(Norm(n), t) == Norm(n + t)
  {
    AddMod(Norm(n), n, t);
    NormUnique(n + t, AddCarry(Norm(n), t));
  }

  lemma AddMod(a: int, b: int, t: int)
    requires a % 65535 == b % 65535
    ensures (a + t) % 65535 == (b + t) % 65535
  {
    var k := (a - b) / 65535;
    assert a == b + 65535 * k;
    assert a + t == (b + t) + 65535 * k;
  }

  /** The sum of two texts is the sum of the whole if the first has even length. */
  lemma {:induction false} WordSumSplit(a: seq<byte>, b: seq<byte>)
    requires |a| % 2 == 0
    ensures WordSum(a + b) == WordSum(a) + WordSum(b)
    decreases |a|
  {
    if a == [] {
      assert a + b == b;
    } else {
      assert (a + b)[2..] == a[2..] + b;
      WordSumSplit(a[2..], b);
    }
  }

  /** ip4sum */
  method Ip4Sum(seed: uint16, p: seq<byte>) returns (sum: uint16)
    requires |p| <= 0xFFFF
    ensures sum == Norm(seed + WordSum(p))
  {
    hide Norm, AddCarry, Word, WordSum;
    sum := seed;
    var i := 0;
    NormSmall(seed);
    assert p[..0] == [];
    while i + 1 < |p|
      invariant i <= |p| && i % 2 == 0
      invariant sum == Norm(seed + WordSum(p[..i]))
    {
      var t := Word(p[i], p[i + 1]);
      SumMore(p, i, 2);
      AddNorm(seed + WordSum(p[..i]), t);
      sum := AddCarry(sum, t);
      i := i + 2;
    }
    if i < |p| {
      var t := Word(p[i], 0);
      SumMore(p, i, 1);
      AddNorm(seed + WordSum(p[..i]), t);
      sum := AddCarry(sum, t);
      i := i + 1;
    }
    assert p[..i] == p;
  }

  lemma NormSmall(seed: uint16)
    ensures Norm(seed) == seed && Norm(seed + WordSum([])) == seed
  {
  }

  lemma SumMore(p: seq<byte>, i: nat, n: nat)
    requires i % 2 == 0 && 1 <= n <= 2 && i + n <= |p|
    ensures WordSum(p[..i + n]) == WordSum(p[..i]) + (if n == 2 then Word(p[i], p[i + 1]) else Word(p[i], 0))
  {
    assert p[..i + n] == p[..i] + p[i..i + n];
    WordSumSplit(p[..i], p[i..i + n]);
    assert p[i..i + n][n..] == [];
  }

  /** The sum is zero only when everything is zero. */
  lemma {:induction false} SumZero(seed: uint16, p: seq<byte>)
    ensures Norm(seed + WordSum(p)) == 0 <==> seed == 0 && forall i :: 0 <= i < |p| ==> p[i] == 0
    decreases |p|
  {
    if |p| > 1 {
      SumZero(seed, p[2..]);
      assert forall i :: 2 <= i < |p| ==> p[i] == p[2..][i - 2];
    }
  }

  /** Sums over an even prefix can be continued. */
  lemma SumContinues(seed: uint16, a: seq<byte>, b: seq<byte>)
    requires |a| % 2 == 0
    ensures Norm(Norm(seed + WordSum(a)) + WordSum(b)) == Norm(seed + WordSum(a + b))
  {
    WordSumSplit(a, b);
    var n := seed + WordSum(a);
    AddMod(Norm(n), n, WordSum(b));
    NormUnique(n + WordSum(b), Norm(Norm(n) + WordSum(b)));
  }

  // ----- Checking a packet -----

  /** A sum that check_ip accepts: 0xffff or 0. */
  predicate Accepted(n: nat) {
    n % 65535 == 0
  }

  lemma AcceptedSums(n: nat)
    ensures Accepted(n) <==> Norm(n) == 0xFFFF || Norm(n) == 0
  {
    if Accepted(n) && n > 0 {
      Congruent(Norm(n), 65535);
    }
  }

  /** A packet of `len` bytes at the start of a buffer.  The original relies on the header
      length not being larger than the packet. */
  predicate Sane(buf: seq<byte>, len: nat) {
    60 <= |buf| && len <= |buf| && len < 0x1_0000 && HeaderLength(buf) <= len
  }

  function Version(vhl: byte): nat {
    vhl / 16
  }

  function HeaderLength(buf: seq<byte>): (h: nat)
    requires |buf| > 0
    ensures h <= 60 && h % 4 == 0
  {
    4 * (buf[0] % 16)
  }

  /** Protocol and length of the pseudo header; their sum is a 16-bit number. */
  function Seed(protocol: nat, len: nat): uint16 {
    (protocol + len) % 0x1_0000
  }

  /** The sum of the pseudo header and of what follows the IP header. */
  function TransportSum(buf: seq<byte>, len: nat): nat
    requires Sane(buf, len)
  {
    var hl := HeaderLength(buf);
    Seed(buf[IP_P], len - hl) + WordSum(buf[IP_SRC..UH_SPORT]) + WordSum(buf[hl..len])
  }

  /** check_ip: zero, or which check fails first. */
  function CheckIp(buf: seq<byte>, len: nat): (code: int)
    requires Sane(buf, len)
  {
    var hl := HeaderLength(buf);
    var total := Word(buf[2], buf[3]);
    if Version(buf[0]) != 4 then -1
    else if total > len then -2
    else if total < len then -3
    else if !Accepted(WordSum(buf[..hl])) then -4
    else if buf[IP_P] == TCP && !Accepted(TransportSum(buf, len)) then -5
    else if buf[IP_P] == UDP && !Accepted(TransportSum(buf, len)) && (buf[UH_SUM], buf[UH_SUM + 1]) != (0, 0) then -6
    else if buf[IP_P] == ICMP && !Accepted(WordSum(buf[hl..len])) then -7
    else 0
  }

  // ----- What the checks mean -----

  /** What the sum of some bytes is: that of the first byte of each pair times 256, and of the
      second. */
  lemma WordSumAdds(a: seq<byte>, high: byte, low: byte)
    requires |a| % 2 == 0
    ensures WordSum(a + [high, low]) == WordSum(a) + 256 * high + low
    ensures WordSum(a + [high]) == WordSum(a) + 256 * high && WordSum([]) == 0
  {
    WordSumSplit(a, [high, low]);
    WordSumSplit(a, [high]);
    assert [high, low][2..] == [];
    assert WordSum([high, low][2..]) == 0;
  }

  /** The pseudo header of RFC 768 and of section 3.1 of RFC 793. */
  function PseudoHeader(buf: seq<byte>, len: nat): seq<byte>
    requires Sane(buf, len)
  {
    var n := len - 4 * (buf[0] % 16);
    buf[12..20] + [0, buf[9]] + [n / 256, n % 256]
  }

  /** The transport sum is that of the pseudo header and the segment, unless protocol and
      length together do not fit into 16 bits, in which case it is one word's wrap short. */
  lemma TransportSumIs(buf: seq<byte>, len: nat)
    requires Sane(buf, len)
    ensures var hl := 4 * (buf[0] % 16);
      var whole := WordSum(PseudoHeader(buf, len) + buf[hl..len]);
      TransportSum(buf, len) == if buf[9] as int + len - hl < 0x1_0000 then whole else whole - 0x1_0000
  {
    var hl := 4 * (buf[0] % 16);
    PseudoSum(buf[12..20], buf[9], len - hl);
    WordSumSplit(PseudoHeader(buf, len), buf[hl..len]);
    hide WordSum, Word;
  }

  lemma PseudoSum(addresses: seq<byte>, protocol: byte, n: nat)
    requires |addresses| % 2 == 0 && n < 0x1_0000
    ensures WordSum(addresses + [0, protocol] + [n / 256, n % 256]) == WordSum(addresses) + protocol + n
  {
    hide *;
    var a, b := n / 256, n % 256;
    assert n == 256 * a + b;
    WordSumAdds(addresses, 0, protocol);
    WordSumAdds(addresses + [0, protocol], a, b);
  }

  /** The checksum of a segment, over its pseudo header, is right; where protocol and length
      do not fit into 16 bits, the check looks for the sum one instead of zero. */
  predicate SegmentSums(buf: seq<byte>, len: nat)
    requires Sane(buf, len)
  {
    var hl := 4 * (buf[0] % 16);
    WordSum(PseudoHeader(buf, len) + buf[hl..len]) % 65535 == if buf[9] as int + len - hl < 0x1_0000 then 0 else 1
  }

  lemma SegmentAccepted(buf: seq<byte>, len: nat)
    requires Sane(buf, len)
    ensures Accepted(TransportSum(buf, len)) <==> SegmentSums(buf, len)
  {
    TransportSumIs(buf, len);
    var hl := 4 * (buf[0] % 16);
    OneLess(WordSum(PseudoHeader(buf, len) + buf[hl..len]));
    hide WordSum, TransportSum, PseudoHeader;
  }

  lemma OneLess(n: int)
    ensures (n - 0x1_0000) % 65535 == 0 <==> n % 65535 == 1
  {
  }

  /** The sum of some bytes is zero in one's complement. */
  predicate Sums(s: seq<byte>) {
    WordSum(s) % 65535 == 0
  }

  /** The checks in their order, over the bytes of the packet: the version, the length that
      the header gives, the header's sum, and the sum of the segment, where a UDP datagram
      without a checksum passes. */
  lemma CheckMeans(buf: seq<byte>, len: nat)
    requires Sane(buf, len)
    ensures var hl, total, code := 4 * (buf[0] % 16), 256 * buf[2] as int + buf[3] as int, CheckIp(buf, len);
      var fits := buf[0] / 16 == 4 && total == len;
      && (code == 0 <==>
            && fits && Sums(buf[..hl])
            && (buf[9] == 6 ==> SegmentSums(buf, len))
            && (buf[9] == 17 ==> SegmentSums(buf, len) || (buf[26] == 0 && buf[27] == 0))
            && (buf[9] == 1 ==> Sums(buf[hl..len])))
      && (code == -1 <==> buf[0] / 16 != 4)
      && (code == -2 <==> buf[0] / 16 == 4 && total > len)
      && (code == -3 <==> buf[0] / 16 == 4 && total < len)
      && (code == -4 <==> fits && !Sums(buf[..hl]))
      && (code == -5 <==> fits && Sums(buf[..hl]) && buf[9] == 6 && !SegmentSums(buf, len))
      && (code == -6 <==> fits && Sums(buf[..hl]) && buf[9] == 17 && !SegmentSums(buf, len) && (buf[26] != 0 || buf[27] != 0))
      && (code == -7 <==> fits && Sums(buf[..hl]) && buf[9] == 1 && !Sums(buf[hl..len]))
  {
    SegmentAccepted(buf, len);
    hide WordSum, TransportSum, SegmentSums;
  }

  /** check_ip */
  method CheckPacket(buf: array<byte>, len: nat) returns (code: int)
    requires Sane(buf[..], len)
    ensures code == CheckIp(buf[..], len)
  {
    hide Accepted, WordSum, Norm;
    var b := buf[..];
    if Version(buf[0]) != 4 {
      return -1;
    }
    if Word(buf[2], buf[3]) > len {
      return -2;
    }
    if Word(buf[2], buf[3]) < len {
      return -3;
    }
    var hl := 4 * (buf[0] % 16);
    var sum := Ip4Sum(0, b[..hl]);
    AcceptedSums(WordSum(b[..hl]));
    if sum != 0xFFFF && sum != 0 {
      return -4;
    }
    if buf[IP_P] == TCP || buf[IP_P] == UDP {
      sum := TransportCheck(b, len, hl);
      AcceptedSums(TransportSum(b, len));
      if sum != 0xFFFF && sum != 0 {
        if buf[IP_P] == TCP {
          return -5;
        } else if (buf[UH_SUM], buf[UH_SUM + 1]) != (0, 0) {
          return -6;
        }
      }
    } else if buf[IP_P] == ICMP {
      sum := Ip4Sum(0, b[hl..len]);
      AcceptedSums(WordSum(b[hl..len]));
      if sum != 0xFFFF && sum != 0 {
        return -7;
      }
    }
    code := 0;
  }

  method TransportCheck(b: seq<byte>, len: nat, hl: nat) returns (sum: uint16)
    requires Sane(b, len) && hl == HeaderLength(b)
    ensures sum == Norm(TransportSum(b, len))
  {
    var seed := Seed(b[IP_P], len - hl);
    sum := Ip4Sum(seed, b[IP_SRC..UH_SPORT]);
    sum := Ip4Sum(sum, b[hl..len]);
    var n := seed + WordSum(b[IP_SRC..UH_SPORT]);
    AddMod(Norm(n), n, WordSum(b[hl..len]));
    NormUnique(n + WordSum(b[hl..len]), sum);
  }

  // ----- Byte order -----

  /** The number that a host reads from two bytes, and the bytes that it stores. */
  function Load(big: bool, first: byte, second: byte): uint16 {
    if big then Word(first, second) else Word(second, first)
  }

  function Swapped(x: uint16): (r: uint16)
    ensures r % 65535 == 256 * x % 65535
  {
    assert 256 * x == 65535 * (x / 256) + (x % 256 * 256 + x / 256);
    ModMultiple(x % 256 * 256 + x / 256, x / 256);
    x % 256 * 256 + x / 256
  }

  lemma ModMultiple(a: int, k: int)
    ensures (a + 65535 * k) % 65535 == a % 65535
  {
  }

  function High(x: uint16): byte {
    x / 256
  }

  function Low(x: uint16): byte {
    x % 256
  }

  /** The network-order word of a number in a host's memory. */
  function Network(big: bool, x: uint16): uint16 {
    if big then x else Swapped(x)
  }

  function Negated(x: uint16): uint16 {
    0xFFFF - x
  }

  predicate Congruous(a: int, b: int) {
    a % 65535 == b % 65535
  }

  /** Storing a new identification and adding its complement to the checksum, in the host's
      order, changes the sum of the header by a multiple of 65535, whatever that order is. */
  lemma UpdateBalances(big: bool, sum: uint16, id: uint16)
    ensures Congruous(Network(big, AddCarry(sum, Negated(id))) + Network(big, id), Network(big, sum))
  {
    hide Network, AddCarry;
    var m := if big then 1 else 256;
    var sum' := AddCarry(sum, Negated(id));
    Scaled(big, sum');
    Scaled(big, id);
    Scaled(big, sum);
    var k := (sum as int + Negated(id) - sum') / 65535;
    assert sum as int + 65535 - id - sum' == 65535 * k;
    Multiples(m, sum, sum', id, k);
    ModMultiple(m * sum' + m * id, m * (k - 1));
    AddMod(Network(big, sum'), m * sum', Network(big, id));
    AddMod(Network(big, id), m * id, m * sum');
  }

  lemma Multiples(m: int, sum: int, sum': int, id: int, k: int)
    requires sum + 65535 - id - sum' == 65535 * k
    ensures m * sum == m * sum' + m * id + 65535 * (m * (k - 1))
  {
    assert m * sum == m * (sum' + id + 65535 * (k - 1));
  }

  lemma Scaled(big: bool, x: uint16)
    ensures Network(big, x) % 65535 == (if big then 1 else 256) * x % 65535
  {
  }

  // ----- One word of a text replaced -----

  function Replaced(p: seq<byte>, at: nat, high: byte, low: byte): (r: seq<byte>)
    requires at + 2 <= |p|
    ensures |r| == |p|
    ensures forall i :: 0 <= i < |p| ==> r[i] == if i == at then high else if i == at + 1 then low else p[i]
  {
    p[..at] + ([high, low] + p[at + 2..])
  }

  lemma ReplacedSum(p: seq<byte>, at: nat, high: byte, low: byte)
    requires at % 2 == 0 && at + 2 <= |p|
    ensures WordSum(Replaced(p, at, high, low)) == WordSum(p) - Word(p[at], p[at + 1]) + Word(high, low)
  {
    var a, b := p[..at], p[at + 2..];
    Parts(p, at);
    hide *;
    SumAround(a, p[at], p[at + 1], b);
    SumAround(a, high, low, b);
    ReplacedParts(p, at, high, low);
  }

  lemma Parts(p: seq<byte>, at: nat)
    requires at + 2 <= |p|
    ensures p == p[..at] + ([p[at], p[at + 1]] + p[at + 2..])
  {
  }

  lemma ReplacedParts(p: seq<byte>, at: nat, high: byte, low: byte)
    requires at + 2 <= |p|
    ensures Replaced(p, at, high, low) == p[..at] + ([high, low] + p[at + 2..])
  {
  }

  lemma SumAround(a: seq<byte>, high: byte, low: byte, b: seq<byte>)
    requires |a| % 2 == 0
    ensures WordSum(a + ([high, low] + b)) == WordSum(a) + Word(high, low) + WordSum(b)
  {
    WordSumSplit(a, [high, low] + b);
    assert ([high, low] + b)[2..] == b;
  }

  const IP_ID: nat := 4
  const IP_OFF: nat := 6
  const IP_SUM: nat := 10

  /** The packet with an identification filled in and the checksum adjusted. */
  function Updated(buf: seq<byte>, big: bool, id: uint16): (r: seq<byte>)
    requires |buf| >= 60
    ensures |r| == |buf|
  {
    Replaced(Replaced(buf, IP_ID, High(id), Low(id)), IP_SUM, Patch(buf, big, id).0, Patch(buf, big, id).1)
  }

  /** The bytes of the adjusted checksum. */
  function Patch(buf: seq<byte>, big: bool, id: uint16): (byte, byte)
    requires |buf| >= 60
  {
    Stored(big, AddCarry(Load(big, buf[IP_SUM], buf[IP_SUM + 1]), Negated(Load(big, High(id), Low(id)))))
  }

  function Stored(big: bool, x: uint16): (r: (byte, byte))
    ensures Load(big, r.0, r.1) == x && Word(r.0, r.1) == Network(big, x)
  {
    if big then (x / 256, x % 256) else (x % 256, x / 256)
  }

  lemma Loaded(big: bool, first: byte, second: byte)
    ensures Network(big, Load(big, first, second)) == Word(first, second)
  {
    WordParts(second, first);
  }

  lemma WordParts(high: byte, low: byte)
    ensures Word(high, low) / 256 == high && Word(high, low) % 256 == low
  {
    var h: int, l: int := high, low;
    assert (h * 256 + l) / 256 == h;
  }

  /** The incremental update keeps a packet without identification acceptable, on hosts of
      either byte order. */
  lemma UpdateKeepsCheck(buf: seq<byte>, len: nat, big: bool, id: uint16)
    requires Sane(buf, len) && CheckIp(buf, len) == 0 && HeaderLength(buf) >= 12
    requires buf[IP_ID] == 0 && buf[IP_ID + 1] == 0
    ensures Sane(Updated(buf, big, id), len) && CheckIp(Updated(buf, big, id), len) == 0
  {
    var buf', hl := Updated(buf, big, id), HeaderLength(buf);
    AcceptedHeader(buf, len);
    hide *;
    HeaderBalances(buf, hl, big, id);
    UpdatedElsewhere(buf, big, id);
    CheckSame(buf, buf', len, hl);
  }

  lemma AcceptedHeader(buf: seq<byte>, len: nat)
    requires Sane(buf, len) && CheckIp(buf, len) == 0
    ensures |buf| >= 60 && HeaderLength(buf) <= 60 && Accepted(WordSum(buf[..HeaderLength(buf)]))
  {
    hide Accepted, WordSum, TransportSum, Word, Version;
  }

  /** The check looks at the header sum and at nothing else of the fields that the update
      changes. */
  lemma CheckSame(buf: seq<byte>, buf': seq<byte>, len: nat, hl: nat)
    requires Sane(buf, len) && CheckIp(buf, len) == 0 && hl == HeaderLength(buf) && hl >= 12 && |buf'| == |buf|
    requires forall i :: 0 <= i < |buf| && i !in {IP_ID, IP_ID + 1, IP_SUM, IP_SUM + 1} ==> buf'[i] == buf[i]
    requires Accepted(WordSum(buf'[..hl]))
    ensures Sane(buf', len) && CheckIp(buf', len) == 0
  {
    assert buf'[0] == buf[0];
    assert HeaderLength(buf') == hl;
    hide Accepted, WordSum, Word, Version, HeaderLength;
    SliceUnchanged(buf, buf', IP_SRC, UH_SPORT);
    SliceUnchanged(buf, buf', hl, len);
    assert TransportSum(buf', len) == TransportSum(buf, len);
    hide TransportSum;
  }

  lemma SliceUnchanged(buf: seq<byte>, buf': seq<byte>, a: nat, b: nat)
    requires 12 <= a <= b <= |buf| == |buf'|
    requires forall i :: 0 <= i < |buf| && i !in {IP_ID, IP_ID + 1, IP_SUM, IP_SUM + 1} ==> buf'[i] == buf[i]
    ensures buf'[a..b] == buf[a..b]
  {
  }

  lemma UpdatedElsewhere(buf: seq<byte>, big: bool, id: uint16)
    requires |buf| >= 60
    ensures forall i :: 0 <= i < |buf| && i !in {IP_ID, IP_ID + 1, IP_SUM, IP_SUM + 1} ==> Updated(buf, big, id)[i] == buf[i]
  {
    hide Load, AddCarry, Stored, Negated;
  }

  lemma ReplacedTake(p: seq<byte>, at: nat, high: byte, low: byte, n: nat)
    requires at + 2 <= n <= |p|
    ensures Replaced(p, at, high, low)[..n] == Replaced(p[..n], at, high, low)
  {
  }

  lemma HeaderBalances(buf: seq<byte>, hl: nat, big: bool, id: uint16)
    requires |buf| >= 60 && 12 <= hl <= 60 && buf[4] == 0 && buf[5] == 0
    requires Accepted(WordSum(buf[..hl]))
    ensures Accepted(WordSum(Updated(buf, big, id)[..hl]))
  {
    hide *;
    var p, patch := buf[..hl], Patch(buf, big, id);
    UpdatedTake(buf, big, id, hl);
    PatchBalances(buf, big, id);
    TwoReplaced(p, High(id), Low(id), patch.0, patch.1);
    Balance(WordSum(p), Word(buf[10], buf[11]), Word(patch.0, patch.1), Word(High(id), Low(id)),
            WordSum(Replaced(Replaced(p, 4, High(id), Low(id)), 10, patch.0, patch.1)));
  }

  lemma UpdatedTake(buf: seq<byte>, big: bool, id: uint16, n: nat)
    requires |buf| >= 60 && 12 <= n <= 60
    ensures Updated(buf, big, id)[..n] == Replaced(Replaced(buf[..n], 4, High(id), Low(id)), 10, Patch(buf, big, id).0, Patch(buf, big, id).1)
  {
    hide Patch, High, Low, Replaced;
    var p0 := Replaced(buf, IP_ID, High(id), Low(id));
    ReplacedTake(buf, IP_ID, High(id), Low(id), n);
    ReplacedTake(p0, IP_SUM, Patch(buf, big, id).0, Patch(buf, big, id).1, n);
  }

  lemma PatchBalances(buf: seq<byte>, big: bool, id: uint16)
    requires |buf| >= 60
    ensures Congruous(Word(Patch(buf, big, id).0, Patch(buf, big, id).1) + Word(High(id), Low(id)), Word(buf[10], buf[11]))
  {
    var nid, sum := Load(big, High(id), Low(id)), Load(big, buf[IP_SUM], buf[IP_SUM + 1]);
    hide AddCarry, Network, Stored, Load, Word, High, Low, Negated, Congruous;
    UpdateBalances(big, sum, nid);
    Loaded(big, High(id), Low(id));
    Loaded(big, buf[IP_SUM], buf[IP_SUM + 1]);
  }

  lemma WordZero(a: byte, b: byte)
    requires a == 0 && b == 0
    ensures Word(a, b) == 0
  {
  }

  lemma TwoReplaced(p: seq<byte>, a: byte, b: byte, c: byte, d: byte)
    requires |p| >= 12 && p[4] == 0 && p[5] == 0
    ensures WordSum(Replaced(Replaced(p, 4, a, b), 10, c, d)) == WordSum(p) - Word(p[10], p[11]) + Word(c, d) + Word(a, b)
  {
    hide *;
    WordZero(p[4], p[5]);
    var q := Replaced(p, 4, a, b);
    assert q[10] == p[10] && q[11] == p[11];
    ReplacedSum(p, 4, a, b);
    ReplacedSum(q, 10, c, d);
  }

  lemma Balance(w: nat, c: nat, c': nat, v: nat, w': nat)
    requires Accepted(w) && Congruous(c' + v, c) && w' == w - c + c' + v
    ensures Accepted(w')
  {
    var k := (c' + v - c) / 65535;
    assert c' + v - c == 65535 * k;
    ModMultiple(w, k);
  }

  /** The part of tunslip that keeps the identification counter. */
  class Tunslip {
    const big: bool      // the byte order of the host
    var ipId: uint16

    constructor (big: bool, ipId: uint16)
      ensures this.big == big && this.ipId == ipId
    {
      this.big, this.ipId := big, ipId;
    }

    /** The start of write_to_serial: packets that fail the check are dropped, and packets
        without an identification get one; that never makes them fail.  The flag that forbids
        fragmentation is tested in the host's byte order. */
    method Prepare(buf: array<byte>, len: nat) returns (sent: bool)
      requires Sane(buf[..], len)
      modifies this`ipId, buf
      ensures old(CheckIp(buf[..], len)) != 0 ==> !sent && buf[..] == old(buf[..])
      ensures old(CheckIp(buf[..], len)) == 0 && old(HeaderLength(buf[..])) >= 12 ==>
        && sent
        && buf[..] == (if old(Unidentified(buf[..], big)) then Updated(old(buf[..]), big, old(ipId)) else old(buf[..]))
        && CheckIp(buf[..], len) == 0
      ensures ipId == old(ipId) || ipId == (old(ipId) as int + 1) % 0x1_0000
    {
      ghost var was := buf[..];
      var code := CheckPacket(buf, len);
      if code < 0 {
        return false;
      }
      CheckCodes(was, len);
      if Unidentified(buf[..], big) {
        if HeaderLength(was) >= 12 {
          UpdateKeepsCheck(was, len, big, ipId);
        }
        hide CheckIp;
        WriteId(buf);
        code := CheckPacket(buf, len);
        if code < 0 {
          return false;
        }
      }
      sent := true;
    }

    /** The incremental rewrite. */
    method WriteId(buf: array<byte>)
      requires buf.Length >= 60
      modifies this`ipId, buf
      ensures buf[..] == Updated(old(buf[..]), big, old(ipId)) && ipId == (old(ipId) as int + 1) % 0x1_0000
      ensures HeaderLength(buf[..]) == HeaderLength(old(buf[..]))
    {
      ghost var was := buf[..];
      var nid := Load(big, High(ipId), Low(ipId));
      buf[IP_ID], buf[IP_ID + 1] := High(ipId), Low(ipId);
      hide Load, Stored, AddCarry, Negated;
      nid := Negated(nid);
      var sum := AddCarry(Load(big, buf[IP_SUM], buf[IP_SUM + 1]), nid);
      var (first, second) := Stored(big, sum);
      buf[IP_SUM], buf[IP_SUM + 1] := first, second;
      ipId := (ipId as int + 1) % 0x1_0000;
    }
  }

  predicate Unidentified(buf: seq<byte>, big: bool)
    requires |buf| >= 60
  {
    buf[IP_ID] == 0 && buf[IP_ID + 1] == 0 && Load(big, buf[IP_OFF], buf[IP_OFF + 1]) / 0x4000 % 2 == 1
  }

  /** A packet gets an identification if it has none and bit 6 of a flag byte is set, which is
      the one that forbids fragmentation (section 3.1 of RFC 791) only on a big-endian host: on
      the other hosts it is a bit of the fragment offset. */
  lemma UnidentifiedIs(buf: seq<byte>, big: bool)
    requires |buf| >= 60
    ensures Unidentified(buf, big) <==> buf[4] == 0 && buf[5] == 0 && (if big then buf[6] else buf[7]) / 64 % 2 == 1
  {
    FlagBit(buf[6], buf[7]);
    FlagBit(buf[7], buf[6]);
  }

  lemma FlagBit(high: byte, low: byte)
    ensures Word(high, low) / 0x4000 == high / 64
  {
    var h: int, l: int := high, low;
    assert h == 64 * (h / 64) + h % 64;
    assert h * 256 + l == 0x4000 * (h / 64) + (h % 64 * 256 + l);
  }

  /** The identification is written with its most significant byte first. */
  lemma UpdatedId(buf: seq<byte>, big: bool, id: uint16)
    requires |buf| >= 60
    ensures Updated(buf, big, id)[4] == id / 256 && Updated(buf, big, id)[5] == id % 256
    ensures forall i :: 0 <= i < |buf| && i !in {4, 5, 10, 11} ==> Updated(buf, big, id)[i] == buf[i]
  {
    hide Patch;
  }

  lemma CheckCodes(buf: seq<byte>, len: nat)
    requires Sane(buf, len)
    ensures CheckIp(buf, len) <= 0
  {
  }

  // ----- Relayed DHCP replies -----

  /** The packet of relay_dhcp_to_client around a DHCP message, with the two checksums given. */
  function Reply(source: seq<byte>, destination: seq<byte>, id: uint16, m: seq<byte>, ipSum: (byte, byte), udpSum: (byte, byte)): (p: seq<byte>)
    requires |source| == 4 && |destination| == 4 && 28 + |m| < 0x1_0000
    ensures |p| == 28 + |m|
  {
    IpHeader(source, destination, id, 28 + |m|, ipSum) + UdpHeader(8 + |m|, udpSum) + m
  }

  function IpHeader(source: seq<byte>, destination: seq<byte>, id: uint16, len: uint16, sum: (byte, byte)): (h: seq<byte>)
    requires |source| == 4 && |destination| == 4
    ensures |h| == 20
  {
    [0x45, 0, High(len), Low(len), High(id), Low(id), 0, 0, 64, UDP, sum.0, sum.1] + source + destination
  }

  /** From port 67 to port 68. */
  function UdpHeader(len: uint16, sum: (byte, byte)): (h: seq<byte>)
    ensures |h| == 8
  {
    [0, 67, 0, 68, High(len), Low(len), sum.0, sum.1]
  }

  /** The fields of the packet: version 4, a header of 20 bytes, the lengths, a time to live of
      64, UDP, the addresses, the ports of a DHCP server and client, and the message. */
  lemma ReplyFields(source: seq<byte>, destination: seq<byte>, id: uint16, m: seq<byte>, ipSum: (byte, byte), udpSum: (byte, byte))
    requires |source| == 4 && |destination| == 4 && 28 + |m| < 0x1_0000
    ensures var p := Reply(source, destination, id, m, ipSum, udpSum);
      && p[0] / 16 == 4 && p[0] % 16 == 5 && p[8] == 64 && p[9] == 17
      && 256 * p[2] as int + p[3] as int == |p| == 28 + |m| && 256 * p[4] as int + p[5] as int == id
      && p[12..16] == source && p[16..20] == destination && p[20..24] == [0, 67, 0, 68]
      && 256 * p[24] as int + p[25] as int == 8 + |m| && (p[26], p[27]) == udpSum && p[28..] == m
  {
    var h := IpHeader(source, destination, id, 28 + |m|, ipSum);
    var u := UdpHeader(8 + |m|, udpSum);
    var p := Reply(source, destination, id, m, ipSum, udpSum);
    assert p == h + u + m;
    assert p[12..16] == h[12..16] && p[16..20] == h[16..20] && p[20..24] == u[..4];
  }

  /** The complement of a sum, in network order. */
  function Complement(sum: uint16): (r: (byte, byte))
    ensures Word(r.0, r.1) == 0xFFFF - sum
  {
    (High(0xFFFF - sum), Low(0xFFFF - sum))
  }

  lemma IpHeaderSum(source: seq<byte>, destination: seq<byte>, id: uint16, len: uint16, sum: (byte, byte))
    requires |source| == 4 && |destination| == 4
    ensures WordSum(IpHeader(source, destination, id, len, sum)) == WordSum(IpHeader(source, destination, id, len, (0, 0))) + Word(sum.0, sum.1)
  {
    var a := [0x45, 0, High(len), Low(len), High(id), Low(id), 0, 0, 64, UDP];
    hide WordSum, High, Low;
    SumAround(a, sum.0, sum.1, source + destination);
    SumAround(a, 0, 0, source + destination);
    assert IpHeader(source, destination, id, len, sum) == a + ([sum.0, sum.1] + (source + destination));
    assert IpHeader(source, destination, id, len, (0, 0)) == a + ([0, 0] + (source + destination));
    WordZero(0, 0);
  }

  lemma UdpSum(len: uint16, sum: (byte, byte), m: seq<byte>)
    ensures WordSum(UdpHeader(len, sum) + m) == WordSum(UdpHeader(len, (0, 0)) + m) + Word(sum.0, sum.1)
  {
    var a := [0, 67, 0, 68, High(len), Low(len)];
    hide WordSum, High, Low;
    SumAround(a, sum.0, sum.1, m);
    SumAround(a, 0, 0, m);
    assert UdpHeader(len, sum) + m == a + ([sum.0, sum.1] + m);
    assert UdpHeader(len, (0, 0)) + m == a + ([0, 0] + m);
    WordZero(0, 0);
  }

  lemma ComplementAccepted(n: nat, sum: uint16)
    requires sum == Norm(n)
    ensures Accepted(n + (0xFFFF - sum))
    ensures sum == 0xFFFF ==> Accepted(n + 0xFFFF)
  {
    var k := (n - sum) / 65535;
    assert n == sum + 65535 * k;
    ModMultiple(0xFFFF, k);
  }

  method ChooseIpSum(source: seq<byte>, destination: seq<byte>, id: uint16, len: uint16) returns (ipSum: (byte, byte))
    requires |source| == 4 && |destination| == 4
    ensures Accepted(WordSum(IpHeader(source, destination, id, len, ipSum)))
  {
    hide *;
    var header := IpHeader(source, destination, id, len, (0, 0));
    var sum := Ip4Sum(0, header);
    ipSum := Complement(sum);
    ComplementAccepted(WordSum(header), sum);
    IpHeaderSum(source, destination, id, len, ipSum);
  }

  /** The sum over the pseudo header, the UDP header and the message. */
  function UdpTotal(source: seq<byte>, destination: seq<byte>, m: seq<byte>, udpSum: (byte, byte)): nat
    requires 8 + |m| < 0x1_0000
  {
    Seed(UDP, 8 + |m|) + WordSum(source + destination) + WordSum(UdpHeader(8 + |m|, udpSum) + m)
  }

  /** A complement of zero would mean that there is no checksum. */
  method ChooseUdpSum(source: seq<byte>, destination: seq<byte>, m: seq<byte>) returns (udpSum: (byte, byte))
    requires |source| == 4 && |destination| == 4 && 28 + |m| < 0x1_0000
    ensures Accepted(UdpTotal(source, destination, m, udpSum)) && udpSum != (0, 0)
  {
    hide *;
    var seed := Seed(UDP, 8 + |m|);
    var body := UdpHeader(8 + |m|, (0, 0)) + m;
    UdpTotalSum(source, destination, m);
    var total := Ip4Sum(seed, source + destination);
    total := Ip4Sum(total, body);
    SumContinues(seed, source + destination, body);
    WordSumSplit(source + destination, body);
    ComplementAccepted(UdpTotal(source, destination, m, (0, 0)), total);
    if total != 0xFFFF {
      udpSum := Complement(total);
      NonzeroComplement(total, udpSum);
    } else {
      udpSum := (0xFF, 0xFF);
      AllOnes();
    }
  }

  lemma UdpTotalSum(source: seq<byte>, destination: seq<byte>, m: seq<byte>)
    requires 8 + |m| < 0x1_0000
    ensures UdpTotal(source, destination, m, (0, 0)) ==
            Seed(UDP, 8 + |m|) + WordSum(source + destination) + WordSum(UdpHeader(8 + |m|, (0, 0)) + m)
    ensures forall sum: (byte, byte) :: UdpTotal(source, destination, m, sum) == UdpTotal(source, destination, m, (0, 0)) + Word(sum.0, sum.1)
  {
    forall sum: (byte, byte)
      ensures UdpTotal(source, destination, m, sum) == UdpTotal(source, destination, m, (0, 0)) + Word(sum.0, sum.1)
    {
      hide WordSum, Word, UdpHeader, Seed;
      UdpSum(8 + |m|, sum, m);
    }
  }

  lemma NonzeroComplement(total: uint16, r: (byte, byte))
    requires total != 0xFFFF && Word(r.0, r.1) == 0xFFFF - total
    ensures r != (0, 0)
  {
  }

  lemma AllOnes()
    ensures Word(0xFF, 0xFF) == 0xFFFF
  {
  }

  /** The checksum part of relay_dhcp_to_client: the packet that it builds passes check_ip. */
  method BuildReply(source: seq<byte>, destination: seq<byte>, id: uint16, m: seq<byte>) returns (p: seq<byte>)
    requires |source| == 4 && |destination| == 4 && 44 <= |m| && 28 + |m| < 0x1_0000
    ensures exists ipSum, udpSum :: p == Reply(source, destination, id, m, ipSum, udpSum) && udpSum != (0, 0)
    ensures Sane(p, |p|) && CheckIp(p, |p|) == 0
  {
    hide *;
    var ipSum := ChooseIpSum(source, destination, id, 28 + |m|);
    var udpSum := ChooseUdpSum(source, destination, m);
    p := Reply(source, destination, id, m, ipSum, udpSum);
    ReplyPasses(source, destination, id, m, ipSum, udpSum);
  }

  lemma ReplyPasses(source: seq<byte>, destination: seq<byte>, id: uint16, m: seq<byte>, ipSum: (byte, byte), udpSum: (byte, byte))
    requires |source| == 4 && |destination| == 4 && 44 <= |m| && 28 + |m| < 0x1_0000
    requires Accepted(WordSum(IpHeader(source, destination, id, 28 + |m|, ipSum)))
    requires Accepted(UdpTotal(source, destination, m, udpSum))
    ensures var p := Reply(source, destination, id, m, ipSum, udpSum); Sane(p, |p|) && CheckIp(p, |p|) == 0
  {
    var p := Reply(source, destination, id, m, ipSum, udpSum);
    ReplyShape(source, destination, id, m, ipSum, udpSum);
    HighLow(28 + |m|);
    FirstByte(p);
    hide WordSum, Accepted, Word, Seed, Version, High, Low, Reply, IpHeader, UdpHeader, HeaderLength;
  }

  lemma HighLow(x: uint16)
    ensures Word(High(x), Low(x)) == x
  {
  }

  lemma FirstByte(p: seq<byte>)
    requires |p| > 0 && p[0] == 0x45
    ensures HeaderLength(p) == 20 && Version(p[0]) == 4
  {
  }

  lemma ReplyShape(source: seq<byte>, destination: seq<byte>, id: uint16, m: seq<byte>, ipSum: (byte, byte), udpSum: (byte, byte))
    requires |source| == 4 && |destination| == 4 && 28 + |m| < 0x1_0000
    ensures var p := Reply(source, destination, id, m, ipSum, udpSum);
      && p[..20] == IpHeader(source, destination, id, 28 + |m|, ipSum) && p[20..|p|] == UdpHeader(8 + |m|, udpSum) + m
      && p[0] == 0x45 && p[2] == High(28 + |m|) && p[3] == Low(28 + |m|) && p[IP_P] == UDP
      && p[12..20] == source + destination
  {
    hide High, Low;
    var p, header := Reply(source, destination, id, m, ipSum, udpSum), IpHeader(source, destination, id, 28 + |m|, ipSum);
    assert p == header + (UdpHeader(8 + |m|, udpSum) + m);
    assert p[12..20] == header[12..20];
  }
}
