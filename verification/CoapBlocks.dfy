/** Block options of CoAP (section 2.2 of RFC 7959) as Erbium encodes and decodes them. */
module CoapBlocks {

  import opened Bytes

  const TWO32: nat := 0x1_0000_0000

  datatype Block = Block(num: uint32, more: bool, size: uint16, offset: uint32)

  /** The position of the highest bit. */
  function Log2(v: nat): (e: nat)
    ensures v > 0 ==> Pow2(e) <= v < 2 * Pow2(e)
  {
    if v < 2 then 0 else 1 + Log2(v / 2)
  }

  lemma {:induction false} Log2Pow2(e: nat)
    ensures Log2(Pow2(e)) == e
  {
    if e > 0 {
      Log2Pow2(e - 1);
    }
  }

  lemma {:induction false} Pow2Below(e: nat, d: nat)
    requires Pow2(e) < Pow2(d)
    ensures e < d
  {
    if e > 0 && d > 0 {
      Pow2Below(e - 1, d - 1);
    }
  }

  lemma {:induction false} Pow2AtMost(e: nat, d: nat)
    requires e <= d
    ensures Pow2(e) <= Pow2(d)
  {
    if e > 0 {
      Pow2AtMost(e - 1, d - 1);
    }
  }

  /** coap_log_2 */
  method FindLog2(v: uint16) returns (result: nat)
    ensures result == Log2(v)
  {
    var value: nat := v / 2;
    result := 1;
    while value > 0
      invariant Log2(v) == result - 1 + (if value == 0 then 0 else 1 + Log2(value))
    {
      value, result := value / 2, result + 1;
    }
    result := result - 1;
  }

  /** The value of a block option, as COAP_SERIALIZE_BLOCK_OPTION computes it: the number
      shifted by four bits, modulo 2^32, the more flag, and four bits of exponent. */
  function BlockValue(b: Block): uint32 {
    var e := Log2(b.size / 16);
    b.num as int * 16 % TWO32 + (if b.more || e / 8 % 2 == 1 then 8 else 0) + e % 8
  }

  /** The bits of a block option: the number, its top four bits lost, above the more flag and
      three bits of the exponent, whose fourth bit falls together with the flag. */
  lemma BlockBits(b: Block)
    ensures var v, e := BlockValue(b), Log2(b.size / 16);
      && v / 16 == b.num as int % 0x1000_0000 && v % 8 == e % 8
      && (v / 8 % 2 == 1 <==> b.more || e / 8 % 2 == 1)
  {
    var flag := if b.more || Log2(b.size / 16) / 8 % 2 == 1 then 1 else 0;
    SumIs(b, flag);
    hide *;
    Fields(b.num as int % 0x1000_0000, flag, Log2(b.size / 16) % 8);
  }

  lemma SumIs(b: Block, flag: nat)
    requires flag == if b.more || Log2(b.size / 16) / 8 % 2 == 1 then 1 else 0
    ensures BlockValue(b) == b.num as int % 0x1000_0000 * 16 + 8 * flag + Log2(b.size / 16) % 8
  {
    hide Log2;
    Shifted(b.num);
  }

  lemma Shifted(n: nat)
    ensures n * 16 % TWO32 == 16 * (n % 0x1000_0000)
  {
    var q, r := n / 0x1000_0000, n % 0x1000_0000;
    assert n * 16 == TWO32 * q + 16 * r;
  }

  /** What coap_parse_message makes of a block option. */
  function BlockOf(v: uint32): Block {
    ExponentBound(v % 8);
    Block(v / 16, v / 8 % 2 == 1, 16 * Pow2(v % 8), (v as int - v % 16) * Pow2(v % 8) % TWO32)
  }

  lemma ExponentBound(e: nat)
    requires e <= 7
    ensures Pow2(e) <= 128
  {
    Pow2AtMost(e, 7);
    assert Pow2(7) == 128;
  }

  /** A decoded block starts at its number times its size. */
  lemma DecodedOffset(v: uint32)
    ensures BlockOf(v).offset == BlockOf(v).num * BlockOf(v).size % TWO32
    ensures BlockOf(v).num <= 0xF_FFFF ==> BlockOf(v).offset == BlockOf(v).num * BlockOf(v).size
  {
    ExponentBound(v % 8);
    var n, p: nat := v / 16, Pow2(v % 8);
    assert (v as int - v % 16) * p == n * (16 * p);
    if n <= 0xF_FFFF {
      assert n * (16 * p) <= 0xF_FFFF * 2048 by {
        ProductBound(n, 0xF_FFFF, 16 * p, 2048);
      }
    }
  }

  lemma ProductBound(a: nat, a': nat, b: nat, b': nat)
    requires a <= a' && b <= b'
    ensures a * b <= a' * b'
  {
    assert a' * b' - a * b == (a' - a) * b' + a * (b' - b);
  }

  /** The greatest power of two, from 16 on, that is not above the size. */
  function RoundedSize(size: uint16): (r: nat)
    requires size >= 16
    ensures r <= size < 2 * r
    ensures exists e :: r == 16 * Pow2(e)
  {
    var e := Log2(size / 16);
    assert 16 * Pow2(e) <= size < 16 * (2 * Pow2(e));
    16 * Pow2(e)
  }

  lemma Fields(num: nat, flag: nat, e: nat)
    requires flag <= 1 && e <= 7
    ensures var v := num * 16 + 8 * flag + e; v / 16 == num && v / 8 % 2 == flag && v % 8 == e
  {
  }

  lemma ExponentSmall(size: nat)
    requires 1 <= size <= 128
    ensures Log2(size) < 8
  {
    assert Pow2(8) == 256;
    Pow2Below(Log2(size), 8);
  }

  /** Any size in 16..2048 is encoded as the greatest power of two below or equal to it. */
  lemma BlockRead(b: Block)
    requires 16 <= b.size <= 2048 && b.num < 0x1000_0000
    ensures RoundedSize(b.size) <= 2048
    ensures BlockOf(BlockValue(b)) == Block(b.num, b.more, RoundedSize(b.size), b.num * RoundedSize(b.size) % TWO32)
  {
    hide *;
    var e, v := Log2(b.size / 16), BlockValue(b);
    ExponentSmall(b.size / 16);
    ExponentBound(e);
    EncodedParts(b);
    Fields(b.num, if b.more then 1 else 0, e);
    DecodedParts(v);
    DecodedOffset(v);
  }

  lemma EncodedParts(b: Block)
    requires 16 <= b.size && b.num < 0x1000_0000 && Log2(b.size / 16) < 8
    ensures BlockValue(b) == b.num * 16 + 8 * (if b.more then 1 else 0) + Log2(b.size / 16)
    ensures RoundedSize(b.size) == 16 * Pow2(Log2(b.size / 16))
  {
    hide Pow2, Log2;
  }

  lemma DecodedParts(v: uint32)
    ensures BlockOf(v).num == v / 16 && BlockOf(v).more == (v / 8 % 2 == 1) && BlockOf(v).size == 16 * Pow2(v % 8)
  {
    hide Pow2;
  }

  /** A block comes back as it was sent if and only if its number fits in 28 bits, its size is
      a power of two in 16..2048 and its offset agrees with them. */
  predicate Sendable(b: Block) {
    && b.num < 0x1000_0000
    && 16 <= b.size <= 2048 && b.size == RoundedSize(b.size)
    && b.offset == b.num * b.size % TWO32
  }

  lemma BlockReadExactly(b: Block)
    ensures BlockOf(BlockValue(b)) == b <==> Sendable(b)
  {
    if Sendable(b) {
      BlockRead(b);
    } else if BlockOf(BlockValue(b)) == b {
      var v := BlockValue(b);
      DecodedOffset(v);
      ExponentBound(v % 8);
      assert b.size / 16 == Pow2(v % 8);
      Log2Pow2(v % 8);
    }
  }

  /** COAP_MAX_BLOCK_SIZE for a given REST_MAX_CHUNK_SIZE. */
  function MaxBlockSize(chunk: nat): nat {
    if chunk < 32 then 16
    else if chunk < 64 then 32
    else if chunk < 128 then 64
    else if chunk < 256 then 128
    else if chunk < 512 then 256
    else if chunk < 1024 then 512
    else if chunk < 2048 then 1024
    else 2048
  }

  lemma MaxBlockSizeRounds(chunk: uint16)
    requires 16 <= chunk <= 2048
    ensures MaxBlockSize(chunk) == RoundedSize(chunk)
  {
    var r := RoundedSize(chunk);
    var e :| r == 16 * Pow2(e);
    assert Pow2(8) == 256;
    Pow2Below(e, 8);
    assert e in {0, 1, 2, 3, 4, 5, 6, 7};
    assert Pow2(0) == 1 && Pow2(1) == 2 && Pow2(2) == 4 && Pow2(3) == 8;
    assert Pow2(4) == 16 && Pow2(5) == 32 && Pow2(6) == 64 && Pow2(7) == 128;
  }
}
