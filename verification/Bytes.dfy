/** Bytes and machine words, buffers written piece by piece, and what else many modules share. */
module Bytes {

  type byte = x: int | 0 <= x < 256

  type uint16 = x: int | 0 <= x < 0x1_0000

  type uint32 = x: int | 0 <= x < 0x1_0000_0000

  datatype Option<T> = None | Some(value: T)

  function Min(a: int, b: int): int {
    if a < b then a else b
  }

  function Pow2(n: nat): (p: nat)
    ensures p >= 1
  {
    if n == 0 then 1 else 2 * Pow2(n - 1)
  }

  function Overwrite(data: seq<byte>, at: nat, piece: seq<byte>): (r: seq<byte>)
    requires at + |piece| <= |data|
    ensures |r| == |data|
  {
    data[..at] + piece + data[at + |piece|..]
  }

  lemma OverwriteTwice(data: seq<byte>, at: nat, a: seq<byte>, b: seq<byte>)
    requires at + |a| + |b| <= |data|
    ensures Overwrite(Overwrite(data, at, a), at + |a|, b) == Overwrite(data, at, a + b)
  {
  }

  /** memcpy from a value */
  method CopyInto(target: array<byte>, at: nat, piece: seq<byte>)
    requires at + |piece| <= target.Length
    modifies target
    ensures target[..] == Overwrite(old(target[..]), at, piece)
  {
    ghost var was := target[..];
    for i := 0 to |piece|
      invariant target[..] == Overwrite(was, at, piece[..i])
    {
      target[at + i] := piece[i];
      assert piece[..i + 1] == piece[..i] + [piece[i]];
    }
    assert piece[..|piece|] == piece;
  }
}
