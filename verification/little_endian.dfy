/**
  The byte handling around the engine: `BitConverter.GetBytes` and
  `BitConverter.ToUInt64` on a little-endian host, LINQ `Take` and
  `Array.Resize`, written out over `seq<bv8>`.
*/
module LittleEndian {
  import opened Bits

  /** The byte of `x` that starts at bit `shift`. */
  function ByteAt(x: bv64, shift: bv7): Byte
    requires shift <= 56
  {
    ((x >> shift) & 0xFF) as Byte
  }

  /** `BitConverter.GetBytes(ulong)` on a little-endian host: eight bytes, least significant first. */
  function GetBytes(x: bv64): (bs: seq<Byte>)
    ensures |bs| == 8
  {
    [ByteAt(x, 0), ByteAt(x, 8), ByteAt(x, 16), ByteAt(x, 24),
     ByteAt(x, 32), ByteAt(x, 40), ByteAt(x, 48), ByteAt(x, 56)]
  }

  /** `BitConverter.ToUInt64(bytes, 0)` on a little-endian host: the first eight bytes, least significant first. */
  function ToUInt64(bs: seq<Byte>): bv64
    requires |bs| >= 8
  {
    (bs[0] as bv64)
    | (bs[1] as bv64 << 8)
    | (bs[2] as bv64 << 16)
    | (bs[3] as bv64 << 24)
    | (bs[4] as bv64 << 32)
    | (bs[5] as bv64 << 40)
    | (bs[6] as bv64 << 48)
    | (bs[7] as bv64 << 56)
  }

  /** LINQ `Take(count)`: the first `count` elements, or all of them when there are fewer. */
  function Take(bs: seq<Byte>, count: int): (r: seq<Byte>)
    ensures |r| == if count <= 0 then 0 else if count < |bs| then count else |bs|
    ensures r <= bs
  {
    if count <= 0 then [] else if count < |bs| then bs[..count] else bs
  }

  /** `Array.Resize(ref bs, size)`: keep the first `size` elements and pad with zero bytes. */
  function Resize(bs: seq<Byte>, size: nat): (r: seq<Byte>)
    ensures |r| == size
    ensures forall i | 0 <= i < size :: r[i] == if i < |bs| then bs[i] else 0
  {
    if size <= |bs| then bs[..size] else bs + seq(size - |bs|, _ => 0)
  }

  /** Decoding the encoding of a value gives the value back. */
  lemma ToUInt64GetBytes(x: bv64)
    ensures ToUInt64(GetBytes(x)) == x
  {
  }

  /** Encoding the decoding of eight bytes gives the bytes back. */
  lemma GetBytesToUInt64(bs: seq<Byte>)
    requires |bs| == 8
    ensures GetBytes(ToUInt64(bs)) == bs
  {
  }

  /** A value that fits in `count` bytes has zero bytes from position `count` on. */
  lemma HighBytesZero(x: bv64, count: nat)
    requires 1 <= count <= 8
    requires FitsIn(x, 8 * (count as bv7))
    ensures forall i | count <= i < 8 :: GetBytes(x)[i] == 0
  {
    if count == 1 {
      assert x >> 8 == 0;
    } else if count == 2 {
      assert x >> 16 == 0;
    } else if count == 3 {
      assert x >> 24 == 0;
    } else if count == 4 {
      assert x >> 32 == 0;
    } else if count == 5 {
      assert x >> 40 == 0;
    } else if count == 6 {
      assert x >> 48 == 0;
    } else if count == 7 {
      assert x >> 56 == 0;
    }
  }

  /**
    Keeping the low `count` bytes of the encoding and zero-extending them to
    eight decodes to the original value whenever it fits in `count` bytes.
  */
  lemma TruncatedRoundTrip(x: bv64, count: nat)
    requires 1 <= count <= 8
    requires FitsIn(x, 8 * (count as bv7))
    ensures Resize(Take(GetBytes(x), count), 8) == GetBytes(x)
    ensures ToUInt64(Resize(Take(GetBytes(x), count), 8)) == x
  {
    HighBytesZero(x, count);
    ToUInt64GetBytes(x);
  }
}
