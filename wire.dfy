/** The 4-byte unsigned integer codec the Frame Flow receiver relies on: Python's
    `struct.unpack("<L", b)` for the frame-length header and `struct.pack` for the
    4-byte feedback word. A byte is an integer in 0..255; integers are unbounded `nat`s, and a
    k-byte field holds exactly the values below 256^k. */
module Wire {

  newtype Byte = x: int | 0 <= x < 256

  /** Size in bytes of the `<L` (unsigned 32-bit) field. */
  const U32Size: nat := 4

  /** Number of distinct values of an unsigned 32-bit integer. */
  const U32Limit: nat := 0x1_0000_0000

  /** The result of `struct.unpack`: the value, or the `struct.error` it raises. */
  datatype Unpacked = Value(n: nat) | StructError

  /** 256 to the power k: the number of values a k-byte field can hold. */
  function Pow256(k: nat): nat
  {
    if k == 0 then 1 else 256 * Pow256(k - 1)
  }

  /** The unsigned value of `b` read least significant byte first. */
  function DecodeLE(b: seq<Byte>): (n: nat)
    ensures n < Pow256(|b|)
  {
    if b == [] then 0 else b[0] as nat + 256 * DecodeLE(b[1..])
  }

  /** The k least significant bytes of `n`, least significant first. */
  function EncodeLE(n: nat, k: nat): (b: seq<Byte>)
    ensures |b| == k
  {
    if k == 0 then [] else [(n % 256) as Byte] + EncodeLE(n / 256, k - 1)
  }

  /** Decoding the k-byte little-endian encoding of any n < 256^k gives n back. */
  lemma {:induction false} DecodeEncodeLE(n: nat, k: nat)
    requires n < Pow256(k)
    ensures DecodeLE(EncodeLE(n, k)) == n
  {
    if k > 0 {
      var b := EncodeLE(n, k);
      assert b[1..] == EncodeLE(n / 256, k - 1);
      DecodeEncodeLE(n / 256, k - 1);
    }
  }

  /** Encoding the value of a byte string in as many bytes gives it back. */
  lemma {:induction false} EncodeDecodeLE(b: seq<Byte>)
    ensures EncodeLE(DecodeLE(b), |b|) == b
  {
    if b != [] {
      var n := DecodeLE(b);
      assert n % 256 == b[0] as nat && n / 256 == DecodeLE(b[1..]);
      EncodeDecodeLE(b[1..]);
    }
  }

  /** The unsigned 32-bit value of four little-endian bytes (`struct`'s `<L`). */
  function DecodeU32LE(b: seq<Byte>): (n: nat)
    requires |b| == U32Size
    ensures n < U32Limit
  {
    assert Pow256(U32Size) == U32Limit;
    DecodeLE(b)
  }

  /** The four little-endian bytes of an unsigned 32-bit value. */
  function EncodeU32LE(n: nat): (b: seq<Byte>)
    requires n < U32Limit
    ensures |b| == U32Size
  {
    EncodeLE(n, U32Size)
  }

  /** `struct.unpack("<L", header)`: exactly four bytes are required, and a
      header of any other length raises `struct.error`. */
  function UnpackU32LE(header: seq<Byte>): (r: Unpacked)
    ensures r.Value? <==> |header| == U32Size
    ensures r.Value? ==> r.n < U32Limit && EncodeU32LE(r.n) == header
  {
    if |header| == U32Size then
      EncodeDecodeLE(header);
      Value(DecodeU32LE(header))
    else
      StructError
  }

  /** Decoding the little-endian encoding of any n < 2^32 returns n. */
  lemma DecodeEncodeU32(n: nat)
    requires n < U32Limit
    ensures DecodeU32LE(EncodeU32LE(n)) == n
    ensures UnpackU32LE(EncodeU32LE(n)) == Value(n)
  {
    assert Pow256(U32Size) == U32Limit;
    DecodeEncodeLE(n, U32Size);
  }

  /** Two headers decode to the same length only if they are the same bytes. */
  lemma DecodeU32Injective(a: seq<Byte>, b: seq<Byte>)
    requires |a| == U32Size && |b| == U32Size
    requires DecodeU32LE(a) == DecodeU32LE(b)
    ensures a == b
  {
    EncodeDecodeLE(a);
    EncodeDecodeLE(b);
  }
}
