/** Octets and the big-endian unsigned 32-bit field that `struct.pack('>I', n)`
    writes (network byte order, as section 7.1 of the PNG specification requires
    for every four-byte integer in the file). */
module BigEndian {

  /** One octet, as held in a Python `bytes` object. */
  type byte = x: int | 0 <= x < 256

  type Bytes = seq<byte>

  const U32_BOUND: int := 0x1_0000_0000

  /** The values `struct.pack('>I', n)` accepts; any other raises `struct.error`. */
  predicate IsU32(n: int) {
    0 <= n < U32_BOUND
  }

  /** The unsigned value of four octets, most significant first. */
  function UnpackU32(b: Bytes): (n: int)
    requires |b| == 4
    ensures IsU32(n)
  {
    (b[0] as int) * 0x100_0000 + (b[1] as int) * 0x1_0000 + (b[2] as int) * 0x100 + b[3]
  }

  /** The `k` low-order octets of `n`, most significant first. */
  function Digits(n: nat, k: nat): (r: Bytes)
    ensures |r| == k
  {
    if k == 0 then [] else Digits(n / 0x100, k - 1) + [n % 0x100]
  }

  /** The four octets of a 32-bit value, written out. */
  lemma DigitsU32(n: nat)
    ensures Digits(n, 4) == [n / 0x100_0000 % 0x100, n / 0x1_0000 % 0x100, n / 0x100 % 0x100, n % 0x100]
  {
    assert n / 0x100 / 0x100 == n / 0x1_0000;
    assert n / 0x1_0000 / 0x100 == n / 0x100_0000;
    assert Digits(n / 0x100_0000, 1) == [n / 0x100_0000 % 0x100];
    assert Digits(n / 0x1_0000, 2) == [n / 0x100_0000 % 0x100, n / 0x1_0000 % 0x100];
    assert Digits(n / 0x100, 3) == [n / 0x100_0000 % 0x100, n / 0x1_0000 % 0x100, n / 0x100 % 0x100];
  }

  /** Four octets are determined by their value: they are its digits. */
  lemma DigitsOfUnpack(b: Bytes)
    requires |b| == 4
    ensures Digits(UnpackU32(b), 4) == b
  {
    var n2 := (b[0] as int) * 0x100 + b[1];
    var n1 := n2 * 0x100 + b[2];
    var n := n1 * 0x100 + b[3];
    assert UnpackU32(b) == n;
    DivMod256(0, b[0]);
    DivMod256(b[0], b[1]);
    DivMod256(n2, b[2]);
    DivMod256(n1, b[3]);
    assert Digits(b[0], 1) == [b[0]];
    assert Digits(n2, 2) == [b[0], b[1]];
    assert Digits(n1, 3) == [b[0], b[1], b[2]];
    assert b == [b[0], b[1], b[2], b[3]];
  }

  /** Dividing `q * 256 + r` by 256 leaves `q` and the remainder `r`. */
  lemma DivMod256(q: nat, r: byte)
    ensures (q * 0x100 + r) / 0x100 == q && (q * 0x100 + r) % 0x100 == r
  {
  }

  /** `struct.pack('>I', n)`: four octets, most significant first, that read
      back as `n`. */
  function PackU32(n: int): (r: Bytes)
    requires IsU32(n)
    ensures |r| == 4
    ensures UnpackU32(r) == n
  {
    DigitsU32(n);
    assert n / 0x100_0000 < 0x100;
    assert n / 0x1_0000 == n / 0x100_0000 * 0x100 + n / 0x1_0000 % 0x100;
    assert n / 0x100 == n / 0x1_0000 * 0x100 + n / 0x100 % 0x100;
    Digits(n, 4)
  }

  /** Every four-octet field is the packing of the value it holds: reading a
      field and writing the value back gives the same octets. */
  lemma PackUnpackU32(b: Bytes)
    requires |b| == 4
    ensures PackU32(UnpackU32(b)) == b
  {
    DigitsOfUnpack(b);
  }
}
