/** Bytes, machine words and big-endian fields, as `encoding/binary` lays them out. */
module Words {

  type byte = x: int | 0 <= x < 256
  type bytes = seq<byte>

  const TWO16: nat := 0x1_0000
  const TWO31: nat := 0x8000_0000
  const TWO32: nat := 0x1_0000_0000
  const TWO48: nat := 0x1_0000_0000_0000
  const TWO64: nat := 0x1_0000_0000_0000_0000

  type uint16 = x: int | 0 <= x < TWO16
  type uint32 = x: int | 0 <= x < TWO32
  type uint64 = x: int | 0 <= x < TWO64

  /** uint64 addition, which wraps. */
  function Add64(a: uint64, b: uint64): (r: uint64)
    ensures r == (a + b) % TWO64
  {
    if a + b < TWO64 then a + b else a + b - TWO64
  }

  function Pow256(w: nat): (r: nat)
    ensures r > 0
  {
    if w == 0 then 1 else 256 * Pow256(w - 1)
  }

  /** The low `w` bytes of `n`, most significant first. */
  function BigEndian(n: nat, w: nat): (s: bytes)
    ensures |s| == w
    decreases w
  {
    if w == 0 then [] else BigEndian(n / 256, w - 1) + [n % 256]
  }

  function FromBigEndian(s: bytes): (n: nat)
    ensures n < Pow256(|s|)
  {
    if s == [] then 0 else
      var k := |s| - 1;
      FromBigEndian(s[..k]) * 256 + s[k]
  }

  lemma PowValues()
    ensures Pow256(2) == TWO16 && Pow256(4) == TWO32 && Pow256(8) == TWO64
  {
    assert Pow256(0) == 1;
    assert Pow256(1) == 256;
    assert Pow256(2) == 65536;
    assert Pow256(3) == 16777216;
    assert Pow256(4) == TWO32;
    assert Pow256(5) == 256 * TWO32;
    assert Pow256(6) == 65536 * TWO32;
    assert Pow256(7) == 16777216 * TWO32;
  }

  /** A value that fits its field is read back unchanged. */
  lemma {:induction false} FieldRoundTrip(n: nat, w: nat)
    requires n < Pow256(w)
    ensures FromBigEndian(BigEndian(n, w)) == n
    decreases w
  {
    if w > 0 {
      FieldRoundTrip(n / 256, w - 1);
      assert BigEndian(n, w)[..w - 1] == BigEndian(n / 256, w - 1);
    }
  }

  lemma LastByte(high: nat, low: byte)
    ensures (high * 256 + low) / 256 == high && (high * 256 + low) % 256 == low
  {}

  /** A field's bytes are determined by the value read from them. */
  lemma {:induction false} FieldUnique(s: bytes)
    ensures BigEndian(FromBigEndian(s), |s|) == s
  {
    if s != [] {
      var k := |s| - 1;
      FieldUnique(s[..k]);
      LastByte(FromBigEndian(s[..k]), s[k]);
      assert s == s[..k] + [s[k]];
    }
  }

  lemma FieldExactly(s: bytes, n: nat)
    requires n < Pow256(|s|)
    ensures FromBigEndian(s) == n <==> s == BigEndian(n, |s|)
  {
    FieldUnique(s);
    FieldRoundTrip(n, |s|);
  }
}
