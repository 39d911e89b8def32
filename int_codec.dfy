/**
 * The byte form of unsigned integer headers: `int.from_bytes(b, "big")` on the
 * way in and `int_to_minimal_unsigned` on the way out.
 */
module IntCodec {
  import opened Wire
  import Positional

  /** 2^64: integer headers are at most 8 bytes, so their values stay below this. */
  const U64_LIMIT: nat := 0x1_0000_0000_0000_0000

  /** `int.from_bytes(b, "big")`: the unsigned big-endian value of b; empty is 0. */
  function FromBigEndian(b: bytes): nat
  {
    Positional.FromDigits(b, 256)
  }

  /**
   * `int_to_minimal_unsigned`: the fewest big-endian bytes that hold n, one
   * zero byte for 0 and never empty, with no leading zero byte otherwise.
   */
  function ToMinimalUnsigned(n: nat): (r: bytes)
    ensures 1 <= |r|
    ensures r[0] == 0 <==> n == 0
    ensures n == 0 ==> r == [0]
    ensures FromBigEndian(r) == n
  {
    var ds := Positional.ToDigits(n, 256);
    assert forall i :: 0 <= i < |ds| ==> ds[i] < 256;
    ds
  }

  lemma Pow256Of8()
    ensures Positional.Pow(256, 8) == U64_LIMIT
  {
    assert Positional.Pow(256, 2) == 0x1_0000;
    assert Positional.Pow(256, 4) == 0x1_0000 * 0x1_0000 by {
      assert Positional.Pow(256, 3) == 0x100_0000;
    }
    assert Positional.Pow(256, 6) == 0x1_0000_0000_0000 by {
      assert Positional.Pow(256, 5) == 0x100_0000_0000;
    }
    assert Positional.Pow(256, 7) == 0x100_0000_0000_0000;
  }

  /** k bytes hold values below 256^k; in particular 8 bytes stay below 2^64. */
  lemma FromBigEndianBound(b: bytes)
    ensures FromBigEndian(b) < Positional.Pow(256, |b|)
    ensures |b| <= 8 ==> FromBigEndian(b) < U64_LIMIT
  {
    assert Positional.AllBelow(b, 256);
    Positional.FromDigitsBound(b, 256);
    if |b| <= 8 {
      Pow256Of8();
      Positional.PowMono(256, |b|, 8);
    }
  }

  /** The minimal encoding fits in k >= 1 bytes exactly when n < 256^k. */
  lemma MinimalUnsignedLength(n: nat, k: nat)
    requires k >= 1
    ensures |ToMinimalUnsigned(n)| <= k <==> n < Positional.Pow(256, k)
  {
    Positional.ToDigitsLength(n, 256, k);
  }

  /** The minimal encoding is at most 8 bytes exactly for the values below 2^64. */
  lemma MinimalUnsignedFitsU64(n: nat)
    ensures |ToMinimalUnsigned(n)| <= 8 <==> n < U64_LIMIT
  {
    MinimalUnsignedLength(n, 8);
    Pow256Of8();
  }

  /** No non-empty byte string holding n is shorter than the minimal encoding. */
  lemma MinimalUnsignedIsShortest(n: nat, b: bytes)
    requires |b| >= 1 && FromBigEndian(b) == n
    ensures |ToMinimalUnsigned(n)| <= |b|
  {
    FromBigEndianBound(b);
    MinimalUnsignedLength(n, |b|);
  }

  /** A byte string without a leading zero byte is the minimal encoding of its value. */
  lemma MinimalUnsignedOfCanonical(b: bytes)
    requires |b| >= 1 && (b[0] == 0 ==> |b| == 1)
    ensures ToMinimalUnsigned(FromBigEndian(b)) == b
  {
    assert Positional.Canonical(b, 256);
    Positional.ToFromDigits(b, 256);
  }
}
