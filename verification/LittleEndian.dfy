/** Little-endian integers as the original's `from_le_bytes` and `to_le_bytes` read and write them. */
module LittleEndian {
  type byte = x: int | 0 <= x < 256

  /** 256 to the power n: the number of values n bytes can hold. */
  function Pow256(n: nat): (r: nat)
    ensures r > 0
  {
    if n == 0 then 1 else 256 * Pow256(n - 1)
  }

  function Unsigned(bytes: seq<byte>): (v: nat)
    ensures v < Pow256(|bytes|)
  {
    if bytes == [] then 0 else bytes[0] + 256 * Unsigned(bytes[1..])
  }

  /** Two's complement reading of a nonempty little-endian field. */
  function Signed(bytes: seq<byte>): (v: int)
    requires bytes != []
  {
    if bytes[|bytes| - 1] < 128 then Unsigned(bytes) else Unsigned(bytes) - Pow256(|bytes|)
  }

  function Encode(v: nat, width: nat): (bytes: seq<byte>)
    requires v < Pow256(width)
    ensures |bytes| == width
  {
    if width == 0 then [] else [v % 256] + Encode(v / 256, width - 1)
  }

  /** A value that a signed field of this width can hold; the test `try_from` makes. */
  predicate FitsSigned(v: int, width: nat) {
    -(Pow256(width) as int) <= 2 * v < Pow256(width)
  }

  function EncodeSigned(v: int, width: nat): (bytes: seq<byte>)
    requires FitsSigned(v, width)
    ensures |bytes| == width
  {
    Encode(if v < 0 then v + Pow256(width) else v, width)
  }

  function Zeros(n: nat): (bytes: seq<byte>)
    ensures |bytes| == n
  {
    seq(n, _ => 0)
  }

  lemma {:induction false} UnsignedOfEncode(v: nat, width: nat)
    requires v < Pow256(width)
    ensures Unsigned(Encode(v, width)) == v
  {
    if width > 0 {
      UnsignedOfEncode(v / 256, width - 1);
      assert Encode(v, width)[1..] == Encode(v / 256, width - 1);
    }
  }

  lemma {:induction false} EncodeOfUnsigned(bytes: seq<byte>)
    ensures Encode(Unsigned(bytes), |bytes|) == bytes
  {
    if bytes != [] {
      EncodeOfUnsigned(bytes[1..]);
      assert bytes == [bytes[0]] + bytes[1..];
    }
  }

  lemma Regroup(a: nat, b: nat, c: nat)
    ensures a * (b * c) == (a * b) * c
  {
  }

  lemma {:induction false} UnsignedOfConcat(low: seq<byte>, high: seq<byte>)
    ensures Unsigned(low + high) == Unsigned(low) + Pow256(|low|) * Unsigned(high)
  {
    if low == [] {
      assert low + high == high;
    } else {
      UnsignedOfConcat(low[1..], high);
      assert (low + high)[1..] == low[1..] + high;
      Regroup(256, Pow256(|low| - 1), Unsigned(high));
    }
  }

  lemma {:induction false} UnsignedOfZeros(n: nat)
    ensures Unsigned(Zeros(n)) == 0
  {
    if n > 0 {
      UnsignedOfZeros(n - 1);
      assert Zeros(n)[1..] == Zeros(n - 1);
    }
  }

  lemma LastByteSplits(bytes: seq<byte>)
    requires bytes != []
    ensures var n := |bytes|;
            Unsigned(bytes) == Unsigned(bytes[..n - 1]) + Pow256(n - 1) * bytes[n - 1]
  {
    var n := |bytes|;
    var low, high := bytes[..n - 1], bytes[n - 1..];
    assert bytes == low + high;
    UnsignedOfConcat(low, high);
    assert Unsigned(high) == bytes[n - 1] by {
      assert high == [bytes[n - 1]];
      assert high[1..] == [];
    }
  }

  /** The top byte alone decides the sign of a two's complement field. */
  lemma TopByte(bytes: seq<byte>)
    requires bytes != []
    ensures 2 * Unsigned(bytes) < Pow256(|bytes|) <==> bytes[|bytes| - 1] < 128
  {
    var n := |bytes|;
    var p, top, low := Pow256(n - 1), bytes[n - 1], Unsigned(bytes[..n - 1]);
    LastByteSplits(bytes);
    if top < 128 {
      MulMonotone(p, top, 127);
    } else {
      MulMonotone(p, 128, top);
    }
  }

  lemma MulMonotone(p: nat, a: int, b: int)
    requires a <= b
    ensures p * a <= p * b
  {
  }

  /** Every signed reading fits its width and is written back as the same bytes. */
  lemma SignedRoundTrip(bytes: seq<byte>)
    requires bytes != []
    ensures FitsSigned(Signed(bytes), |bytes|)
    ensures EncodeSigned(Signed(bytes), |bytes|) == bytes
  {
    TopByte(bytes);
    EncodeOfUnsigned(bytes);
  }

  lemma EncodeSignedRoundTrip(v: int, width: nat)
    requires width > 0 && FitsSigned(v, width)
    ensures Signed(EncodeSigned(v, width)) == v
  {
    var u := if v < 0 then v + Pow256(width) else v;
    UnsignedOfEncode(u, width);
    TopByte(Encode(u, width));
  }

  /** Free low bytes add their unsigned value to the displacement the fixed high bytes name. */
  lemma SignedOfSplit(low: seq<byte>, high: seq<byte>)
    requires high != []
    ensures Signed(low + high) == Unsigned(low) + Signed(Zeros(|low|) + high)
  {
    UnsignedOfConcat(low, high);
    UnsignedOfConcat(Zeros(|low|), high);
    UnsignedOfZeros(|low|);
    var whole, fixed := low + high, Zeros(|low|) + high;
    assert whole[|whole| - 1] == high[|high| - 1] == fixed[|fixed| - 1];
    assert |whole| == |fixed|;
  }
}
