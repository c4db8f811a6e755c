/** `util.rs`: field elements as 251-bit keys and back, through a 32-byte big-endian buffer. */
module BitSlices {
  import opened Wrappers
  import opened Numbers
  import opened Platforms

  /** A 32-byte buffer holds five bits more than a key. */
  const OFFSET: nat := 5

  /** `felt_to_bits`: the buffer's bits after the first five */
  function FeltToBits(bytes: seq<byte>): (bits: seq<bool>)
    requires |bytes| == 32
    ensures |bits| == KEY_BITS
  {
    ViewBits(bytes)[OFFSET..]
  }

  /** The key of a field element: `felt_to_bits(&x.to_bytes_be())`. */
  function KeyBits(x: Field): (bits: seq<bool>)
    ensures |bits| == KEY_BITS
  {
    FeltToBits(ToBytes(x, 32))
  }

  /** The key of a field element is its 251 low bits: elements of 2^251 and above lose their top bit. */
  lemma KeyBitsAreLowBits(x: Field)
    ensures KeyBits(x) == BitsOfNat(x, KEY_BITS)
    ensures NatOfBits(KeyBits(x)) == x % Pow2(KEY_BITS)
  {
    BitsOfBytes(x, 32);
    BitsSuffix(x, 256, OFFSET);
    NatOfBitsOfNat(x, KEY_BITS);
  }

  /** The number of a key suffix, as a field element: what `felt_from_bits` computes. */
  function Masked(bits: seq<bool>, mask: nat): (x: Field)
    requires |bits| == KEY_BITS && mask <= KEY_BITS
    ensures x == NatOfBits(bits[mask..]) && x < Pow2(KEY_BITS - mask)
  {
    NatBound(bits[mask..]);
    Pow2Monotone(KEY_BITS - mask, KEY_BITS);
    FieldBounds();
    NatOfBits(bits[mask..])
  }

  /** Writes one bit into a byte, bit 0 being the most significant. */
  function SetBit(b: byte, k: nat, bit: bool): (r: byte)
    requires k < 8
    ensures BitsOfNat(r, 8) == BitsOfNat(b, 8)[k := bit]
  {
    var bits := BitsOfNat(b, 8)[k := bit];
    Pow2Eight();
    NatBound(bits);
    BitsOfNatOfBits(bits);
    NatOfBits(bits)
  }

  /** `copy_from_bitslice` on the bits of a buffer from position `at` to its end. */
  method CopyFromBitslice(bytes: array<byte>, at: nat, bits: seq<bool>)
    requires at + |bits| == 8 * bytes.Length
    modifies bytes
    ensures ViewBits(bytes[..]) == ViewBits(old(bytes[..]))[..at] + bits
  {
    hide ViewBits, SetBit;
    ghost var was := ViewBits(bytes[..]);
    for i := 0 to |bits|
      invariant ViewBits(bytes[..]) == was[..at] + bits[..i] + was[at + i..]
    {
      var j := at + i;
      ghost var before := bytes[..];
      bytes[j / 8] := SetBit(bytes[j / 8], j % 8, bits[i]);
      assert bytes[..] == before[j / 8 := SetBit(before[j / 8], j % 8, bits[i])];
      WriteBit(before, bytes[..], j, bits[i]);
      NextBit(was, at, bits, i);
    }
  }

  lemma NextBit(was: seq<bool>, at: nat, bits: seq<bool>, i: nat)
    requires at + |bits| == |was| && i < |bits|
    ensures (was[..at] + bits[..i] + was[at + i..])[at + i := bits[i]]
         == was[..at] + bits[..i + 1] + was[at + i + 1..]
  {
  }

  /** Setting a bit of one byte sets that bit of the whole view. */
  lemma WriteBit(before: seq<byte>, after: seq<byte>, j: nat, bit: bool)
    requires j < 8 * |before|
    requires after == before[j / 8 := SetBit(before[j / 8], j % 8, bit)]
    ensures ViewBits(after) == ViewBits(before)[j := bit]
  {
    forall i | 0 <= i < 8 * |before| ensures ViewBits(after)[i] == ViewBits(before)[j := bit][i] {
      WriteBitAt(before, after, j, bit, i);
    }
  }

  lemma WriteBitAt(before: seq<byte>, after: seq<byte>, j: nat, bit: bool, i: nat)
    requires j < 8 * |before| && i < 8 * |before|
    requires after == before[j / 8 := SetBit(before[j / 8], j % 8, bit)]
    ensures ViewBits(after)[i] == if i == j then bit else ViewBits(before)[i]
  {
    ViewBitsAt(before, i);
    ViewBitsAt(after, i);
    if i / 8 == j / 8 {
      assert i % 8 == j % 8 <==> i == j;
    }
  }

  lemma {:induction false} ZeroView(bytes: seq<byte>)
    requires forall i :: 0 <= i < |bytes| ==> bytes[i] == 0
    ensures forall i :: 0 <= i < 8 * |bytes| ==> !ViewBits(bytes)[i]
  {
    if |bytes| > 0 {
      ZeroView(bytes[..|bytes| - 1]);
      forall k: nat | k < 8 ensures !BitsOfNat(0, 8)[k] { ZeroBits(8, k); }
    }
  }

  lemma {:induction false} ZeroBits(n: nat, k: nat)
    requires k < n
    ensures !BitsOfNat(0, n)[k]
  {
    if k < n - 1 { ZeroBits(n - 1, k); }
  }

  lemma {:induction false} LeadingZeros(zeros: seq<bool>, bits: seq<bool>)
    requires forall i :: 0 <= i < |zeros| ==> !zeros[i]
    ensures NatOfBits(zeros + bits) == NatOfBits(bits)
  {
    NatConcat(zeros, bits);
    if |zeros| > 0 {
      LeadingZeros(zeros[..|zeros| - 1], []);
      assert zeros[..|zeros| - 1] + [] == zeros[..|zeros| - 1];
    }
  }

  /** A buffer of zeros followed by a key suffix reads back, big-endian and modulo P, as the suffix's number. */
  lemma BufferValue(bytes: seq<byte>, zeros: seq<bool>, bits: seq<bool>, mask: nat)
    requires |bits| == KEY_BITS && mask <= KEY_BITS
    requires ViewBits(bytes) == zeros + bits[mask..]
    requires forall i :: 0 <= i < |zeros| ==> !zeros[i]
    ensures BytesValue(bytes) % P == Masked(bits, mask)
  {
    LeadingZeros(zeros, bits[mask..]);
    BytesAsBits(bytes);
    DivModUnique(BytesValue(bytes), P, 0, Masked(bits, mask));
  }

  /** `felt_from_bits`: fails exactly on a bit string that is not a key or a mask above 251, and
      otherwise gives the number of the bits the mask leaves. */
  method FeltFromBits(bits: seq<bool>, mask: Option<nat>) returns (r: Option<Field>)
    ensures
      var skip := if mask.Some? then mask.value else 0;
      r == if |bits| == KEY_BITS && skip <= KEY_BITS then Some(Masked(bits, skip)) else None
  {
    if |bits| != KEY_BITS { return None; }
    var skip := 0;
    if mask.Some? {
      if mask.value > KEY_BITS { return None; }
      skip := mask.value;
    }
    var bytes := new byte[32](_ => 0);
    ghost var zeros := ViewBits(bytes[..])[..OFFSET + skip];
    ZeroView(bytes[..]);
    CopyFromBitslice(bytes, OFFSET + skip, bits[skip..]);
    BufferValue(bytes[..], zeros, bits, skip);
    r := Some(BytesValue(bytes[..]) % P);
  }

  /** The two conversions undo each other up to the mask: converting an element to its key and the key
      back with `m` bits masked reduces it modulo 2^(251 - m). */
  lemma MaskedKeyIsRemainder(x: Field, mask: nat)
    requires mask <= KEY_BITS
    ensures Masked(KeyBits(x), mask) == x % Pow2(KEY_BITS - mask)
  {
    KeyBitsAreLowBits(x);
    BitsSuffix(x, KEY_BITS, mask);
    NatOfBitsOfNat(x, KEY_BITS - mask);
  }

  /** Every 251-bit string is the key of the element it denotes. */
  lemma KeyOfUnmasked(bits: seq<bool>)
    requires |bits| == KEY_BITS
    ensures KeyBits(Masked(bits, 0)) == bits
  {
    assert bits[0..] == bits;
    KeyBitsAreLowBits(Masked(bits, 0));
    BitsOfNatOfBits(bits);
  }

  /** Two field elements are one key exactly when they agree modulo 2^251, so below 2^251 keys are distinct. */
  lemma KeysAlias(x: Field, y: Field)
    ensures KeyBits(x) == KeyBits(y) <==> x % Pow2(KEY_BITS) == y % Pow2(KEY_BITS)
    ensures x < Pow2(KEY_BITS) && y < Pow2(KEY_BITS) && KeyBits(x) == KeyBits(y) ==> x == y
  {
    KeyBitsAreLowBits(x);
    KeyBitsAreLowBits(y);
    if NatOfBits(KeyBits(x)) == NatOfBits(KeyBits(y)) { NatInjective(KeyBits(x), KeyBits(y)); }
    if x < Pow2(KEY_BITS) { DivModUnique(x, Pow2(KEY_BITS), 0, x); }
    if y < Pow2(KEY_BITS) { DivModUnique(y, Pow2(KEY_BITS), 0, y); }
  }
}
