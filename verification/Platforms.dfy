/** The field and the operations of the field library that the program calls but does not define.
    They are members of a `Platform` value, so every theorem holds whatever they are. */
module Platforms {
  import opened Wrappers
  import opened Numbers
  import opened Hex
  import opened FeltText

  /** The Stark prime, 2^251 + 17 * 2^192 + 1. */
  const P: nat := 0x800000000000011000000000000000000000000000000000000000000000001

  type Field = n: nat | n < P witness 0

  /** Bits in a trie key. */
  const KEY_BITS: nat := 251

  const U64: nat := 0x1_0000_0000_0000_0000

  type I64 = x: int | -0x8000_0000_0000_0000 <= x < 0x8000_0000_0000_0000

  /** `pedersen` and `poseidon` are the two hashes; `unusual` is what the library's `from_hex` makes of a
      text that is not "0x" and 1 to 64 digits of a number below P; `displayKey` writes a storage key of the
      execution engine as text; `overflowChecks` tells a build that
      panics on integer overflow from one that wraps around. */
  datatype Platform = Platform(
    pedersen: (Field, Field) -> Field,
    poseidon: seq<Field> -> Field,
    unusual: string -> Option<Field>,
    displayKey: Field -> string,
    overflowChecks: bool
  )

  /** `FieldElement::from_hex` */
  function FromHex(pl: Platform, text: string): Option<Field> {
    if HasPrefix(text) && 3 <= |text| <= 66 && IsHex(text[2..]) && HexValue(text[2..]) < P
    then Some(HexValue(text[2..]))
    else pl.unusual(text)
  }

  /** `StarkFelt::from_hex_unchecked`: the number a felt denotes, modulo P */
  function FromHexUnchecked(f: Felt): Field {
    Value(f) % P
  }

  function ToU64(x: I64): (u: nat)
    ensures u < U64
  {
    if x < 0 then x + U64 else x
  }

  /** Unsigned 64-bit subtraction that wraps around. */
  function SubU64(a: nat, b: nat): (r: nat)
    requires a < U64 && b < U64
    ensures r < U64 && r % 0x1_0000_0000_0000_0000 == (a - b) % 0x1_0000_0000_0000_0000
  {
    if b <= a then a - b else a - b + U64
  }

  predicate InI64(x: int) {
    -0x8000_0000_0000_0000 <= x < 0x8000_0000_0000_0000
  }

  /** The 64-bit two's complement value congruent to `x`. */
  function WrapI64(x: int): I64 {
    (x + 0x8000_0000_0000_0000) % 0x1_0000_0000_0000_0000 - 0x8000_0000_0000_0000
  }

  lemma WrapAdd(a: int, b: int)
    ensures WrapI64(WrapI64(a) + b) == WrapI64(a + b)
    ensures InI64(a) <==> WrapI64(a) == a
  {
  }

  lemma FieldBounds()
    ensures Pow2(KEY_BITS) < P < Pow2(FELT_BITS)
    ensures U64 < P
  {
    PowersOfTwo();
  }

  /** The modulus is the Stark prime's number. */
  lemma ModulusIsStarkPrime()
    ensures P == Pow2(251) + 17 * Pow2(192) + 1
  {
    PowersOfTwo();
    Pow2Eight();
    Doublings(8);
    PowSum(64, 128, 0x1_0000_0000_0000_0000, 0x1_00000000_00000000_00000000_00000000);
  }

  lemma {:induction false} PowSum(a: nat, b: nat, x: nat, y: nat)
    requires Pow2(a) == x && Pow2(b) == y
    ensures Pow2(a + b) == x * y
  {
    Pow2Add(a, b);
  }

  lemma {:induction false} Doublings(n: nat)
    requires Pow2(n) == 0x100
    ensures Pow2(8 * n) == 0x1_0000_0000_0000_0000
    ensures Pow2(16 * n) == 0x1_00000000_00000000_00000000_00000000
    ensures Pow2(4 * n) == 0x1_0000_0000 && Pow2(2 * n) == 0x1_0000
  {
    PowSum(n, n, 0x100, 0x100);
    PowSum(2 * n, 2 * n, 0x1_0000, 0x1_0000);
    PowSum(4 * n, 4 * n, 0x1_0000_0000, 0x1_0000_0000);
    PowSum(8 * n, 8 * n, 0x1_0000_0000_0000_0000, 0x1_0000_0000_0000_0000);
  }

  /** 251 = 31 * 8 + 3. */
  lemma {:induction false} KeyPower(n: nat, k: nat)
    requires Pow2(n) == 0x100 && Pow2(k) == 8
    ensures Pow2(31 * n + k) == 0x800000000000000000000000000000000000000000000000000000000000000
  {
    Doublings(n);
    PowSum(n, k, 0x100, 8);
    PowSum(2 * n, n + k, 0x1_0000, 0x800);
    PowSum(4 * n, 3 * n + k, 0x1_0000_0000, 0x800_0000);
    PowSum(8 * n, 7 * n + k, 0x1_0000_0000_0000_0000, 0x800_0000_0000_0000);
    PowSum(16 * n, 15 * n + k, 0x1_00000000_00000000_00000000_00000000, 0x800_0000_0000_0000_0000_0000_0000_0000);
  }

  lemma PowersOfTwo()
    ensures Pow2(KEY_BITS) == 0x800000000000000000000000000000000000000000000000000000000000000
    ensures Pow2(FELT_BITS) == 2 * Pow2(KEY_BITS)
  {
    Pow2Eight();
    assert Pow2(3) == 8;
    KeyPower(8, 3);
  }

  /** The canonical text of a field element: `Felt::try_new(&format!("0x{:x}", x))`. */
  function Text(x: Field): (f: Felt)
    ensures TryNew(Print(x)) == Ok(f)
  {
    FieldBounds();
    PrintIsFelt(x);
    Print(x)
  }

  /** A printed field element parses to itself, on every platform. */
  lemma TextRoundTrip(pl: Platform, x: Field)
    ensures FromHex(pl, Text(x)) == Some(x)
  {
    FieldBounds();
    PrintIsFelt(x);
    LowerHexValue(x);
    assert Text(x)[2..] == LowerHex(x);
  }

  lemma TextInjective(x: Field, y: Field)
    ensures Text(x) == Text(y) <==> x == y
  {
    FieldBounds();
    PrintIsFelt(x);
    PrintIsFelt(y);
  }

  /** Both printers of a field element, run on its 32 bytes, give its canonical text. */
  lemma PrintersGiveText(x: Field)
    ensures FromStarkBytes(ToBytes(x, 32)) == AsFelt(ToBytes(x, 32)) == Ok(Text(x))
  {
    FieldBounds();
    BytesOfValue(x, 32);
    Pow2Monotone(FELT_BITS, 8 * 32);
    DivModUnique(x, Pow2(8 * 32), 0, x);
    PrintersAgree(ToBytes(x, 32));
  }

  /** Printing a field element and reading it back gives it again, checked or unchecked. */
  lemma PrintParseRoundTrip(pl: Platform, x: Field)
    ensures
      var f := FromStarkBytes(ToBytes(x, 32));
      f.Ok? && FromHex(pl, f.value) == Some(x) && FromHexUnchecked(f.value) == x
  {
    PrintersGiveText(x);
    TextRoundTrip(pl, x);
    FieldBounds();
    PrintIsFelt(x);
    DivModUnique(x, P, 0, x);
  }

  /** The two parsers of the field library read one number, where the checked one accepts the text. */
  predicate ParsedAlike(pl: Platform, f: Felt) {
    FromHex(pl, f).Some? ==> FromHex(pl, f).value == FromHexUnchecked(f)
  }

  /** They do so for every felt below P. Beyond it the unchecked one takes P away once, and they read one number
      if the checked one, which is the library's business there, refuses or reduces. */
  lemma BelowPParsedAlike(pl: Platform, f: Felt)
    ensures Value(f) < P ==> FromHex(pl, f) == Some(FromHexUnchecked(f)) && ParsedAlike(pl, f)
    ensures Value(f) < P ==> FromHexUnchecked(f) == Value(f)
    ensures Value(f) >= P ==> FromHex(pl, f) == pl.unusual(f) && FromHexUnchecked(f) == Value(f) - P
  {
    PrintOfValue(f);
    PowersOfTwo();
    DivModUnique(Value(f), P, if Value(f) < P then 0 else 1, if Value(f) < P then Value(f) else Value(f) - P);
  }

  lemma ZeroUnchecked(f: Felt)
    ensures f == "0x0" ==> FromHexUnchecked(f) == 0
  {
    PrintOfValue(f);
  }
}
