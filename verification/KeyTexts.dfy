/** Key texts: how `from_hex` reads them, that normalising one changes no answer, and which numbers have a
    canonical text that passes for a storage key. */
module KeyTexts {
  import opened Wrappers
  import opened Numbers
  import opened Hex
  import opened FeltText
  import opened Platforms
  import opened Proofs
  import opened EndToEnd
  import opened Cache

  /** "0x" and 1 to 64 hexadecimal digits of a number below P, with leading zeros or not. */
  predicate IsKeyText(text: string) {
    HasPrefix(text) && 3 <= |text| <= 66 && IsHex(text[2..]) && HexValue(text[2..]) < P
  }

  /** Only a run of two zeros or more has no normalised form. */
  lemma NormalisedExact(text: string)
    requires IsKeyText(text)
    ensures TryNew(text).Ok? <==> HexValue(text[2..]) > 0 || |text| == 3
  {
    hide HexValue, IsHex, TrimZeros, TryNew;
    var digits := text[2..];
    assert text == "0x" + digits;
    TryNewExact(text);
    if HexValue(digits) > 0 {
      SignificantDigits(digits);
    } else {
      ZeroDigits(digits);
      if |text| == 3 { assert digits == "0"; }
    }
  }

  lemma SignificantDigits(digits: string)
    requires IsHex(digits) && 0 < HexValue(digits) < P
    ensures 1 <= |TrimZeros(digits)| <= 63
  {
    hide HexValue, IsHex, TrimZeros;
    var trimmed := TrimZeros(digits);
    TrimKeepsValue(digits);
    TrimKeepsHex(digits);
    HexLength(trimmed);
    FieldBounds();
    assert trimmed != "" by { ZeroText(); }
    if |trimmed| > 63 { Pow2Monotone(FELT_BITS, 4 * (|trimmed| - 1)); }
  }

  lemma ZeroDigits(digits: string)
    requires digits != "" && IsHex(digits) && HexValue(digits) == 0
    ensures TrimZeros(digits) == "" && digits[0] == '0'
  {
    var trimmed := TrimZeros(digits);
    TrimKeepsValue(digits);
    TrimKeepsHex(digits);
    if trimmed != "" { LowerHexOfValue(trimmed); }
  }

  /** Normalising does not change what a key text is read as: the number its digits denote, whose canonical text
      is the normalised one in lower case. A run of zeros, which cannot be normalised, is read as zero. */
  lemma KeyTextRead(pl: Platform, text: string)
    requires IsKeyText(text)
    ensures FromHex(pl, text).Some?
    ensures TryNew(text).Ok? ==>
      var felt := TryNew(text).value;
      && FromHex(pl, text) == FromHex(pl, felt) == Some(FromHexUnchecked(felt))
      && Text(FromHex(pl, text).value) == ToLower(felt)
    ensures TryNew(text).Err? ==> FromHex(pl, text) == FromHex(pl, "0x0") == Some(0)
  {
    hide *;
    KeyTextValue(pl, text);
    if TryNew(text).Ok? {
      var felt := TryNew(text).value;
      TryNewExact(text);
      BelowPParsedAlike(pl, felt);
      PrintOfValue(felt);
      CanonicalOfValue(felt);
    } else {
      NormalisedExact(text);
      ZeroRead(pl);
    }
  }

  lemma ZeroRead(pl: Platform)
    ensures FromHex(pl, "0x0") == Some(0)
  {
    ZeroText();
    BelowPParsedAlike(pl, "0x0");
  }

  lemma KeyTextValue(pl: Platform, text: string)
    requires IsKeyText(text)
    ensures HexValue(text[2..]) < P && FromHex(pl, text) == Some(HexValue(text[2..]))
    ensures Unprefixed(text) == text[2..]
  {
  }

  lemma CanonicalOfValue(f: Felt)
    ensures Value(f) < P ==> Text(Value(f)) == Print(Value(f))
  {
    hide HexValue, TryNew, LowerHex, IsFelt, Print;
  }

  function Zeros(n: nat): (s: string)
    ensures |s| == n
  {
    if n == 0 then "" else "0" + Zeros(n - 1)
  }

  lemma ZeroAhead(digits: string)
    requires IsHex(digits)
    ensures IsHex("0" + digits) && HexValue("0" + digits) == HexValue(digits)
  {
    hide HexValue;
    var text := "0" + digits;
    assert text[1..] == digits && text[0] == '0';
    DropZero(text);
  }

  lemma {:induction false} ZerosKeepDigits(n: nat, digits: string)
    requires IsHex(digits)
    ensures IsHex(Zeros(n) + digits) && HexValue(Zeros(n) + digits) == HexValue(digits)
  {
    hide HexValue, IsHex;
    if n == 0 {
      assert Zeros(0) + digits == digits;
    } else {
      ZerosKeepDigits(n - 1, digits);
      ZeroAhead(Zeros(n - 1) + digits);
      assert Zeros(n) + digits == "0" + (Zeros(n - 1) + digits);
    }
  }

  lemma PrefixedDigits(digits: string)
    ensures HasPrefix("0x" + digits) && ("0x" + digits)[2..] == digits
  {
  }

  /** A number written with any number of leading zeros, up to 64 digits, is read as that number. */
  lemma PaddedKeyRead(pl: Platform, x: Field, n: nat)
    requires n + |LowerHex(x)| <= 64
    ensures FromHex(pl, "0x" + Zeros(n) + LowerHex(x)) == Some(x)
  {
    hide HexValue, LowerHex, Zeros, IsHex, HasPrefix, FromHex;
    var digits := Zeros(n) + LowerHex(x);
    LowerHexValue(x);
    ZerosKeepDigits(n, LowerHex(x));
    PrefixedDigits(digits);
    KeyTextValue(pl, "0x" + digits);
    assert "0x" + Zeros(n) + LowerHex(x) == "0x" + digits;
  }

  /** Key texts of one number get the same answers from `parse_proof` and `verify`, a text and its normalised form
      in particular. */
  lemma SameKeySameAnswer(pl: Platform, a: string, b: string, value: Felt, proof: Proof, result: GetProofResult,
                          globalRoot: Felt, address: Felt)
    requires IsKeyText(a)
    requires (IsKeyText(b) && HexValue(a[2..]) == HexValue(b[2..])) || TryNew(a) == Ok(b)
    ensures Parse(pl, a, value, proof) == Parse(pl, b, value, proof)
    ensures Verify(pl, result, globalRoot, address, a, value) == Verify(pl, result, globalRoot, address, b, value)
  {
    hide TryNew, HexValue, FromHex, IsHex;
    KeyTextRead(pl, a);
    KeyTextValue(pl, a);
    if TryNew(a) != Ok(b) { KeyTextValue(pl, b); }
    ParseReadsKey(pl, a, b, value, proof);
    if result.contractData.Some? {
      var data := result.contractData.value;
      if data.storageProofs.Some? && data.storageProofs.value != [] {
        ParseReadsKey(pl, a, b, value, data.storageProofs.value[0]);
      }
      hide Parse, VerifyContractProof;
    }
  }

  lemma ParseReadsKey(pl: Platform, a: string, b: string, value: Felt, proof: Proof)
    requires FromHex(pl, a) == FromHex(pl, b)
    ensures Parse(pl, a, value, proof) == Parse(pl, b, value, proof)
  {
    hide FromHex, Fold;
  }

  /** The first digit of a text says between which multiples of a power of 16 its number lies. */
  lemma {:induction false} FirstDigit(s: string)
    requires s != ""
    ensures
      var d, p := DigitValue(s[0]), Pow2(4 * (|s| - 1));
      d * p <= HexValue(s) < (d + 1) * p
  {
    var init, last := s[..|s| - 1], s[|s| - 1];
    if |s| == 1 {
      OneDigit(s);
    } else {
      FirstDigit(init);
      var d, p := DigitValue(s[0]), Pow2(4 * (|init| - 1));
      Pow2Eight();
      Pow2Add(4 * (|init| - 1), 4);
      Sixteenfold(d, p, HexValue(init), DigitValue(last));
    }
  }

  lemma Sixteenfold(d: nat, p: nat, x: nat, last: nat)
    requires d * p <= x < (d + 1) * p && last < 16
    ensures d * (p * 16) <= 16 * x + last < (d + 1) * (p * 16)
  {
    assert d * (p * 16) == 16 * (d * p) && (d + 1) * (p * 16) == 16 * ((d + 1) * p);
  }

  /** A number whose first hexadecimal digit is at most 7, with at most 63 digits. */
  ghost predicate StartsLow(x: nat) {
    exists n: nat :: n <= 62 && Pow2(4 * n) <= x < 8 * Pow2(4 * n)
  }

  /** Which canonical texts pass for a storage key: those of zero and of the numbers whose first digit is at most 7.
      So not all keys below 2^251 do. */
  lemma DisplayedKeyExact(x: nat)
    ensures IsStorageKey(Print(x)) <==> x == 0 || StartsLow(x)
  {
    hide *;
    PrintedKey(x);
    if x > 0 {
      PrintedSize(x);
      StartsLowExact(|LowerHex(x)| - 1, DigitValue(LowerHex(x)[0]), x);
    }
  }

  lemma PrintedSize(x: nat)
    requires x > 0
    ensures
      var n, d := |LowerHex(x)| - 1, DigitValue(LowerHex(x)[0]);
      && Pow2(4 * n) <= x < Pow2(4 * (n + 1))
      && d * Pow2(4 * n) <= x < (d + 1) * Pow2(4 * n)
  {
    hide LowerHex, DigitValue, Pow2, HexValue;
    LowerHexValue(x);
    HexLength(LowerHex(x));
    FirstDigit(LowerHex(x));
  }

  lemma StartsLowExact(n: nat, d: nat, x: nat)
    requires Pow2(4 * n) <= x < Pow2(4 * (n + 1))
    requires d * Pow2(4 * n) <= x < (d + 1) * Pow2(4 * n)
    ensures StartsLow(x) <==> n <= 62 && d <= 7
  {
    hide Pow2;
    AtMostSeven(d, Pow2(4 * n), x);
    if m: nat :| m <= 62 && Pow2(4 * m) <= x < 8 * Pow2(4 * m) {
      SameLength(m, n, x);
    }
  }

  lemma PrintedKey(x: nat)
    ensures IsStorageKey(Print(x)) <==> x == 0 || (|LowerHex(x)| <= 63 && DigitValue(LowerHex(x)[0]) <= 7)
  {
    var digits, text := LowerHex(x), Print(x);
    LowerHexValue(x);
    hide HexValue, LowerHex;
    LowDigit(digits[0]);
    assert text[..2] == "0x" && text[2] == digits[0] && text[3..] == digits[1..];
    assert IsHex(digits[1..]);
  }

  lemma LowDigit(c: char)
    requires IsHexDigit(c)
    ensures '0' <= c <= '7' <==> DigitValue(c) <= 7
  {
  }

  lemma {:induction false} AtMostSeven(d: nat, p: nat, x: nat)
    requires d * p <= x < (d + 1) * p
    ensures d <= 7 <==> x < 8 * p
  {
    if d <= 7 { assert (d + 1) * p <= 8 * p; } else { assert 8 * p <= d * p; }
  }

  lemma {:induction false} SameLength(m: nat, n: nat, x: nat)
    requires Pow2(4 * m) <= x < 8 * Pow2(4 * m)
    requires Pow2(4 * n) <= x < Pow2(4 * (n + 1))
    ensures m == n
  {
    Pow2Eight();
    if m < n {
      Pow2Add(4 * m, 4);
      Pow2Monotone(4 * (m + 1), 4 * n);
    } else if n < m {
      Pow2Monotone(4 * (n + 1), 4 * m);
    }
  }

  /** The key 8 is below 2^251, but its canonical text is refused, so a read of it ends before any request. */
  lemma KeyEightRefused(pl: Platform, reader: Reader, address: Field, upstream: Upstream)
    ensures 8 < Pow2(KEY_BITS) && Print(8) == "0x8" && !IsStorageKey("0x8")
    ensures pl.displayKey(8) == "0x8" ==> ProxyStorageAt(pl, reader, address, 8, upstream) == Err(1001)
  {
    PrintedEight();
    EightIsNoKey();
    hide IsStorageKey, ProxyStorageAt, Verify, Text, FromHexUnchecked, Print, Pow2;
    ProxyFails(pl, reader, address, 8, upstream);
    if ProxyStorageAt(pl, reader, address, 8, upstream).Ok? {
      ProxyVerifies(pl, reader, address, 8, upstream, ProxyStorageAt(pl, reader, address, 8, upstream).value);
    }
  }

  lemma EightIsNoKey()
    ensures !IsStorageKey("0x8")
  {
  }

  lemma PrintedEight()
    ensures 8 < Pow2(KEY_BITS) && Print(8) == "0x8"
  {
    Pow2Eight();
    Pow2Monotone(8, KEY_BITS);
    assert LowerHex(8) == "8";
  }

  /** A text with a zero after the prefix passes whatever follows: the pattern does not reach its end. */
  lemma ZeroPrefixPasses(rest: string)
    ensures IsStorageKey("0x0" + rest)
  {
    var text := "0x0" + rest;
    assert text[..2] == "0x" && text[2] == '0';
  }

  /** A zero reply is answered with zero for every key whose displayed text is padded with a zero, or is canonical
      and starts low. */
  lemma ZeroReplyAnswered(pl: Platform, reader: Reader, address: Field, key: Field, upstream: Upstream, rest: string)
    requires upstream.storage == Ok("0x0")
    requires pl.displayKey(key) == "0x0" + rest || (pl.displayKey(key) == Print(key) && StartsLow(key))
    ensures ProxyStorageAt(pl, reader, address, key, upstream) == Ok(0)
  {
    ZeroPrefixPasses(rest);
    DisplayedKeyExact(key);
    ZeroUnchecked("0x0");
    hide IsStorageKey, Verify, Text;
    ProxyVerifies(pl, reader, address, key, upstream, 0);
  }
}
