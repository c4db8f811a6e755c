/** `gen::Felt`, the textual field element of the RPC types, and the printers that build one. */
module FeltText {
  import opened Wrappers
  import opened Numbers
  import opened Hex

  const INVALID_TEXT := 1001

  /** The most bits 63 hexadecimal digits can hold. */
  const FELT_BITS: nat := 252

  predicate HasPrefix(s: string) {
    |s| >= 2 && s[..2] == "0x"
  }

  /** What is left once an optional "0x" is removed. */
  function Unprefixed(s: string): string {
    if HasPrefix(s) then s[2..] else s
  }

  /** The regular expression of a FELT: "0x0", or 1 to 63 digits the first of which is not zero. */
  predicate IsFelt(s: string) {
    && HasPrefix(s)
    && var digits := s[2..];
       || digits == "0"
       || (1 <= |digits| <= 63 && IsHex(digits) && digits[0] != '0')
  }

  type Felt = s: string | IsFelt(s) witness "0x0"

  function Fix(value: string): string {
    var unprefixed := Unprefixed(value);
    if unprefixed == "" then "0x0"
    else if unprefixed == "0" then value
    else if unprefixed[0] == '0' then "0x" + TrimZeros(unprefixed)
    else value
  }

  /** `Felt::try_new` */
  function TryNew(value: string): Outcome<Felt> {
    var fixed := Fix(value);
    if IsFelt(fixed) then Ok(fixed) else Err(INVALID_TEXT)
  }

  /** The number a felt denotes. */
  function Value(f: Felt): nat {
    HexValue(f[2..])
  }

  /** `format!("0x{:x}", x)` */
  function Print(x: nat): string {
    "0x" + LowerHex(x)
  }

  /** `TryFrom<&StarkFelt>`, on the big-endian bytes of the field element */
  function FromStarkBytes(bytes: seq<byte>): Outcome<Felt> {
    var trimmed := TrimZeros(Encode(bytes));
    var digits := if trimmed == "" then "0" else trimmed;
    TryNew("0x" + digits)
  }

  /** `as_felt` of the client */
  function AsFelt(bytes: seq<byte>): Outcome<Felt> {
    TryNew("0x" + TrimZeros(Encode(bytes)))
  }

  /** Printing the number of a felt gives the felt back in lower case. */
  lemma PrintOfValue(f: Felt)
    ensures Print(Value(f)) == ToLower(f)
    ensures Value(f) < Pow2(FELT_BITS)
    ensures Value(f) == 0 <==> f == "0x0"
  {
    var digits := f[2..];
    assert f == "0x" + digits;
    DigitsOfFelt(digits);
    LowerPrefix(digits);
  }

  lemma DigitsOfFelt(digits: string)
    requires digits == "0" || (1 <= |digits| <= 63 && IsHex(digits) && digits[0] != '0')
    ensures LowerHex(HexValue(digits)) == ToLower(digits)
    ensures HexValue(digits) < Pow2(FELT_BITS)
    ensures HexValue(digits) == 0 <==> digits == "0"
  {
    hide HexValue, LowerHex, Pow2, ToLower;
    LowerHexOfValue(digits);
    HexLength(digits);
    Pow2Monotone(4 * |digits|, FELT_BITS);
    ZeroText();
  }

  lemma LowerPrefix(digits: string)
    ensures ToLower("0x" + digits) == "0x" + ToLower(digits)
  {
  }

  /** A printed number is a felt exactly when it has at most 63 digits, and it denotes that number. */
  lemma PrintIsFelt(x: nat)
    ensures IsFelt(Print(x)) <==> x < Pow2(FELT_BITS)
    ensures x < Pow2(FELT_BITS) ==> TryNew(Print(x)) == Ok(Print(x)) && Value(Print(x)) == x
  {
    var digits := LowerHex(x);
    LowerHexValue(x);
    HexLength(digits);
    assert Print(x)[2..] == digits;
    if |digits| <= 63 {
      Pow2Monotone(4 * |digits|, FELT_BITS);
    } else {
      Pow2Monotone(FELT_BITS, 4 * (|digits| - 1));
    }
    if x == 0 { assert digits == "0"; }
  }

  /** Two felts denote one number exactly when they are the same text up to letter case. */
  lemma EqualValueIsEqualText(f: Felt, g: Felt)
    ensures Value(f) == Value(g) <==> ToLower(f) == ToLower(g)
  {
    PrintOfValue(f);
    PrintOfValue(g);
    LowerHexValue(Value(f));
    LowerHexValue(Value(g));
    assert forall x: nat :: Print(x)[2..] == LowerHex(x);
  }

  /** Which texts `try_new` takes: the number of digits counts after leading zeros are dropped, a run of
      two zeros or more is refused, and a text without prefix passes only if empty or with a leading zero. */
  predicate Acceptable(value: string) {
    var digits := Unprefixed(value);
    || digits == "" || value == "0x0"
    || (IsHex(digits) && 1 <= |TrimZeros(digits)| <= 63 && (HasPrefix(value) || digits[0] == '0'))
  }

  lemma ZeroText()
    ensures HexValue("") == HexValue("0") == 0 && LowerHex(0) == "0" && TrimZeros("0") == ""
    ensures Value("0x0") == 0
  {
    assert ("0")[..0] == "" && ("0x0")[2..] == "0";
  }

  lemma ZeroFixed(value: string)
    requires Unprefixed(value) == "" || Unprefixed(value) == "0"
    ensures TryNew(value) == if value == "0" then Err(INVALID_TEXT) else Ok("0x0")
  {
    assert HasPrefix(value) ==> value == "0x" + value[2..];
    assert Unprefixed(value) == "0" && HasPrefix(value) ==> value == "0x0";
    assert ("0x0")[2..] == "0";
  }

  lemma ZeroAcceptable(value: string)
    requires Unprefixed(value) == "" || Unprefixed(value) == "0"
    ensures Acceptable(value) <==> value != "0"
    ensures HexValue(Unprefixed(value)) == 0
  {
    ZeroText();
    hide HexValue, LowerHex;
    var digits := Unprefixed(value);
    assert HasPrefix(value) ==> value == "0x" + digits;
    assert digits == "0" ==> value == "0" || value == "0x0";
    assert digits == "0" ==> |TrimZeros(digits)| == 0;
  }

  lemma ZeroCases(value: string)
    requires Unprefixed(value) == "" || Unprefixed(value) == "0"
    ensures TryNew(value).Ok? <==> Acceptable(value)
    ensures TryNew(value).Ok? ==> TryNew(value).value == "0x0" && Value("0x0") == HexValue(Unprefixed(value))
  {
    ZeroText();
    ZeroFixed(value);
    ZeroAcceptable(value);
    hide *;
  }

  lemma PaddedCase(value: string)
    requires |Unprefixed(value)| > 1 && Unprefixed(value)[0] == '0'
    ensures TryNew(value).Ok? <==> Acceptable(value)
    ensures TryNew(value).Ok? ==> Value(TryNew(value).value) == HexValue(Unprefixed(value))
  {
    hide Fix, HexValue, IsHex, Unprefixed, TrimZeros;
    var digits := Unprefixed(value);
    var trimmed := TrimZeros(digits);
    TrimKeepsValue(digits);
    TrimKeepsHex(digits);
    PaddedFix(value, digits, trimmed);
  }

  lemma PaddedFix(value: string, digits: string, trimmed: string)
    requires digits == Unprefixed(value) && trimmed == TrimZeros(digits) && |digits| > 1 && digits[0] == '0'
    ensures Fix(value) == "0x" + trimmed && Fix(value)[2..] == trimmed && HasPrefix(Fix(value))
    ensures trimmed != "0" && (trimmed != "" ==> trimmed[0] != '0')
    ensures digits != "" && value != "0x0"
  {
    hide TrimZeros, HexValue, IsHex;
    assert trimmed != "" ==> trimmed[0] != '0';
    assert ("0x" + trimmed)[2..] == trimmed;
  }

  lemma {:induction false} TrimKeepsHex(digits: string)
    ensures IsHex(digits) <==> IsHex(TrimZeros(digits))
  {
    if digits != "" && digits[0] == '0' {
      TrimKeepsHex(digits[1..]);
      assert forall i :: 0 < i < |digits| ==> digits[i] == digits[1..][i - 1];
    }
  }

  lemma PlainCase(value: string)
    requires Unprefixed(value) != "" && Unprefixed(value)[0] != '0'
    ensures TryNew(value).Ok? <==> Acceptable(value)
    ensures TryNew(value).Ok? ==> Value(TryNew(value).value) == HexValue(Unprefixed(value))
  {
    assert Fix(value) == value;
    assert TrimZeros(Unprefixed(value)) == Unprefixed(value);
  }

  /** `try_new` takes exactly the acceptable texts and keeps the number they denote. */
  lemma TryNewExact(value: string)
    ensures TryNew(value).Ok? <==> Acceptable(value)
    ensures TryNew(value).Ok? ==> Value(TryNew(value).value) == HexValue(Unprefixed(value))
    ensures !TryNew(value).Ok? ==> TryNew(value) == Err(1001)
  {
    var digits := Unprefixed(value);
    if digits == "" || digits == "0" {
      ZeroCases(value);
    } else if digits[0] == '0' {
      PaddedCase(value);
    } else {
      PlainCase(value);
    }
  }

  /** A felt read again is unchanged. */
  lemma TryNewIdempotent(f: Felt)
    ensures TryNew(f) == Ok(f)
  {
    assert f == "0x" + f[2..];
  }

  /** Every "0x" text of nonzero value with at most 63 digits after its zeros is taken. */
  lemma NonzeroAccepted(digits: string)
    requires IsHex(digits) && HexValue(digits) > 0 && |TrimZeros(digits)| <= 63
    ensures TryNew("0x" + digits).Ok? && Value(TryNew("0x" + digits).value) == HexValue(digits)
  {
    TrimKeepsValue(digits);
    assert ("0x" + digits)[2..] == digits;
    TryNewExact("0x" + digits);
  }

  /** Normalising two texts that denote one number gives felts that differ in letter case at most. */
  lemma EqualNumbersNormaliseAlike(a: string, b: string)
    requires TryNew(a).Ok? && TryNew(b).Ok?
    ensures HexValue(Unprefixed(a)) == HexValue(Unprefixed(b))
       <==> ToLower(TryNew(a).value) == ToLower(TryNew(b).value)
  {
    TryNewExact(a);
    TryNewExact(b);
    EqualValueIsEqualText(TryNew(a).value, TryNew(b).value);
  }

  /** The digits of the result are those given, as they are written, without the leading zeros. */
  lemma TryNewKeepsDigits(value: string)
    requires TryNew(value).Ok?
    ensures TryNew(value).value == "0x0" || TryNew(value).value == "0x" + TrimZeros(Unprefixed(value))
  {
    var digits := Unprefixed(value);
    if digits == "" || digits == "0" {
      ZeroCases(value);
    } else if digits[0] == '0' {
      PaddedFix(value, digits, TrimZeros(digits));
    } else {
      assert value == "0x" + digits;
    }
  }

  /** The digits are those of base 16 in both cases: which one-digit texts are taken. */
  lemma OneDigitTaken(c: char)
    ensures TryNew("0x" + [c]).Ok? <==> c in "0123456789abcdefABCDEF"
  {
    assert ("0x" + [c])[2..] == [c];
    TryNewExact("0x" + [c]);
    if c == '0' {
      assert "0x" + [c] == "0x0";
    } else {
      assert [c] != "" && TrimZeros([c]) == [c] && [c][0] == c;
      assert IsHex([c]) <==> IsHexDigit(c);
    }
    HexDigitsListed(c);
  }

  lemma HexDigitsListed(c: char)
    ensures IsHexDigit(c) <==> c in "0123456789abcdefABCDEF"
  {
  }

  lemma {:induction false} TrimLower(s: string)
    ensures TrimZeros(ToLower(s)) == ToLower(TrimZeros(s))
  {
    if s == "" {
      assert ToLower(s) == "";
    } else {
      assert ToLower(s)[0] == LowerCase(s[0]) && ToLower(s)[1..] == ToLower(s[1..]);
      hide ToLower;
      if s[0] == '0' { TrimLower(s[1..]); }
    }
  }

  lemma LowerIsHex(s: string)
    ensures IsHex(ToLower(s)) <==> IsHex(s)
  {
    assert forall i :: 0 <= i < |s| ==> (IsHexDigit(ToLower(s)[i]) <==> IsHexDigit(s[i]));
  }

  /** Letter case does not decide whether a text is taken. */
  lemma CaseIsIrrelevant(value: string)
    ensures TryNew(ToLower(value)).Ok? <==> TryNew(value).Ok?
  {
    var digits, lower := Unprefixed(value), ToLower(value);
    assert lower[..|lower|] == lower;
    assert HasPrefix(value) ==> value == "0x" + digits;
    if |value| >= 2 { assert lower[0] == LowerCase(value[0]) && lower[1] == LowerCase(value[1]); }
    assert HasPrefix(lower) <==> HasPrefix(value) by {
      assert HasPrefix(lower) <==> |value| >= 2 && lower[0] == '0' && lower[1] == 'x';
      assert HasPrefix(value) <==> |value| >= 2 && value[0] == '0' && value[1] == 'x';
    }
    assert Unprefixed(lower) == ToLower(digits);
    assert lower == "0x0" <==> value == "0x0" by { SameZero(value); }
    TryNewExact(value);
    TryNewExact(lower);
    TrimLower(digits);
    LowerIsHex(digits);
    if digits != "" { assert ToLower(digits)[0] == LowerCase(digits[0]); }
    hide TryNew, IsHex, TrimZeros, ToLower, HasPrefix, Unprefixed;
  }

  lemma SameZero(value: string)
    ensures ToLower(value) == "0x0" <==> value == "0x0"
  {
    if ToLower(value) == "0x0" {
      var lower := ToLower(value);
      assert |value| == 3 && lower[0] == '0' && lower[1] == 'x' && lower[2] == '0';
      assert LowerCase(value[0]) == '0' && LowerCase(value[1]) == 'x' && LowerCase(value[2]) == '0';
      assert value == "0x0";
    }
  }

  lemma LowerSuffix(s: string, k: nat)
    requires k <= |s| && ToLower(s) == s
    ensures ToLower(s[k..]) == s[k..]
  {
    assert forall i :: 0 <= i < |s| ==> s[i] == LowerCase(s[i]) by {
      assert forall i :: 0 <= i < |s| ==> ToLower(s)[i] == LowerCase(s[i]);
    }
  }

  /** A lower-case text without its leading zeros is how its number prints. */
  lemma TrimmedIsPrinted(text: string)
    requires IsHex(text) && ToLower(text) == text
    ensures TrimZeros(text) == if HexValue(text) == 0 then "" else LowerHex(HexValue(text))
  {
    hide TrimZeros, LowerHex, ToLower, IsHex;
    var trimmed := TrimZeros(text);
    TrimKeepsValue(text);
    if trimmed == "" {
      assert HexValue(trimmed) == 0;
    } else {
      hide HexValue;
      TrimKeepsHex(text);
      LowerSuffix(text, |text| - |trimmed|);
      LowerHexOfValue(trimmed);
    }
  }

  /** The two printers agree on every byte string; they succeed exactly below 2^252, with the
      lower-case text of the number. */
  lemma PrintersAgree(bytes: seq<byte>)
    ensures AsFelt(bytes) == FromStarkBytes(bytes)
    ensures AsFelt(bytes) ==
      if BytesValue(bytes) < Pow2(FELT_BITS) then Ok(Print(BytesValue(bytes))) else Err(INVALID_TEXT)
  {
    var x := BytesValue(bytes);
    EncodeValue(bytes);
    TrimmedIsPrinted(Encode(bytes));
    PrintIsFelt(x);
    LowerHexValue(x);
    if x == 0 {
      ZeroText();
      PrintedZero(TrimZeros(Encode(bytes)));
      Pow2Monotone(0, FELT_BITS);
    } else {
      PrintOutcome(x);
    }
  }

  lemma PrintedZero(trimmed: string)
    requires trimmed == ""
    ensures TryNew("0x" + trimmed) == TryNew("0x" + "0") == Ok("0x0")
  {
    var short, long := "0x" + trimmed, "0x" + "0";
    assert short[2..] == trimmed && long[2..] == "0";
    ZeroFixed(short);
    ZeroFixed(long);
  }

  lemma PrintOutcome(x: nat)
    requires x > 0
    ensures TryNew(Print(x)) == if x < Pow2(FELT_BITS) then Ok(Print(x)) else Err(INVALID_TEXT)
  {
    PrintIsFelt(x);
    LowerHexValue(x);
    assert Print(x)[2..] == LowerHex(x);
  }
}
