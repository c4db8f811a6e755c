/** Hexadecimal text: values, minimal lower-case printing, and leading zeros. */
module Hex {
  import opened Numbers

  const LOWER_DIGITS: seq<char> := "0123456789abcdef"

  predicate IsHexDigit(c: char) {
    '0' <= c <= '9' || 'a' <= c <= 'f' || 'A' <= c <= 'F'
  }

  predicate IsHex(s: string) {
    forall i :: 0 <= i < |s| ==> IsHexDigit(s[i])
  }

  function DigitValue(c: char): (d: nat)
    ensures d < 16
  {
    if '0' <= c <= '9' then c as int - '0' as int
    else if 'a' <= c <= 'f' then c as int - 'a' as int + 10
    else if 'A' <= c <= 'F' then c as int - 'A' as int + 10
    else 0
  }

  function LowerDigit(d: nat): (c: char)
    requires d < 16
    ensures DigitValue(c) == d && IsHexDigit(c) && LowerCase(c) == c
    ensures c == '0' <==> d == 0
  {
    LOWER_DIGITS[d]
  }

  function LowerCase(c: char): char {
    if 'A' <= c <= 'F' then (c as int + 32) as char else c
  }

  function ToLower(s: string): (r: string)
    ensures |r| == |s|
  {
    seq(|s|, i requires 0 <= i < |s| => LowerCase(s[i]))
  }

  /** The number a hexadecimal text denotes. */
  function HexValue(s: string): nat {
    if |s| == 0 then 0
    else 16 * HexValue(s[..|s| - 1]) + DigitValue(s[|s| - 1])
  }

  /** Rust's `{:x}`: lower-case digits, no leading zero. */
  function LowerHex(x: nat): (s: string)
    ensures |s| >= 1
  {
    if x < 16 then [LowerDigit(x)] else LowerHex(x / 16) + [LowerDigit(x % 16)]
  }

  /** `hex::encode`: two lower-case digits a byte. */
  function Encode(bytes: seq<byte>): (s: string)
    ensures |s| == 2 * |bytes|
  {
    if |bytes| == 0 then ""
    else
      var last := bytes[|bytes| - 1];
      Encode(bytes[..|bytes| - 1]) + [LowerDigit(last / 16), LowerDigit(last % 16)]
  }

  /** `trim_start_matches('0')` */
  function TrimZeros(s: string): (r: string)
    ensures |r| <= |s| && r == s[|s| - |r|..]
    ensures r != "" ==> r[0] != '0'
  {
    if s != "" && s[0] == '0' then TrimZeros(s[1..]) else s
  }

  lemma {:induction false} TrimKeepsValue(s: string)
    ensures HexValue(TrimZeros(s)) == HexValue(s)
  {
    if s != "" && s[0] == '0' {
      TrimKeepsValue(s[1..]);
      DropZero(s);
    }
  }

  lemma {:induction false} DropZero(s: string)
    requires s != "" && s[0] == '0'
    ensures HexValue(s[1..]) == HexValue(s)
  {
    if |s| > 1 {
      DropZero(s[..|s| - 1]);
      assert s[1..][..|s| - 2] == s[..|s| - 1][1..];
    }
  }

  lemma {:induction false} LowerHexValue(x: nat)
    ensures HexValue(LowerHex(x)) == x
    ensures IsHex(LowerHex(x)) && ToLower(LowerHex(x)) == LowerHex(x)
    ensures LowerHex(x)[0] == '0' <==> x == 0
  {
    if x >= 16 {
      LowerHexValue(x / 16);
      var init := LowerHex(x / 16);
      assert LowerHex(x)[..|init|] == init;
    } else {
      assert HexValue("") == 0;
      assert LowerHex(x)[..0] == "";
    }
  }

  lemma DigitRoundTrip(c: char)
    requires IsHexDigit(c)
    ensures LowerDigit(DigitValue(c)) == LowerCase(c)
    ensures DigitValue(c) == 0 <==> c == '0'
  {
  }

  lemma OneDigit(s: string)
    requires |s| == 1
    ensures HexValue(s) == DigitValue(s[0]) && LowerHex(HexValue(s)) == [LowerDigit(DigitValue(s[0]))]
  {
    assert HexValue(s[..0]) == 0;
  }

  lemma {:induction false} AppendDigit(x: nat, d: nat)
    requires x > 0 && d < 16
    ensures LowerHex(16 * x + d) == LowerHex(x) + [LowerDigit(d)]
  {
    assert (16 * x + d) / 16 == x && (16 * x + d) % 16 == d;
  }

  /** Printing the value of a text without leading zeros lower-cases it. */
  lemma {:induction false} LowerHexOfValue(s: string)
    requires s != "" && IsHex(s)
    requires |s| == 1 || s[0] != '0'
    ensures LowerHex(HexValue(s)) == ToLower(s)
    ensures s[0] != '0' ==> HexValue(s) > 0
  {
    var init, last := s[..|s| - 1], s[|s| - 1];
    DigitRoundTrip(last);
    assert ToLower(s) == ToLower(init) + [LowerCase(last)];
    if |s| == 1 {
      OneDigit(s);
    } else {
      hide LowerDigit, LowerCase, ToLower, IsHexDigit, DigitValue;
      LowerHexOfValue(init);
      AppendDigit(HexValue(init), DigitValue(last));
    }
  }

  /** A text of `n` digits, the first not zero, denotes a number of `n` digits. */
  lemma {:induction false} HexLength(s: string)
    ensures HexValue(s) < Pow2(4 * |s|)
    ensures s != "" && IsHex(s) && s[0] != '0' ==> HexValue(s) >= Pow2(4 * (|s| - 1))
  {
    if s != "" {
      var init := s[..|s| - 1];
      HexLength(init);
      Pow2Eight();
      Pow2Add(4 * |init|, 4);
      if |s| > 1 { Pow2Add(4 * (|init| - 1), 4); }
    }
  }

  lemma {:induction false} EncodeValue(bytes: seq<byte>)
    ensures HexValue(Encode(bytes)) == BytesValue(bytes)
    ensures IsHex(Encode(bytes)) && ToLower(Encode(bytes)) == Encode(bytes)
  {
    if |bytes| > 0 {
      var init, last := bytes[..|bytes| - 1], bytes[|bytes| - 1];
      EncodeValue(init);
      var text := Encode(bytes);
      assert text[..|text| - 1] == Encode(init) + [LowerDigit(last / 16)];
      assert text[..|text| - 1][..|text| - 2] == Encode(init);
    }
  }
}
