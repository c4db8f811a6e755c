/** Powers of two, bit strings (most significant bit first) and big-endian byte strings. */
module Numbers {

  function Pow2(n: nat): (r: nat)
    ensures r >= 1
  {
    if n == 0 then 1 else 2 * Pow2(n - 1)
  }

  lemma {:induction false} Pow2Add(a: nat, b: nat)
    ensures Pow2(a + b) == Pow2(a) * Pow2(b)
  {
    if b > 0 {
      Pow2Add(a, b - 1);
      assert Pow2(a + b) == 2 * Pow2(a + (b - 1));
    }
  }

  lemma {:induction false} Pow2Monotone(a: nat, b: nat)
    requires a <= b
    ensures Pow2(a) <= Pow2(b)
    decreases b
  {
    if a < b { Pow2Monotone(a, b - 1); }
  }

  lemma MulBound(p: int, d: int)
    requires p >= 0
    ensures d >= 1 ==> p * d >= p
    ensures d <= -1 ==> p * d <= -p
  {
  }

  lemma MulAssoc(a: int, b: int, c: int)
    ensures a * (b * c) == b * (a * c)
  {
  }

  lemma Distribute(p: int, a: int, b: int)
    ensures p * (a - b) == p * a - p * b
  {
  }

  /** The quotient and the remainder of a division are the only ones. */
  lemma DivModUnique(x: int, p: int, q: int, r: int)
    requires 0 <= r < p && x == p * q + r
    ensures x / p == q && x % p == r
  {
    Distribute(p, x / p, q);
    MulBound(p, x / p - q);
    assert x == p * (x / p) + x % p;
  }

  /** Division by 2 and then by `p` is division by `2 * p`. */
  lemma HalfDivMod(x: nat, p: nat)
    requires p >= 1
    ensures x / (2 * p) == (x / 2) / p
    ensures x % (2 * p) == 2 * ((x / 2) % p) + x % 2
  {
    var q, m := (x / 2) / p, (x / 2) % p;
    assert x / 2 == p * q + m;
    MulAssoc(2, p, q);
    assert (2 * p) * q == 2 * (p * q);
    DivModUnique(x, 2 * p, q, 2 * m + x % 2);
  }

  /** The number a bit string denotes, most significant bit first. */
  function NatOfBits(bits: seq<bool>): nat {
    if |bits| == 0 then 0
    else 2 * NatOfBits(bits[..|bits| - 1]) + (if bits[|bits| - 1] then 1 else 0)
  }

  /** The `n` low bits of `x`, most significant bit first. */
  function BitsOfNat(x: nat, n: nat): (bits: seq<bool>)
    ensures |bits| == n
  {
    if n == 0 then [] else BitsOfNat(x / 2, n - 1) + [x % 2 == 1]
  }

  lemma {:induction false} NatBound(bits: seq<bool>)
    ensures NatOfBits(bits) < Pow2(|bits|)
  {
    if |bits| > 0 { NatBound(bits[..|bits| - 1]); }
  }

  lemma {:induction false} NatConcat(a: seq<bool>, b: seq<bool>)
    ensures NatOfBits(a + b) == NatOfBits(a) * Pow2(|b|) + NatOfBits(b)
  {
    if |b| == 0 {
      assert a + b == a;
    } else {
      var b' := b[..|b| - 1];
      assert (a + b)[..|a + b| - 1] == a + b';
      NatConcat(a, b');
      MulAssoc(NatOfBits(a), 2, Pow2(|b'|));
    }
  }

  lemma {:induction false} BitsOfNatOfBits(bits: seq<bool>)
    ensures BitsOfNat(NatOfBits(bits), |bits|) == bits
  {
    if |bits| > 0 {
      var init := bits[..|bits| - 1];
      BitsOfNatOfBits(init);
      assert NatOfBits(bits) / 2 == NatOfBits(init);
      assert bits == init + [bits[|bits| - 1]];
    }
  }

  /** Bit strings of one length are determined by the number they denote. */
  lemma NatInjective(a: seq<bool>, b: seq<bool>)
    requires |a| == |b| && NatOfBits(a) == NatOfBits(b)
    ensures a == b
  {
    BitsOfNatOfBits(a);
    BitsOfNatOfBits(b);
  }

  lemma {:induction false} NatOfBitsOfNat(x: nat, n: nat)
    ensures NatOfBits(BitsOfNat(x, n)) == x % Pow2(n)
  {
    if n > 0 {
      var p := Pow2(n - 1);
      var bits := BitsOfNat(x, n);
      assert bits[..n - 1] == BitsOfNat(x / 2, n - 1);
      NatOfBitsOfNat(x / 2, n - 1);
      HalfDivMod(x, p);
    }
  }

  /** Dropping leading bits keeps the low ones. */
  lemma {:induction false} BitsSuffix(x: nat, n: nat, k: nat)
    requires k <= n
    ensures BitsOfNat(x, n)[k..] == BitsOfNat(x, n - k)
  {
    if k < n {
      BitsSuffix(x / 2, n - 1, k);
      assert BitsOfNat(x, n)[k..] == BitsOfNat(x / 2, n - 1)[k..] + [x % 2 == 1];
    }
  }

  /** `x` without its `k` low bits. */
  function Shift(x: nat, k: nat): nat {
    if k == 0 then x else Shift(x / 2, k - 1)
  }

  lemma {:induction false} ShiftIsDiv(x: nat, k: nat)
    ensures Shift(x, k) == x / Pow2(k)
  {
    if k > 0 {
      ShiftIsDiv(x / 2, k - 1);
      HalfDivMod(x, Pow2(k - 1));
    }
  }

  lemma {:induction false} BitsSplit(x: nat, n: nat, k: nat)
    ensures BitsOfNat(x, n + k) == BitsOfNat(Shift(x, k), n) + BitsOfNat(x, k)
  {
    if k > 0 { BitsSplit(x / 2, n, k - 1); }
  }

  /** Only the low bits matter. */
  lemma {:induction false} BitsOfMod(x: nat, k: nat)
    ensures BitsOfNat(x % Pow2(k), k) == BitsOfNat(x, k)
  {
    NatOfBitsOfNat(x, k);
    BitsOfNatOfBits(BitsOfNat(x, k));
  }

  type byte = b: nat | b < 256

  /** The number a big-endian byte string denotes. */
  function BytesValue(bytes: seq<byte>): nat {
    if |bytes| == 0 then 0
    else 256 * BytesValue(bytes[..|bytes| - 1]) + bytes[|bytes| - 1]
  }

  /** `n` big-endian bytes of `x`. */
  function ToBytes(x: nat, n: nat): (bytes: seq<byte>)
    ensures |bytes| == n
  {
    if n == 0 then [] else ToBytes(x / 256, n - 1) + [x % 256]
  }

  /** The bits of a byte string, most significant bit of each byte first. */
  function ViewBits(bytes: seq<byte>): (bits: seq<bool>)
    ensures |bits| == 8 * |bytes|
  {
    if |bytes| == 0 then []
    else ViewBits(bytes[..|bytes| - 1]) + BitsOfNat(bytes[|bytes| - 1], 8)
  }

  lemma Pow2Eight()
    ensures Pow2(4) == 16 && Pow2(8) == 256
  {
    assert Pow2(4) == 16;
    Pow2Add(4, 4);
  }

  lemma MulCommutes(a: int, b: int)
    ensures a * b == b * a
  {
  }

  lemma {:induction false} AppendBits(high: seq<bool>, x: nat, n: nat, p: nat)
    requires p == Pow2(n) && x < p
    ensures NatOfBits(high + BitsOfNat(x, n)) == p * NatOfBits(high) + x
  {
    NatConcat(high, BitsOfNat(x, n));
    NatOfBitsOfNat(x, n);
    DivModUnique(x, p, 0, x);
    MulCommutes(NatOfBits(high), p);
  }

  lemma {:induction false} BytesAsBits(bytes: seq<byte>)
    ensures NatOfBits(ViewBits(bytes)) == BytesValue(bytes)
  {
    if |bytes| > 0 {
      var init, last := bytes[..|bytes| - 1], bytes[|bytes| - 1];
      BytesAsBits(init);
      Pow2Eight();
      AppendBits(ViewBits(init), last, 8, 256);
    }
  }

  lemma {:induction false} BitsOfBytes(x: nat, n: nat)
    ensures ViewBits(ToBytes(x, n)) == BitsOfNat(x, 8 * n)
  {
    if n > 0 {
      BitsOfBytes(x / 256, n - 1);
      Pow2Eight();
      BitsSplit(x, 8 * (n - 1), 8);
      ShiftIsDiv(x, 8);
      BitsOfMod(x, 8);
      var bytes := ToBytes(x, n);
      assert bytes[..n - 1] == ToBytes(x / 256, n - 1);
    }
  }

  lemma {:induction false} BytesOfValue(x: nat, n: nat)
    ensures BytesValue(ToBytes(x, n)) == x % Pow2(8 * n)
  {
    BitsOfBytes(x, n);
    BytesAsBits(ToBytes(x, n));
    NatOfBitsOfNat(x, 8 * n);
  }

  /** Bit `j` of a byte string lies in byte `j / 8`. */
  lemma {:induction false} ViewBitsAt(bytes: seq<byte>, j: nat)
    requires j < 8 * |bytes|
    ensures ViewBits(bytes)[j] == BitsOfNat(bytes[j / 8], 8)[j % 8]
  {
    if j < 8 * (|bytes| - 1) { ViewBitsAt(bytes[..|bytes| - 1], j); }
  }
}
