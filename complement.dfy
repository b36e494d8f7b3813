/**
 * The calculation functions of the ones'/two's complement calculator
 * (1sAND2s/script.js). Functions that are a single expression in the
 * script are Dafny functions; those that loop over the string are methods
 * whose loops carry the invariants that tie them to `Bits.Value`.
 */
module Complement {
  import opened Bits

  /**
   * The input pattern `^[01]+$`: one binary digit followed by zero or more
   * of them, matched from the left.
   */
  function IsValidBinary(s: string): (b: bool)
    ensures b <==> |s| > 0 && IsBinary(s)
  {
    |s| > 0 && IsBit(s[0]) && (|s| == 1 || IsValidBinary(s[1..]))
  }

  /**
   * Skips leading '0' characters while more than one character remains,
   * and returns the rest of the string.
   */
  method RemoveLeadingZeros(s: string) returns (r: string)
    ensures |r| <= |s| && r == s[|s| - |r|..]
    ensures AllZeros(s[..|s| - |r|])
    ensures |s| > 0 ==> |r| > 0
    ensures |r| > 1 ==> r[0] != '0'
    ensures Value(r) == Value(s)
    ensures IsValidBinary(s) ==> IsBinary(r) && (r == "0" || r[0] == '1')
  {
    var start := 0;
    while start < |s| - 1 && s[start] == '0'
      invariant 0 <= start <= |s|
      invariant |s| > 0 ==> start <= |s| - 1
      invariant AllZeros(s[..start])
    {
      start := start + 1;
    }
    r := s[start..];
    assert s == s[..start] + r;
    LeadingZeros(s[..start], r);
    assert forall k :: 0 <= k < |r| ==> r[k] == s[start + k];
    if |r| == 1 && r[0] == '0' {
      assert r == "0";
    }
  }

  /** Maps '0' to '1' and every other character to '0'. */
  function OnesComplement(s: string): (r: string)
    ensures |r| == |s| && IsBinary(r)
    ensures IsBinary(s) ==> forall i :: 0 <= i < |s| ==> r[i] != s[i]
  {
    seq(|s|, i requires 0 <= i < |s| => if s[i] == '0' then '1' else '0')
  }

  /** Inverting the bits of a binary string twice gives it back. */
  lemma OnesComplementTwice(s: string)
    requires IsBinary(s)
    ensures OnesComplement(OnesComplement(s)) == s
  {
  }

  /** The ones' complement of an n-bit string of value v is worth 2^n - 1 - v. */
  lemma {:induction false} OnesComplementValue(s: string)
    requires IsBinary(s)
    ensures Value(OnesComplement(s)) == Pow2(|s|) - 1 - Value(s)
  {
    if s != [] {
      assert OnesComplement(s)[1..] == OnesComplement(s[1..]);
      OnesComplementValue(s[1..]);
    }
  }

  /** Left-pads `s` with '0' until it is `length` characters long. */
  method PadBinary(s: string, length: int) returns (r: string)
    ensures |r| == if |s| < length then length else |s|
    ensures r[|r| - |s|..] == s && AllZeros(r[..|r| - |s|])
    ensures Value(r) == Value(s)
    ensures IsBinary(s) ==> IsBinary(r)
    ensures |s| >= length ==> r == s
  {
    r := s;
    while |r| < length
      invariant |s| <= |r| <= if |s| < length then length else |s|
      invariant r[|r| - |s|..] == s && AllZeros(r[..|r| - |s|])
      decreases length - |r|
    {
      r := "0" + r;
    }
    assert r == r[..|r| - |s|] + s;
    LeadingZeros(r[..|r| - |s|], s);
  }

  /** `parseInt` of a single binary digit. */
  function ParseBit(c: char): (d: nat)
    requires IsBit(c)
    ensures d <= 1 && (d == 1 <==> c == '1')
  {
    if c == '1' then 1 else 0
  }

  /** The digit character that `addBinary` concatenates for a 0 or 1. */
  function DigitChar(d: nat): (c: char)
    requires d <= 1
    ensures IsBit(c) && (c == '1' <==> d == 1)
  {
    if d == 0 then '0' else '1'
  }

  /** The larger of two lengths. */
  function Max(a: nat, b: nat): nat {
    if a < b then b else a
  }

  /** The weight of a carry of 0 or 1 that sits just above `n` digits. */
  function Carried(carry: nat, n: nat): (w: nat)
    requires carry <= 1
  {
    if carry == 0 then 0 else Pow2(n)
  }

  /**
   * The arithmetic of one adder column: the digit `bit` written at weight
   * 2^k and the carry `out` moved up to weight 2^(k+1), where
   * bit + 2 * out is the column's sum, are worth what the two input digits
   * and the incoming carry were worth.
   */
  lemma ColumnWeights(cx: char, cy: char, carry: nat, bit: nat, out: nat, k: nat)
    requires IsBit(cx) && IsBit(cy) && carry <= 1 && bit <= 1 && out <= 1
    requires bit + 2 * out == ParseBit(cx) + ParseBit(cy) + carry
    ensures Weight(DigitChar(bit), k) + Carried(out, k + 1)
            == Weight(cx, k) + Weight(cy, k) + Carried(carry, k)
  {
    assert Pow2(k + 1) == 2 * Pow2(k);
  }

  /**
   * One column of the adder, the one at index i, preserves "digits so far
   * plus carry equal the value of the columns consumed so far"; the column
   * sum is split into the digit `bit` and the carry `out`.
   */
  lemma AddColumn(x: string, y: string, i: nat, result: string, carry: nat, bit: nat, out: nat)
    requires i < |x| == |y| && IsBit(x[i]) && IsBit(y[i]) && carry <= 1
    requires bit <= 1 && out <= 1 && bit + 2 * out == ParseBit(x[i]) + ParseBit(y[i]) + carry
    requires |result| == |x| - 1 - i
    requires Value(result) + Carried(carry, |result|) == SuffixValue(x, i + 1) + SuffixValue(y, i + 1)
    ensures Value([DigitChar(bit)] + result) + Carried(out, |result| + 1)
            == SuffixValue(x, i) + SuffixValue(y, i)
  {
    ColumnWeights(x[i], y[i], carry, bit, out, |result|);
    PrependDigit(DigitChar(bit), result);
  }

  /** A binary digit in front of a binary string gives a binary string. */
  lemma PrependBit(c: char, s: string)
    requires IsBit(c) && IsBinary(s)
    ensures IsBinary([c] + s)
  {
  }

  /**
   * After the last column: a carry of 1 written in front of the digits gives
   * the whole sum, and it is there exactly when the sum needs one more digit.
   */
  lemma AddFinish(x: string, y: string, result: string, carry: nat)
    requires carry <= 1 && IsBinary(result) && |result| == |x| == |y|
    requires Value(result) + Carried(carry, |result|) == SuffixValue(x, 0) + SuffixValue(y, 0)
    ensures var total := Value(x) + Value(y);
            var r := if carry > 0 then [DigitChar(carry)] + result else result;
            IsBinary(r) && Value(r) == total
            && |r| == if total < Pow2(|x|) then |x| else |x| + 1
  {
    SuffixValueIsValue(x, 0);
    SuffixValueIsValue(y, 0);
    assert x[0..] == x && y[0..] == y;
    ValueBound(result);
    if carry > 0 {
      PrependDigit(DigitChar(carry), result);
    }
  }

  /**
   * Ripple-carry addition: both strings are padded to the longer length,
   * added column by column from the right, and a final carry of 1 becomes
   * an extra leading digit.
   */
  method AddBinary(a: string, b: string) returns (r: string)
    requires IsBinary(a) && IsBinary(b)
    ensures IsBinary(r)
    ensures Value(r) == Value(a) + Value(b)
    ensures |r| == if Value(a) + Value(b) < Pow2(Max(|a|, |b|)) then Max(|a|, |b|)
                   else Max(|a|, |b|) + 1
  {
    var maxLength := Max(|a|, |b|);
    var x := PadBinary(a, maxLength);
    var y := PadBinary(b, maxLength);
    assert |x| == maxLength == |y|;
    var result := "";
    var carry: nat := 0;
    var i: int := maxLength - 1;
    while i >= 0
      invariant -1 <= i < maxLength
      invariant |result| == maxLength - 1 - i
      invariant IsBinary(result)
      invariant carry <= 1
      invariant Value(result) + Carried(carry, |result|) == SuffixValue(x, i + 1) + SuffixValue(y, i + 1)
    {
      var sum := ParseBit(x[i]) + ParseBit(y[i]) + carry;
      var bit, out := sum % 2, sum / 2;
      AddColumn(x, y, i, result, carry, bit, out);
      PrependBit(DigitChar(bit), result);
      result := [DigitChar(bit)] + result;
      carry := out;
      i := i - 1;
    }
    assert i == -1 && |result| == maxLength;
    AddFinish(x, y, result, carry);
    if carry > 0 {
      result := [DigitChar(carry)] + result;
    }
    r := result;
  }

  /** The two's complement: the ones' complement plus one. */
  method CalculateTwosComplement(s: string) returns (r: string)
    ensures IsBinary(r)
    ensures Value(r) == Value(OnesComplement(s)) + 1
    ensures IsBinary(s) ==> Value(r) == Pow2(|s|) - Value(s)
    ensures IsBinary(s) ==> |r| == if AllZeros(s) then |s| + 1 else |s|
  {
    var onesComp := OnesComplement(s);
    r := AddBinary(onesComp, "1");
    if IsBinary(s) {
      OnesComplementValue(s);
      ZeroIffAllZeros(s);
      ValueBound(s);
      assert Value("1") == 1;
    }
  }

  /**
   * Reads a digit string as an unsigned number: from the right, every '1'
   * adds 2 to the power of its distance from the end.
   */
  method BinaryToDecimal(s: string) returns (decimal: nat)
    ensures decimal == Value(s)
    ensures decimal < Pow2(|s|)
  {
    decimal := 0;
    var power: nat := 0;
    var i: int := |s| - 1;
    while i >= 0
      invariant -1 <= i < |s|
      invariant power == |s| - 1 - i
      invariant decimal == SuffixValue(s, i + 1)
      invariant decimal < Pow2(power)
    {
      if s[i] == '1' {
        decimal := decimal + Pow2(power);
      }
      power := power + 1;
      i := i - 1;
    }
    SuffixValueIsValue(s, 0);
    assert s[0..] == s;
  }
}
