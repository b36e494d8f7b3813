/**
 * Bit strings as the calculator sees them: strings of the characters '0' and
 * '1', read as unsigned numbers with the most significant digit first.
 * This module holds the specification functions that the operations of the
 * calculator are proved against, and the facts about them.
 */
module Bits {

  /** True of the two characters a binary digit may be. */
  predicate IsBit(c: char) {
    c == '0' || c == '1'
  }

  /** Every character of `s` is a binary digit (the empty string included). */
  predicate IsBinary(s: string) {
    forall i :: 0 <= i < |s| ==> IsBit(s[i])
  }

  /** Every character of `s` is '0'. */
  predicate AllZeros(s: string) {
    forall i :: 0 <= i < |s| ==> s[i] == '0'
  }

  /** 2 to the power `n`. */
  function Pow2(n: nat): (p: nat)
    ensures p >= 1
  {
    if n == 0 then 1 else 2 * Pow2(n - 1)
  }

  /**
   * What the character `c` contributes when `k` digits follow it: 2^k if it
   * is '1', and nothing otherwise.
   */
  function Weight(c: char, k: nat): (w: nat) {
    if c == '1' then Pow2(k) else 0
  }

  /**
   * The unsigned value of a digit string, most significant digit first:
   * the sum of 2^k over the '1' characters that have k digits after them.
   */
  function Value(s: string): (v: nat) {
    if s == [] then 0 else Weight(s[0], |s| - 1) + Value(s[1..])
  }

  /**
   * The value of the digits of `s` from index `i` on, read by index rather
   * than by slicing: it is `Value(s[i..])` (see `SuffixValueIsValue`).
   */
  function SuffixValue(s: string, i: nat): (v: nat)
    requires i <= |s|
    decreases |s| - i
  {
    if i == |s| then 0 else Weight(s[i], |s| - 1 - i) + SuffixValue(s, i + 1)
  }

  /** Reading from index i is reading the slice that starts there. */
  lemma {:induction false} SuffixValueIsValue(s: string, i: nat)
    requires i <= |s|
    ensures SuffixValue(s, i) == Value(s[i..])
    decreases |s| - i
  {
    if i < |s| {
      SuffixValueIsValue(s, i + 1);
      assert s[i..][1..] == s[i + 1..];
    }
  }

  /** Prepending one digit adds its weight at the position it lands in. */
  lemma PrependDigit(c: char, s: string)
    ensures Value([c] + s) == Weight(c, |s|) + Value(s)
  {
    assert ([c] + s)[1..] == s;
  }

  /** An n-digit string is worth less than 2^n. */
  lemma {:induction false} ValueBound(s: string)
    ensures Value(s) < Pow2(|s|)
  {
    if s != [] {
      ValueBound(s[1..]);
    }
  }

  /** A string is worth 0 exactly when no character of it is '1'. */
  lemma {:induction false} ValueZero(s: string)
    ensures Value(s) == 0 <==> forall i :: 0 <= i < |s| ==> s[i] != '1'
  {
    if s != [] {
      ValueZero(s[1..]);
      assert forall i :: 1 <= i < |s| ==> s[1..][i - 1] == s[i];
    }
  }

  /** Leading zeros do not change the value. */
  lemma {:induction false} LeadingZeros(z: string, s: string)
    requires AllZeros(z)
    ensures Value(z + s) == Value(s)
  {
    if z != [] {
      assert (z + s)[0] == z[0] == '0' && (z + s)[1..] == z[1..] + s;
      assert AllZeros(z[1..]);
      LeadingZeros(z[1..], s);
      assert Value(z + s) == Weight((z + s)[0], |z + s| - 1) + Value((z + s)[1..]);
    } else {
      assert z + s == s;
    }
  }

  /** A binary string is worth 0 exactly when all its digits are '0'. */
  lemma ZeroIffAllZeros(s: string)
    requires IsBinary(s)
    ensures Value(s) == 0 <==> AllZeros(s)
  {
    ValueZero(s);
  }

  /**
   * Binary strings of the same length and the same value are equal: the
   * value of a fixed-width binary string determines every digit.
   */
  lemma {:induction false} BinaryInjective(x: string, y: string)
    requires IsBinary(x) && IsBinary(y) && |x| == |y|
    requires Value(x) == Value(y)
    ensures x == y
  {
    if x != [] {
      ValueBound(x[1..]);
      ValueBound(y[1..]);
      assert x[0] == y[0];
      assert IsBinary(x[1..]) && IsBinary(y[1..]);
      BinaryInjective(x[1..], y[1..]);
      assert x == [x[0]] + x[1..] && y == [y[0]] + y[1..];
    }
  }

  /** 2^n grows with n. */
  lemma {:induction false} PowMonotone(m: nat, n: nat)
    requires m <= n
    ensures Pow2(m) <= Pow2(n)
  {
    if m < n {
      PowMonotone(m, n - 1);
    }
  }

  /** Fewer digits give a smaller power: 2^m <= 2^(n-1) when m < n. */
  lemma ShorterIsSmaller(m: nat, n: nat)
    ensures m < n ==> Pow2(m) <= Pow2(n - 1)
  {
    if m < n {
      PowMonotone(m, n - 1);
    }
  }

  /**
   * Canonical form: two binary strings that are each either "0" or start
   * with '1' and have the same value are the same string.
   */
  lemma Canonical(x: string, y: string)
    requires IsBinary(x) && (x == "0" || (|x| > 0 && x[0] == '1'))
    requires IsBinary(y) && (y == "0" || (|y| > 0 && y[0] == '1'))
    requires Value(x) == Value(y)
    ensures x == y
  {
    if x == "0" || y == "0" {
      assert Value("0") == 0;
      ValueZero(x);
      ValueZero(y);
    } else {
      ValueBound(x);
      ValueBound(y);
      ShorterIsSmaller(|x|, |y|);
      ShorterIsSmaller(|y|, |x|);
      BinaryInjective(x, y);
    }
  }
}
