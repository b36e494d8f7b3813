/**
 * The calculate handler of the complement calculator (1sAND2s/script.js):
 * trim the input, reject it when empty or not binary, strip leading zeros,
 * and compute the ones' and two's complements with their decimal values.
 * Reading the text box and writing the page are left to the caller; the
 * handler here takes the raw text and returns what would be displayed.
 */
module Calculator {
  import opened Bits
  import opened Complement

  /**
   * The characters `String.prototype.trim` removes: the white space and
   * line terminator characters of ECMAScript (tab, vertical tab, form feed,
   * space, no-break space, byte order mark, the Unicode space separators,
   * line feed, carriage return, line and paragraph separators).
   */
  predicate IsWhiteSpace(c: char) {
    || c == '\t' || c == '\U{000B}' || c == '\U{000C}' || c == ' '
    || c == '\U{00A0}' || c == '\U{FEFF}' || c == '\U{1680}'
    || ('\U{2000}' <= c <= '\U{200A}')
    || c == '\U{202F}' || c == '\U{205F}' || c == '\U{3000}'
    || c == '\n' || c == '\r' || c == '\U{2028}' || c == '\U{2029}'
  }

  /** Every character of `s` is white space. */
  predicate AllWhiteSpace(s: string) {
    forall k :: 0 <= k < |s| ==> IsWhiteSpace(s[k])
  }

  /** The first index at or after `i` that does not hold white space, or |s|. */
  function SkipSpaceForward(s: string, i: nat): (j: nat)
    requires i <= |s|
    ensures i <= j <= |s|
    ensures forall k :: i <= k < j ==> IsWhiteSpace(s[k])
    ensures j < |s| ==> !IsWhiteSpace(s[j])
    decreases |s| - i
  {
    if i < |s| && IsWhiteSpace(s[i]) then SkipSpaceForward(s, i + 1) else i
  }

  /**
   * Going back from index `j` but not below `lo`: the end of the last
   * character before `j` that is not white space, or `lo`.
   */
  function SkipSpaceBackward(s: string, lo: nat, j: nat): (e: nat)
    requires lo <= j <= |s|
    ensures lo <= e <= j
    ensures forall k :: e <= k < j ==> IsWhiteSpace(s[k])
    ensures e > lo ==> !IsWhiteSpace(s[e - 1])
    decreases j - lo
  {
    if j > lo && IsWhiteSpace(s[j - 1]) then SkipSpaceBackward(s, lo, j - 1) else j
  }

  /**
   * `r` is the piece of `s` that starts at `front`, with only white space
   * before it and after it.
   */
  predicate TrimmedAt(s: string, r: string, front: nat) {
    && front + |r| <= |s| && r == s[front..front + |r|]
    && (forall k :: 0 <= k < front ==> IsWhiteSpace(s[k]))
    && (forall k :: front + |r| <= k < |s| ==> IsWhiteSpace(s[k]))
  }

  /** `String.prototype.trim`: white space removed from both ends. */
  function Trim(s: string): (r: string)
    ensures exists front :: TrimmedAt(s, r, front)
    ensures r == [] || (!IsWhiteSpace(r[0]) && !IsWhiteSpace(r[|r| - 1]))
    ensures r == [] <==> AllWhiteSpace(s)
  {
    var front := SkipSpaceForward(s, 0);
    var back := SkipSpaceBackward(s, front, |s|);
    assert TrimmedAt(s, s[front..back], front);
    s[front..back]
  }

  /** Why the handler refuses an input. */
  datatype CalcError =
    | EmptyInput     // nothing but white space was entered
    | InvalidBinary  // something other than 0s and 1s was entered

  /** The six values the page shows after a successful calculation. */
  datatype Calculation = Calculation(
    binary: string,
    originalDecimal: nat,
    onesComplement: string,
    onesDecimal: nat,
    twosComplement: string,
    twosDecimal: nat)

  datatype Result<T, E> = Ok(value: T) | Err(error: E)

  /** The decimal values stated against the normalised input. */
  predicate Describes(c: Calculation, input: string) {
    var n := |c.binary|;
    && IsBinary(c.binary)
    && n <= |input| && c.binary == input[|input| - n..]
    && AllZeros(input[..|input| - n])
    && (c.binary == "0" || (n > 0 && c.binary[0] == '1'))
    && c.originalDecimal == Value(c.binary) == Value(input)
    && c.onesComplement == OnesComplement(c.binary)
    && c.onesDecimal == Value(c.onesComplement) == Pow2(n) - 1 - c.originalDecimal
    && IsBinary(c.twosComplement)
    && c.twosDecimal == Value(c.twosComplement) == Pow2(n) - c.originalDecimal
    && |c.twosComplement| == (if c.originalDecimal == 0 then n + 1 else n)
  }

  /**
   * Validates the trimmed input, removes its leading zeros and computes
   * both complements and the three decimal values from the result.
   */
  method HandleCalculate(raw: string) returns (r: Result<Calculation, CalcError>)
    ensures r == Err(EmptyInput) <==> AllWhiteSpace(raw)
    ensures r == Err(InvalidBinary) <==> !AllWhiteSpace(raw) && !IsBinary(Trim(raw))
    ensures r.Ok? <==> !AllWhiteSpace(raw) && IsBinary(Trim(raw))
    ensures r.Ok? ==> Describes(r.value, Trim(raw))
  {
    var input := Trim(raw);
    if input == [] {
      return Err(EmptyInput);
    }
    if !IsValidBinary(input) {
      return Err(InvalidBinary);
    }
    var stripped := RemoveLeadingZeros(input);
    var binary := if stripped != [] then stripped else "0";
    var onesComp := OnesComplement(binary);
    var twosComp := CalculateTwosComplement(binary);
    var origDecimal := BinaryToDecimal(binary);
    var onesDec := BinaryToDecimal(onesComp);
    var twosDec := BinaryToDecimal(twosComp);
    var c := Calculation(binary, origDecimal, onesComp, onesDec, twosComp, twosDec);
    CalculationDescribes(input, c);
    r := Ok(c);
  }

  /**
   * The values the handler computes from the stripped input are those that
   * `Describes` asks for: the requirements are what the handler's callees
   * promise.
   */
  lemma CalculationDescribes(input: string, c: Calculation)
    requires IsBinary(input)
    requires |c.binary| <= |input| && c.binary == input[|input| - |c.binary|..]
    requires AllZeros(input[..|input| - |c.binary|])
    requires Value(c.binary) == Value(input)
    requires IsBinary(c.binary) && (c.binary == "0" || (|c.binary| > 0 && c.binary[0] == '1'))
    requires c.onesComplement == OnesComplement(c.binary)
    requires IsBinary(c.twosComplement)
    requires Value(c.twosComplement) == Pow2(|c.binary|) - Value(c.binary)
    requires |c.twosComplement| == if AllZeros(c.binary) then |c.binary| + 1 else |c.binary|
    requires c.originalDecimal == Value(c.binary)
    requires c.onesDecimal == Value(c.onesComplement)
    requires c.twosDecimal == Value(c.twosComplement)
    ensures Describes(c, input)
  {
    OnesComplementValue(c.binary);
    ZeroIffAllZeros(c.binary);
  }

  /** Input that is nothing but white space is refused as empty. */
  method ExampleBlank() {
    var blank := HandleCalculate(" \t");
    assert blank == Err(EmptyInput);
  }

  /** A digit other than 0 or 1 is refused as not binary. */
  method ExampleInvalid() {
    var bad := HandleCalculate("102");
    TrimInvalid();
    assert bad == Err(InvalidBinary);
  }

  /** "102" is not blank, trims to itself, and is not a binary string. */
  lemma TrimInvalid()
    ensures !AllWhiteSpace("102") && Trim("102") == "102" && !IsBinary("102")
  {
    assert SkipSpaceForward("102", 0) == 0;
    assert !IsWhiteSpace("102"[0]);
    assert !IsBit("102"[2]);
  }

  /**
   * What the handler's contract alone tells a caller about " 0101": it is
   * shown as 101 (5), ones' complement 010 (2), two's complement 011 (3).
   */
  method ExampleFive() {
    var five := HandleCalculate(" 0101");
    TrimFive();
    FiveDescribed(five.value);
    assert five == Ok(Calculation("101", 5, "010", 2, "011", 3));
  }

  /** " 0101" is not blank, and trims to the binary string 0101. */
  lemma TrimFive()
    ensures !AllWhiteSpace(" 0101") && Trim(" 0101") == "0101" && IsBinary("0101")
  {
    assert SkipSpaceForward(" 0101", 0) == 1;
    assert !IsWhiteSpace(" 0101"[1]);
  }

  /** The only calculation that describes the input 0101. */
  lemma FiveDescribed(c: Calculation)
    requires Describes(c, "0101")
    ensures c == Calculation("101", 5, "010", 2, "011", 3)
  {
    assert Value("0101") == 5 == Value("101");
    Canonical(c.binary, "101");
    assert c.onesComplement == "010";
    assert Value("011") == 3;
    BinaryInjective(c.twosComplement, "011");
  }

  /**
   * "000" is shown as 0, ones' complement 1, and two's complement 10: the
   * all-zero input is the one whose two's complement gains a digit.
   */
  method ExampleZero() {
    var zero := HandleCalculate("000");
    assert Trim("000") == "000" by {
      assert !IsWhiteSpace('0');
    }
    assert !IsWhiteSpace("000"[0]);
    assert IsBinary("000");
    ZeroDescribed(zero.value);
    assert zero == Ok(Calculation("0", 0, "1", 1, "10", 2));
  }

  /** The only calculation that describes the input 000. */
  lemma ZeroDescribed(c: Calculation)
    requires Describes(c, "000")
    ensures c == Calculation("0", 0, "1", 1, "10", 2)
  {
    assert Value("000") == 0 == Value("0");
    Canonical(c.binary, "0");
    assert c.onesComplement == "1";
    assert Value("10") == 2;
    BinaryInjective(c.twosComplement, "10");
  }
}
