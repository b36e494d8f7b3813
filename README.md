# Ones' and two's complement calculator, modelled in Dafny

The repository contains a small web page, `1sAND2s/script.js`, that reads a binary
number from a text box. The page trims the input and rejects it if it is empty or
not made of 0s and 1s. It then strips the leading zeros and shows six values:

- the normalised number;
- its ones' complement, made by inverting every bit;
- its two's complement: the ones' complement plus one, added by a ripple-carry adder;
- the unsigned decimal value of each of the three.

This project models that calculation. It proves what each step means arithmetically,
using `Bits.Value`, which reads a digit string as an unsigned number.

Files:

- `bits.dfy` (module `Bits`) holds the specification: binary digits and strings,
  `Pow2`, `Value`, and the facts about them. An n-digit string is worth less than
  2^n. Leading zeros do not change the value. A value fixes a fixed-width binary
  string, and it fixes a string that is "0" or starts with '1'.
- `complement.dfy` (module `Complement`) holds the script's calculation functions.
  The functions that are one expression in the script (`isValidBinary`,
  `calculateOnesComplement`) are Dafny functions. The ones that loop
  (`removeLeadingZeros`, `padBinary`, `addBinary`, `binaryToDecimal`) are methods
  whose loop invariants tie them to `Value`. `calculateTwosComplement` calls the
  adder, so it is a method too.
- `calculator.dfy` (module `Calculator`) holds the input handler `handleCalculate`
  and JavaScript's `String.prototype.trim`. The handler is a method that takes the
  raw text and returns either an error or the six values, with no page updates.
  Four client methods show what the contracts alone decide for concrete inputs:
  "000" gives 0, 1 and 10, and " 0101" gives 101, 010 and 011.

## Model

| member | source | states |
|---|---|---|
| `Complement.IsValidBinary` | 1sAND2s/script.js:77-79 | the pattern `^[01]+$`, read as one digit followed by more digits, accepts exactly the non-empty strings whose every character is '0' or '1' |
| `Complement.RemoveLeadingZeros` | 1sAND2s/script.js:84-90 | the result is a suffix of the input, and only '0' characters were cut off; a non-empty input gives a non-empty result, so the fallback to '0' on line 53 is never taken; a result longer than one character does not start with '0'; the value is unchanged; a valid binary input gives "0" or a string that starts with '1' |
| `Bits.LeadingZeros` | 1sAND2s/script.js:84-90 | prefixing any number of '0' characters leaves the value unchanged |
| `Bits.Canonical` | 1sAND2s/script.js:52-53 | two binary strings that are each "0" or start with '1' and have the same value are equal, so the stripped input is the unique canonical form of its value |
| `Complement.OnesComplement` | 1sAND2s/script.js:95-97 | the result has the input's length and is binary; on binary input every position differs from the input |
| `Complement.OnesComplementTwice` | 1sAND2s/script.js:95-97 | inverting a binary string twice gives it back |
| `Complement.OnesComplementValue` | 1sAND2s/script.js:95-97 | for an n-bit binary string of value v, the ones' complement is worth 2^n - 1 - v |
| `Complement.PadBinary` | 1sAND2s/script.js:140-145 | the result has length the larger of the lengths of `s` and `length`; it is `s` preceded only by '0' characters; it has the value of `s`; it stays binary; it is `s` itself when `s` is already long enough |
| `Complement.ParseBit` | 1sAND2s/script.js:121-122 | `parseInt` of a binary digit is 0 or 1, and 1 exactly for '1' |
| `Complement.DigitChar` | 1sAND2s/script.js:125-131 | the digit written for a column sum bit or the final carry is a binary digit standing for that 0 or 1 |
| `Complement.ColumnWeights` | 1sAND2s/script.js:123-126 | in one column, whose sum is split as `bit + 2 * out` (the script's `sum % 2` and `Math.floor(sum / 2)`), the digit `bit` at weight 2^k plus the carry `out` at weight 2^(k+1) equal the two input bits and the incoming carry at weight 2^k |
| `Complement.AddColumn` | 1sAND2s/script.js:120-127 | one loop step keeps the invariant: value of the digits produced plus the carry's weight equals the value of the columns consumed in both operands |
| `Complement.AddFinish` | 1sAND2s/script.js:129-134 | after the loop, writing a carry of 1 in front gives a binary string worth the whole sum; the extra digit is there exactly when the sum reaches 2^maxLength |
| `Complement.AddBinary` | 1sAND2s/script.js:110-135 | the result is binary and worth value(a) + value(b); its length is the longer operand's length, or one more exactly when the sum does not fit in that many bits; the loop keeps the carry at 0 or 1 |
| `Complement.CalculateTwosComplement` | 1sAND2s/script.js:102-105 | the result is binary and worth one more than the ones' complement; for an n-bit binary input of value v it is worth 2^n - v; it has n+1 digits exactly when the input is all zeros ("0" gives "10"), otherwise n |
| `Bits.ZeroIffAllZeros` | 1sAND2s/script.js:102-105 | a binary string is worth 0 exactly when every digit is '0' (the case in which the two's complement gains a digit) |
| `Complement.BinaryToDecimal` | 1sAND2s/script.js:150-160 | the sum of 2^power over the '1' digits, counted from the right, is `Value(s)`; the running sum stays below 2^power, so the result is below 2^n for an n-digit string |
| `Bits.ValueBound` | 1sAND2s/script.js:150-160 | an n-digit string is worth less than 2^n |
| `Bits.BinaryInjective` | 1sAND2s/script.js:150-160 | two binary strings of the same length with the same decimal value are the same string |
| `Calculator.SkipSpaceForward` | 1sAND2s/script.js:39 | the first index from `i` on that does not hold white space: everything skipped is white space |
| `Calculator.SkipSpaceBackward` | 1sAND2s/script.js:39 | the end of the last non-white-space character before `j`: everything skipped is white space |
| `Calculator.Trim` | 1sAND2s/script.js:39 | `trim()` returns a contiguous piece of the input with only white space before and after it; the piece neither starts nor ends with white space; it is empty exactly when the input is all white space |
| `Calculator.TrimInvalid` | 1sAND2s/script.js:39-50 | "102" is not blank, trims to itself and is not binary: the case the second check of the handler refuses |
| `Calculator.TrimFive` | 1sAND2s/script.js:39 | " 0101" is not blank and trims to the binary string "0101" |
| `Calculator.HandleCalculate` | 1sAND2s/script.js:38-62 | blank input gives the empty-input error; non-blank input that is not binary gives the invalid-binary error; any other input succeeds. On success, the shown number is the stripped trimmed input ("0" or starting with '1', same value). The ones' complement is computed from it and worth 2^n - 1 - v. The two's complement is worth 2^n - v and has n+1 digits exactly when v = 0. The three decimals are the values of the three strings |
| `Calculator.CalculationDescribes` | 1sAND2s/script.js:52-62 | the values the handler computes from the stripped input satisfy every clause of `Describes` |
| `Calculator.FiveDescribed` | 1sAND2s/script.js:52-62 | the only result that describes "0101" is 101 (5), ones' complement 010 (2), two's complement 011 (3) |
| `Calculator.ZeroDescribed` | 1sAND2s/script.js:52-62 | the only result that describes "000" is 0 (0), ones' complement 1 (1), two's complement 10 (2) |

## Left out

- The page itself is not modelled: the DOM look-ups, the click and Enter-key listeners, the `input` listener that hides the error, `displayResults`, `displaySteps`, `showError` and `hideError` (1sAND2s/script.js:1-33, 63-71, 165-206). `HandleCalculate` takes the text box's value as a parameter and returns the error or the six displayed values instead of writing them to the page.
- The two error messages are represented by the `CalcError` cases `EmptyInput` and `InvalidBinary`, not by their wording.
- `BinaryToDecimal`: `Math.pow` and the running sum are JavaScript doubles. The model computes exact natural numbers, so it does not capture the loss of precision for inputs longer than 53 bits, nor the overflow to `Infinity` once a '1' stands 1024 or more places from the right (`Math.pow(2, power)` at 1sAND2s/script.js:155 is then `Infinity`, and so is the displayed decimal).
- `AddBinary`: it requires both operands to be binary. On other digits the script's adder still computes something (`parseInt('2')` is 2, so `addBinary("2", "0")` gives "10"), and on non-digits it produces `NaN` digits; the model covers neither. The only caller, `calculateTwosComplement` (1sAND2s/script.js:104), passes a ones' complement and "1", which are always binary.
- `OnesComplement`: the model maps each Unicode scalar value, while the script's `split('')` yields UTF-16 code units. A character outside the Basic Multilingual Plane, such as U+1F600, becomes "00" in the script (two surrogate units) and "0" in the model.
- `BinaryToDecimal`: the script's `length` and `[i]` count UTF-16 code units, so `binaryToDecimal` of "1" followed by U+1F600 is 4 there, while the model gives `Value` 2.
- `RemoveLeadingZeros`: likewise counts Unicode scalar values where the script counts UTF-16 code units; the two differ only in the length of a result that holds characters outside the Basic Multilingual Plane.
- `PadBinary`: the script's test `binary.length < length` (1sAND2s/script.js:141) counts UTF-16 code units, so `padBinary` of U+1F600 to length 2 returns it unchanged (its length is already 2), while the model returns "0" followed by U+1F600.
- `CalculateTwosComplement`: inherits the `OnesComplement` difference. For U+1F600 the script adds "00" and "1" and gives "01", while the model gives "1".
- These five differences never reach the page: `handleCalculate` passes these functions only validated binary strings, and `addBinary` pads only binary strings. On those, code units and scalar values coincide.
- `Trim`: JavaScript strings are UTF-16 code units, while Dafny strings are Unicode scalar values. Every character that `trim` removes lies in the Basic Multilingual Plane, so the two agree, but unpaired surrogates cannot be written as Dafny strings. The regular expression of `isValidBinary` is modelled by its meaning, not by a regular-expression engine.
- The Java trek-booking console (`src/MAIN/main.java`, `AdminDashboard.java`, `CustomerDashboard.java`, `GuideDashboard.java`) is not part of this model. It consists of menu loops, parameterised SQL sent through a database connection that is not in the repository, a foreign password-hashing call and formatted table printing. It holds no self-contained logic independent of the database. In particular, the code books treks by inserting a "Pending" row ; an admin sets a booking to Approved and assigns its guide (`AdminDashboard.java` lines 226-228); the assigned guide can set it to Confirmed, Completed or Cancelled (`GuideDashboard.java` lines 189-215); nothing touches a capacity and a customer cannot cancel, so there is no capacity invariant to prove.
