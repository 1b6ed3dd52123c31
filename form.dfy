/**
 * How src/app.js reads the exercise form when it saves: the name field is
 * trimmed, and each number field goes through `parseInt(value) || default`,
 * so a field that does not start with a number, or reads as 0, takes its
 * default (10 reps, 3 sets, no hold). The values `showModal` writes into the
 * fields when it opens an exercise for editing are the exercise's own,
 * through `Number.prototype.toString`.
 */
module Form {
  import opened Wrappers
  import opened JsString
  import Constants
  import Validation

  // ---------------------------------------------------------------------
  // parseInt(string) with no radix

  /** The value of `c` as a digit in base `radix` (10 or 16), if it is one. */
  function RadixDigit(c: char, radix: nat): (d: Option<nat>)
    requires radix == 10 || radix == 16
    ensures d.Some? ==> d.value < radix
    ensures radix == 10 ==> (d.Some? <==> IsDigit(c))
    ensures radix == 10 && IsDigit(c) ==> d == Some(DigitValue(c))
  {
    var v := if '0' <= c <= '9' then c as int - '0' as int
             else if 'a' <= c <= 'z' then c as int - 'a' as int + 10
             else if 'A' <= c <= 'Z' then c as int - 'A' as int + 10
             else 36;
    if v < radix then Some(v) else None
  }

  predicate AllRadixDigits(s: string, radix: nat)
    requires radix == 10 || radix == 16
  {
    forall i :: 0 <= i < |s| ==> RadixDigit(s[i], radix).Some?
  }

  /**
   * The longest prefix of `s` made of digits in base `radix`: a prefix of
   * digits that stops at the end or at the first non-digit.
   */
  function DigitRun(s: string, radix: nat): (z: string)
    requires radix == 10 || radix == 16
    ensures |z| <= |s| && z == s[..|z|]
    ensures AllRadixDigits(z, radix)
    ensures |z| < |s| ==> RadixDigit(s[|z|], radix).None?
  {
    if s == [] || RadixDigit(s[0], radix).None? then []
    else
      var rest := DigitRun(s[1..], radix);
      assert forall i :: 1 <= i <= |rest| ==> ([s[0]] + rest)[i] == s[1..][i - 1] == s[i];
      [s[0]] + rest
  }

  function Power(b: nat, k: nat): nat {
    if k == 0 then 1 else b * Power(b, k - 1)
  }

  /** The number a run of base-`radix` digits denotes, most significant first: below `radix` to the run's length. */
  function RadixValue(z: string, radix: nat): (v: nat)
    requires radix == 10 || radix == 16
    requires AllRadixDigits(z, radix)
    ensures v < Power(radix, |z|)
  {
    if z == [] then 0
    else
      var high := RadixValue(z[..|z| - 1], radix);
      var low := RadixDigit(z[|z| - 1], radix).value;
      var p := Power(radix, |z| - 1);
      assert (high + 1) * radix <= p * radix by {
        MultiplyBoth(high + 1, p, radix);
      }
      high * radix + low
  }

  lemma MultiplyBoth(a: nat, b: nat, c: nat)
    requires a <= b
    ensures a * c <= b * c
  {
  }

  /** The longest run of base-`radix` digits at the start of `s`, read as a number; `None` when there is none. */
  function ReadDigits(s: string, radix: nat): (v: Option<nat>)
    requires radix == 10 || radix == 16
    ensures v.None? <==> s == [] || RadixDigit(s[0], radix).None?
  {
    var z := DigitRun(s, radix);
    if z == [] then None else Some(RadixValue(z, radix))
  }

  /** `0x`/`0X` switches to base 16. */
  predicate HexPrefixed(u: string) {
    |u| >= 2 && u[0] == '0' && (u[1] == 'x' || u[1] == 'X')
  }

  /** The magnitude after the sign: hexadecimal digits after a `0x` prefix, decimal digits otherwise. */
  function ReadMagnitude(u: string): (v: Option<nat>)
    ensures !HexPrefixed(u) ==> (v.None? <==> u == [] || !IsDigit(u[0]))
    ensures HexPrefixed(u) ==> (v.None? <==> |u| == 2 || RadixDigit(u[2], 16).None?)
  {
    if HexPrefixed(u) then ReadDigits(u[2..], 16) else ReadDigits(u, 10)
  }

  function Negated(v: Option<nat>): Option<int> {
    if v.None? then None else Some(-(v.value as int))
  }

  function Widened(v: Option<nat>): Option<int> {
    if v.None? then None else Some(v.value as int)
  }

  /**
   * `parseInt(s)`: skip leading whitespace, take an optional sign, then read
   * the magnitude. `None` stands for `NaN`, when there is no digit to read;
   * `-0` is 0.
   */
  function ParseInt(s: string): (r: Option<int>)
    ensures TrimStart(s) == [] ==> r.None?
    ensures r.Some? && r.value < 0 ==> TrimStart(s) != [] && TrimStart(s)[0] == '-'
  {
    var t := TrimStart(s);
    if t != [] && t[0] == '-' then Negated(ReadMagnitude(t[1..]))
    else if t != [] && t[0] == '+' then Widened(ReadMagnitude(t[1..]))
    else Widened(ReadMagnitude(t))
  }

  /** In base 10 the digit reading agrees with the decimal reading of `toString`. */
  lemma {:induction false} DecimalRadixValue(z: string)
    requires AllDigits(z)
    ensures AllRadixDigits(z, 10) && RadixValue(z, 10) == DigitsValue(z)
  {
    if z != [] {
      DecimalRadixValue(z[..|z| - 1]);
    }
  }

  /** A string that does not start with whitespace is its own `TrimStart`. */
  lemma TrimStartNoop(s: string)
    requires s != [] && !IsWhitespace(s[0])
    ensures TrimStart(s) == s
  {
  }

  /** The decimal digits of `m` read back as `m`. */
  lemma ReadMagnitudeOfDigits(m: nat)
    ensures ReadMagnitude(NatToString(m)) == Some(m)
  {
    var digits := NatToString(m);
    assert !HexPrefixed(digits) by {
      if |digits| >= 2 { assert IsDigit(digits[1]); }
    }
    DecimalRadixValue(digits);
    assert DigitRun(digits, 10) == digits;
  }

  /** `parseInt(String(n))` gives `n` back, for every integer `n`. */
  lemma ParseIntOfToString(n: int)
    ensures ParseInt(IntToString(n)) == Some(n)
  {
    if n < 0 {
      ParseIntOfNegative(n);
    } else {
      ParseIntOfNatural(n);
    }
  }

  lemma ParseIntOfNegative(n: int)
    requires n < 0
    ensures ParseInt(IntToString(n)) == Some(n)
  {
    ReadMagnitudeOfDigits(-n);
    ParseIntMinusMagnitude(NatToString(-n), -n);
  }

  /** A '-' before a string whose magnitude reads as `m` reads as `-m`. */
  lemma ParseIntMinusMagnitude(u: string, m: nat)
    requires ReadMagnitude(u) == Some(m)
    ensures ParseInt(['-'] + u) == Some(-(m as int))
  {
    var s := ['-'] + u;
    assert s[1..] == u;
    ParseIntMinus(s);
  }

  lemma ParseIntOfNatural(n: nat)
    ensures ParseInt(IntToString(n)) == Some(n)
  {
    var s := IntToString(n);
    assert s == NatToString(n) && IsDigit(s[0]);
    ParseIntUnsigned(s);
    ReadMagnitudeOfDigits(n);
  }

  /** Without whitespace or a sign in front, `parseInt` reads the magnitude of the whole string. */
  lemma ParseIntUnsigned(s: string)
    requires s != [] && !IsWhitespace(s[0]) && s[0] != '-' && s[0] != '+'
    ensures ParseInt(s) == Widened(ReadMagnitude(s))
  {
    TrimStartNoop(s);
  }

  /** A leading '-' negates the magnitude that follows it. */
  lemma ParseIntMinus(s: string)
    requires s != [] && s[0] == '-'
    ensures ParseInt(s) == Negated(ReadMagnitude(s[1..]))
  {
    TrimStartNoop(s);
  }

  /** A leading '+' is skipped. */
  lemma ParseIntPlus(s: string)
    requires s != [] && s[0] == '+'
    ensures ParseInt(s) == Widened(ReadMagnitude(s[1..]))
  {
    TrimStartNoop(s);
  }

  /** The empty string has no digit to read. */
  lemma ParseIntEmptyNaN()
    ensures ParseInt("") == None
  {
  }

  /** Letters are not decimal digits. */
  lemma ParseIntLettersNaN()
    ensures ParseInt("abc") == None
  {
    ParseIntUnsigned("abc");
  }

  /** A sign with nothing after it has no digit to read. */
  lemma ParseIntSignOnlyNaN()
    ensures ParseInt("-") == None
  {
    ParseIntMinus("-");
    assert "-"[1..] == [];
  }

  /** Leading whitespace is skipped: `parseInt` reads the same number with or without it. */
  lemma ParseIntSkipsWhitespace(c: char, s: string)
    requires IsWhitespace(c)
    ensures ParseInt([c] + s) == ParseInt(s)
  {
    assert ([c] + s)[1..] == s;
  }

  /** A one-digit string reads as its digit. */
  lemma ReadOneDigit(c: char)
    requires IsDigit(c)
    ensures ReadMagnitude([c]) == Some(DigitValue(c))
  {
    assert [c][1..] == [] && [c][..0] == [];
    assert DigitRun([c], 10) == [c];
    assert RadixValue([c], 10) == DigitValue(c);
  }

  /** A sign before the digits is read. */
  lemma ParseIntSigned()
    ensures ParseInt("+7") == Some(7) && ParseInt("-5") == Some(-5)
  {
    ParseIntPlus("+7");
    ParseIntMinus("-5");
    assert "+7"[1..] == "7" && "-5"[1..] == "5";
    ReadOneDigit('7');
    ReadOneDigit('5');
  }

  /** Decimal digits stop at the first character that is not one. */
  lemma ParseIntStopsAtLetter()
    ensures ParseInt("12abc") == Some(12)
  {
    ParseIntUnsigned("12abc");
    assert !HexPrefixed("12abc");
    assert DigitRun("12abc", 10) == "12" && "12"[..1] == "1" && "1"[..0] == [];
    assert RadixValue("12", 10) == RadixValue("1", 10) * 10 + 2 == 12;
  }

  /** A decimal point ends the digits: the fraction is dropped. */
  lemma ParseIntStopsAtPoint()
    ensures ParseInt("3.9") == Some(3)
  {
    ParseIntUnsigned("3.9");
    assert !HexPrefixed("3.9");
    assert DigitRun("3.9", 10) == "3" && "3"[..0] == [];
  }

  /** `0x` switches to base 16. */
  lemma ParseIntHex()
    ensures ParseInt("0x1A") == Some(26)
  {
    ParseIntUnsigned("0x1A");
    assert HexPrefixed("0x1A") && "0x1A"[2..] == "1A";
    assert DigitRun("1A", 16) == "1A" && "1A"[..1] == "1" && "1"[..0] == [];
    assert RadixValue("1A", 16) == RadixValue("1", 16) * 16 + 10 == 26;
  }

  // ---------------------------------------------------------------------
  // `parseInt(field.value) || default`

  /** `n || default` on the result of `parseInt`: `NaN` and 0 are falsy and give the default. */
  function OrDefault(parsed: Option<int>, default: int): (r: int)
    ensures parsed.Some? && parsed.value != 0 ==> r == parsed.value
    ensures parsed.None? || parsed.value == 0 ==> r == default
  {
    if parsed.Some? && parsed.value != 0 then parsed.value else default
  }

  /** What `saveExercise` reads off the form. */
  datatype Definition = Definition(name: string, targetReps: int, targetSets: int, holdTime: int)

  /** The four form fields, as the raw strings the inputs hold. */
  datatype Fields = Fields(name: string, targetReps: string, targetSets: string, holdTime: string)

  /** The trimmed name and the three numbers, each defaulted when it reads as `NaN` or 0. */
  function ReadForm(f: Fields): (d: Definition)
    ensures d.name == Trim(f.name)
    ensures d.targetReps != 0 && d.targetSets != 0
    ensures d.holdTime == 0 <==> ParseInt(f.holdTime) == None || ParseInt(f.holdTime) == Some(0)
  {
    Definition(
      Trim(f.name),
      OrDefault(ParseInt(f.targetReps), Constants.DefaultTargetReps),
      OrDefault(ParseInt(f.targetSets), Constants.DefaultTargetSets),
      OrDefault(ParseInt(f.holdTime), Constants.DefaultHoldTime))
  }

  /** The fields `showModal(null)` fills in for a new exercise. */
  const BlankFields := Fields("", "10", "3", "0")

  /** The fields `showModal(index)` fills in from the exercise being edited. */
  function PrefilledFields(name: string, targetReps: int, targetSets: int, holdTime: int): Fields {
    Fields(name, IntToString(targetReps), IntToString(targetSets), IntToString(holdTime))
  }

  /**
   * Saving an untouched edit form gives the exercise's definition back,
   * except that its name is trimmed and a target of 0 reps or 0 sets
   * becomes the default.
   */
  lemma PrefilledFormReadsBack(name: string, targetReps: int, targetSets: int, holdTime: int)
    ensures ReadForm(PrefilledFields(name, targetReps, targetSets, holdTime))
            == Definition(Trim(name),
                          if targetReps == 0 then Constants.DefaultTargetReps else targetReps,
                          if targetSets == 0 then Constants.DefaultTargetSets else targetSets,
                          holdTime)
  {
    ParseIntOfToString(targetReps);
    ParseIntOfToString(targetSets);
    ParseIntOfToString(holdTime);
  }

  /** The blank add form reads as an unnamed exercise with the default targets, so it is not saved until named. */
  lemma BlankFormReadsDefaults()
    ensures ReadForm(BlankFields) == Definition("", Constants.DefaultTargetReps, Constants.DefaultTargetSets, 0)
  {
    PrefilledFormReadsBack("", 10, 3, 0);
    assert IntToString(10) == "10" && IntToString(3) == "3" && IntToString(0) == "0";
  }

  /**
   * `saveExercise` does not call the validator. A definition it would save
   * (non-empty trimmed name) passes `validateExercise` exactly when no
   * number field reads as negative.
   */
  lemma SavedDefinitionValidIff(f: Fields)
    requires ReadForm(f).name != []
    ensures var d := ReadForm(f);
            Validation.ValidateExercise(Some(d.name), d.targetReps, d.targetSets, d.holdTime).Valid?
            <==> d.targetReps >= 0 && d.targetSets >= 0 && d.holdTime >= 0
  {
    var d := ReadForm(f);
    assert !IsWhitespace(d.name[0]);
    ValidIffNonNegative(d);
  }

  /** A definition with a non-blank name and non-zero targets is valid exactly when no number in it is negative. */
  lemma ValidIffNonNegative(d: Definition)
    requires !IsBlank(d.name) && d.targetReps != 0 && d.targetSets != 0
    ensures Validation.ValidateExercise(Some(d.name), d.targetReps, d.targetSets, d.holdTime).Valid?
            <==> d.targetReps >= 0 && d.targetSets >= 0 && d.holdTime >= 0
  {
  }

  /** A negative target typed into the form is saved as typed, although the validator rejects it. */
  lemma NegativeRepsAreSaved()
    ensures ReadForm(Fields("Squat", "-5", "3", "0")).targetReps == -5
    ensures Validation.ValidateExercise(Some("Squat"), -5, 3, 0) == Validation.Invalid(Validation.RepsError)
  {
    ParseIntSigned();
    assert Trim("Squat") != [] by {
      assert !IsWhitespace("Squat"[0]);
    }
  }
}
