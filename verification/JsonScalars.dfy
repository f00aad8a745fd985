/**
 Unquoted tokens: `JSONObject.stringToValue`, the Java number parsers it uses, and
 the decimal text `Long.toString` prints.
 */
module JsonScalars {
  import opened Options
  import opened CodeUnits
  import opened JsonValue

  // ---------- Character.digit, Integer.parseInt and new Long(String) ----------

  /** `Character.digit(c, radix)` for the radixes 10 and 16; -1 when c is no digit. */
  function Digit(lib: Library, c: CodeUnit, radix: int): (d: int)
    requires radix == 10 || radix == 16
    ensures -1 <= d < radix
  {
    var d :=
      if ZERO <= c <= NINE then c - ZERO
      else if 0x41 <= c <= 0x5A then c - 0x41 + 10
      else if 0x61 <= c <= 0x7A then c - 0x61 + 10
      else if c < 0x80 then -1
      else lib.digit(c);
    if 0 <= d < radix then d else -1
  }

  /** The digits of s as a natural number, or None when one of them is no digit. */
  function Digits(lib: Library, s: Text, radix: int): (r: Option<nat>)
    requires radix == 10 || radix == 16
  {
    if s == [] then Some(0)
    else
      var high := Digits(lib, s[..|s| - 1], radix);
      var d := Digit(lib, s[|s| - 1], radix);
      if high.None? || d < 0 then None else Some(high.value * radix + d)
  }

  /** `parseInt(s, radix)` and `parseLong(s, radix)` before their range check. */
  function ParseSigned(lib: Library, s: Text, radix: int): Option<int>
    requires radix == 10 || radix == 16
  {
    if s == [] then None
    else if s[0] == MINUS || s[0] == PLUS then
      if |s| == 1 then None
      else
        match Digits(lib, s[1..], radix)
        case None => None
        case Some(n) => var v: int := n; Some(if s[0] == MINUS then -v else v)
    else
      match Digits(lib, s, radix)
      case None => None
      case Some(n) => Some(n)
  }

  function ParseLong(lib: Library, s: Text): Option<int> {
    match ParseSigned(lib, s, 10)
    case None => None
    case Some(n) => if LONG_MIN <= n <= LONG_MAX then Some(n) else None
  }

  // ---------- stringToValue ----------

  /**
   `equalsIgnoreCase` against the letters of true, false and null. Beside the two ASCII
   cases, U+017F (long s) has the upper case S.
   */
  predicate SameLetter(c: CodeUnit, lower: CodeUnit) {
    || c == lower
    || c == lower - 0x20
    || (lower == 0x73 && c == 0x17F)
  }

  predicate EqualsIgnoreCase(s: Text, word: Text)
    requires forall i :: 0 <= i < |word| ==> 0x61 <= word[i] <= 0x7A
  {
    |s| == |word| && forall i :: 0 <= i < |s| ==> SameLetter(s[i], word[i])
  }

  function StringToValue(lib: Library, s: Text): Value {
    if s == [] then Str(s)
    else if EqualsIgnoreCase(s, TRUE_WORD) then Bool(true)
    else if EqualsIgnoreCase(s, FALSE_WORD) then Bool(false)
    else if EqualsIgnoreCase(s, NULL_WORD) then Null
    else if ZERO <= s[0] <= NINE || s[0] == DOT || s[0] == MINUS || s[0] == PLUS then
      if DOT in s || 0x65 in s || 0x45 in s then
        if lib.finiteDouble(s) then Decimal(s) else Str(s)
      else
        match ParseLong(lib, s)
        case Some(n) => Int(n)
        case None => Str(s)
    else Str(s)
  }

  // ---------- Long.toString ----------

  function NatText(n: nat): (s: Text)
    ensures s != []
    ensures forall i :: 0 <= i < |s| ==> ZERO <= s[i] <= NINE
  {
    if n < 10 then [ZERO + n] else NatText(n / 10) + [ZERO + n % 10]
  }

  function LongText(n: int): (s: Text)
    ensures s != []
    ensures forall i :: 0 <= i < |s| ==> s[i] == MINUS || ZERO <= s[i] <= NINE
  {
    if n < 0 then [MINUS] + NatText(-n) else NatText(n)
  }

  lemma {:induction false} DigitsOfNatText(lib: Library, n: nat)
    ensures Digits(lib, NatText(n), 10) == Some(n)
  {
    var s := NatText(n);
    if n < 10 {
      assert s[..|s| - 1] == [];
    } else {
      DigitsOfNatText(lib, n / 10);
      assert s[..|s| - 1] == NatText(n / 10);
    }
  }

  lemma ParseLongInvertsLongText(lib: Library, n: int)
    ensures ParseLong(lib, LongText(n)) == if LONG_MIN <= n <= LONG_MAX then Some(n) else None
  {
    DigitsOfNatText(lib, if n < 0 then -n else n);
    if n < 0 {
      assert LongText(n)[1..] == NatText(-n);
    } else {
      assert NatText(n)[0] != MINUS;
    }
  }

  /** A 64-bit integer is read back from what `Long.toString` printed. */
  lemma LongTokenReadsBack(lib: Library, n: int)
    requires LONG_MIN <= n <= LONG_MAX
    ensures StringToValue(lib, LongText(n)) == Int(n)
  {
    var s := LongText(n);
    ParseLongInvertsLongText(lib, n);
    assert s[0] == MINUS || ZERO <= s[0] <= NINE;
    assert !SameLetter(s[0], TRUE_WORD[0]);
    assert !SameLetter(s[0], FALSE_WORD[0]);
    assert !SameLetter(s[0], NULL_WORD[0]);
  }

  /** No sign but a minus, and no leading zero. */
  lemma {:induction false} LongTextIsCanonical(n: int)
    ensures n < 0 ==> LongText(n)[0] == 0x2D && LongText(n)[1..] == LongText(-n)
    ensures n >= 0 ==> forall i :: 0 <= i < |LongText(n)| ==> 0x30 <= LongText(n)[i] <= 0x39
    ensures n >= 0 ==> (LongText(n)[0] == 0x30 <==> n == 0)
    decreases if n < 0 then -n + 1 else n
  {
    if n < 0 {
      LongTextIsCanonical(-n);
    } else if n >= 10 {
      LongTextIsCanonical(n / 10);
    }
  }

  // ---------- what a token means ----------

  predicate AreDigits(s: Text) {
    forall i :: 0 <= i < |s| ==> 0x30 <= s[i] <= 0x39
  }

  /** The number that ASCII digits write. */
  function DecimalValue(s: Text): int
    requires AreDigits(s)
  {
    if s == [] then 0 else 10 * DecimalValue(s[..|s| - 1]) + (s[|s| - 1] - 0x30)
  }

  lemma {:induction false} DigitsAreDecimal(lib: Library, s: Text)
    requires AreDigits(s)
    ensures DecimalValue(s) >= 0 && Digits(lib, s, 10) == Some(DecimalValue(s))
  {
    if s != [] {
      DigitsAreDecimal(lib, s[..|s| - 1]);
    }
  }

  /** A sign, or none, and ASCII digits are a 64-bit integer, or stay a string out of its range. */
  lemma IntegerToken(lib: Library, sign: Text, digits: Text)
    requires sign in {[], [0x2B], [0x2D]} && digits != [] && AreDigits(digits)
    ensures var n := if sign == [0x2D] then -DecimalValue(digits) else DecimalValue(digits);
            StringToValue(lib, sign + digits)
            == if -0x8000_0000_0000_0000 <= n <= 0x7FFF_FFFF_FFFF_FFFF then Int(n) else Str(sign + digits)
  {
    var s := sign + digits;
    SignedDigits(lib, sign, digits);
    assert s[0] == if sign == [] then digits[0] else sign[0];
    assert s[0] in {0x2B, 0x2D} || 0x30 <= s[0] <= 0x39;
    assert DOT !in s && 0x45 !in s && 0x65 !in s;
    NotAWord(s);
    hide ParseSigned, EqualsIgnoreCase, DecimalValue, AreDigits;
  }

  lemma SignedDigits(lib: Library, sign: Text, digits: Text)
    requires sign in {[], [0x2B], [0x2D]} && digits != [] && AreDigits(digits)
    ensures ParseSigned(lib, sign + digits, 10)
         == Some(if sign == [0x2D] then -DecimalValue(digits) else DecimalValue(digits))
  {
    DigitsAreDecimal(lib, digits);
    assert 0x30 <= digits[0] <= 0x39;
    hide Digits, DecimalValue, AreDigits;
    if sign == [] {
      assert sign + digits == digits;
    } else {
      SignedText(lib, sign, digits);
    }
  }

  lemma SignedText(lib: Library, sign: Text, digits: Text)
    requires (sign == [0x2B] || sign == [0x2D]) && digits != [] && Digits(lib, digits, 10).Some?
    ensures var n: int := Digits(lib, digits, 10).value;
            ParseSigned(lib, sign + digits, 10) == Some(if sign == [0x2D] then -n else n)
  {
    hide Digits;
    var s := sign + digits;
    assert s[0] == sign[0] && s[1..] == digits && |s| > 1;
  }

  lemma NotAWord(s: Text)
    requires s != [] && s[0] < 0x41
    ensures !EqualsIgnoreCase(s, TRUE_WORD) && !EqualsIgnoreCase(s, FALSE_WORD) && !EqualsIgnoreCase(s, NULL_WORD)
  {
    assert !SameLetter(s[0], TRUE_WORD[0]) && !SameLetter(s[0], FALSE_WORD[0]) && !SameLetter(s[0], NULL_WORD[0]);
  }

  /** The words in any case, and what is neither a word nor starts like a number. */
  lemma WordToken(lib: Library, s: Text)
    ensures |s| == 4 && s[0] in {0x54, 0x74} && s[1] in {0x52, 0x72} && s[2] in {0x55, 0x75} && s[3] in {0x45, 0x65} ==>
              StringToValue(lib, s) == Bool(true)
    ensures |s| == 5 && s[0] in {0x46, 0x66} && s[1] in {0x41, 0x61} && s[2] in {0x4C, 0x6C} && s[3] in {0x53, 0x73, 0x17F}
              && s[4] in {0x45, 0x65} ==>
              StringToValue(lib, s) == Bool(false)
    ensures |s| == 4 && s[0] in {0x4E, 0x6E} && s[1] in {0x55, 0x75} && s[2] in {0x4C, 0x6C} && s[3] in {0x4C, 0x6C} ==>
              StringToValue(lib, s) == Null
    ensures s == [] || (s[0] !in {0x2B, 0x2D, 0x2E, 0x46, 0x4E, 0x54, 0x66, 0x6E, 0x74} && !(0x30 <= s[0] <= 0x39)) ==>
              StringToValue(lib, s) == Str(s)
  {
    if s != [] {
      assert SameLetter(s[0], TRUE_WORD[0]) <==> s[0] in {0x54, 0x74};
      assert SameLetter(s[0], FALSE_WORD[0]) <==> s[0] in {0x46, 0x66};
      assert SameLetter(s[0], NULL_WORD[0]) <==> s[0] in {0x4E, 0x6E};
    }
  }

  /** A token that starts like a number and has a point or an exponent is left to the double parser. */
  lemma DecimalToken(lib: Library, s: Text)
    requires s != [] && (0x30 <= s[0] <= 0x39 || s[0] in {0x2B, 0x2D, 0x2E}) && (0x2E in s || 0x45 in s || 0x65 in s)
    ensures StringToValue(lib, s) == if lib.finiteDouble(s) then Decimal(s) else Str(s)
  {
    NotAWord(s);
  }

  lemma WordTokensReadBack(lib: Library)
    ensures StringToValue(lib, TRUE_WORD) == Bool(true)
    ensures StringToValue(lib, FALSE_WORD) == Bool(false)
    ensures StringToValue(lib, NULL_WORD) == Null
  {
    assert !SameLetter(FALSE_WORD[0], TRUE_WORD[0]);
    assert !SameLetter(NULL_WORD[0], TRUE_WORD[0]);
  }
}
