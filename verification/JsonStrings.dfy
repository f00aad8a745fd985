/**
 Spellings of string literals: the ones section 7 of RFC 8259 allows, the one
 `JSONObject.quote` chooses, and how `nextString` reads them.
 */
module JsonStrings {
  import opened Options
  import opened CodeUnits
  import opened Sequences
  import opened JsonValue
  import opened JsonScalars
  import opened JsonParser

  /** One character of a literal: as itself, by a letter after a backslash, or by four characters after `u`. */
  datatype Glyph = Raw(c: CodeUnit) | Short(letter: CodeUnit) | Hex(digits: Text)

  predicate IsHexDigit(c: CodeUnit) {
    ZERO <= c <= NINE || 0x41 <= c <= 0x46 || 0x61 <= c <= 0x66
  }

  predicate AreHexDigits(digits: Text) {
    |digits| == 4 && forall i :: 0 <= i < 4 ==> IsHexDigit(digits[i])
  }

  /**
   The glyphs that `nextString` reads between two quotes q. Behind `u` it takes what
   `Integer.parseInt` takes, so beside hex digits also a sign, and digits above ASCII.
   */
  predicate Readable(lib: Library, q: CodeUnit, g: Glyph) {
    match g
    case Raw(c) => c != 0 && c != LF && c != CR && c != BACKSLASH && c != q
    case Short(letter) => ShortEscape(letter).Some?
    case Hex(digits) => |digits| == 4 && ParseSigned(lib, digits, 16).Some?
  }

  /** The glyphs of section 7 of RFC 8259. */
  predicate Rfc8259(g: Glyph) {
    match g
    case Raw(c) => c >= 0x20 && c != QUOTE && c != BACKSLASH
    case Short(letter) =>
      letter in {QUOTE, BACKSLASH, SLASH, LETTER_B, LETTER_F, LETTER_N, LETTER_R, LETTER_T}
    case Hex(digits) => AreHexDigits(digits)
  }

  function Render(g: Glyph): (t: Text)
    ensures t != []
  {
    match g
    case Raw(c) => [c]
    case Short(letter) => [BACKSLASH, letter]
    case Hex(digits) => [BACKSLASH, LETTER_U] + digits
  }

  function RenderAll(gs: seq<Glyph>): Text {
    if gs == [] then [] else Render(gs[0]) + RenderAll(gs[1..])
  }

  function HexValue(digits: Text): CodeUnit
    requires AreHexDigits(digits)
  {
    ((HexDigitValue(digits[0]) * 16 + HexDigitValue(digits[1])) * 16
     + HexDigitValue(digits[2])) * 16 + HexDigitValue(digits[3])
  }

  function HexDigitValue(c: CodeUnit): (d: int)
    requires IsHexDigit(c)
    ensures 0 <= d < 16
  {
    if c <= NINE then c - ZERO else if c <= 0x46 then c - 0x41 + 10 else c - 0x61 + 10
  }

  /** The character a glyph stands for. */
  function Meaning(lib: Library, q: CodeUnit, g: Glyph): CodeUnit
    requires Readable(lib, q, g)
  {
    match g
    case Raw(c) => c
    case Short(letter) => ShortEscape(letter).value
    case Hex(digits) =>
      if AreHexDigits(digits) then HexValue(digits) else ParseSigned(lib, digits, 16).value % 0x1_0000
  }

  function MeaningAll(lib: Library, q: CodeUnit, gs: seq<Glyph>): (s: Text)
    requires forall i :: 0 <= i < |gs| ==> Readable(lib, q, gs[i])
    ensures |s| == |gs|
  {
    if gs == [] then [] else [Meaning(lib, q, gs[0])] + MeaningAll(lib, q, gs[1..])
  }

  // ---------- reading a literal ----------

  lemma DigitsOfFour(lib: Library, digits: Text)
    requires AreHexDigits(digits)
    ensures ParseSigned(lib, digits, 16) == Some(HexValue(digits))
  {
    var a, b, c := digits[..3], digits[..3][..2], digits[..3][..2][..1];
    assert c[..0] == [];
    assert Digits(lib, c, 16) == Some(HexDigitValue(digits[0]));
    assert Digits(lib, b, 16) == Some(HexDigitValue(digits[0]) * 16 + HexDigitValue(digits[1]));
    assert Digits(lib, a, 16)
        == Some((HexDigitValue(digits[0]) * 16 + HexDigitValue(digits[1])) * 16 + HexDigitValue(digits[2]));
  }

  lemma {:induction false} NoNulDigits(lib: Library, s: Text)
    requires Digits(lib, s, 16).Some?
    ensures 0 !in s
  {
    if s != [] {
      NoNulDigits(lib, s[..|s| - 1]);
    }
  }

  lemma NoNulParses(lib: Library, digits: Text)
    requires ParseSigned(lib, digits, 16).Some?
    ensures 0 !in digits
  {
    if digits[0] == MINUS || digits[0] == PLUS {
      NoNulDigits(lib, digits[1..]);
      assert digits == [digits[0]] + digits[1..];
    } else {
      NoNulDigits(lib, digits);
    }
  }

  lemma EscapeReads(lib: Library, q: CodeUnit, g: Glyph, u: Text)
    requires Readable(lib, q, g) && !g.Raw?
    ensures Escape(lib, Render(g)[1..] + u) == Ok(Meaning(lib, q, g), u)
  {
    match g
    case Short(letter) =>
      assert Render(g)[1..] + u == [letter] + u;
    case Hex(digits) =>
      var v := digits + u;
      assert Render(g)[1..] + u == [LETTER_U] + v;
      assert v[..4] == digits && v[4..] == u;
      NoNulParses(lib, digits);
      if AreHexDigits(digits) {
        DigitsOfFour(lib, digits);
      }
  }

  /** Whatever the spelling, the string is read back and reading stops behind the closing quote. */
  lemma {:induction false} LiteralReadsBack(lib: Library, q: CodeUnit, gs: seq<Glyph>, rest: Text)
    requires q == QUOTE || q == APOSTROPHE
    requires forall i :: 0 <= i < |gs| ==> Readable(lib, q, gs[i])
    ensures NextString(lib, RenderAll(gs) + [q] + rest, q) == Ok(MeaningAll(lib, q, gs), rest)
  {
    hide ParseSigned, HexValue, Escape;
    var u := RenderAll(gs) + [q] + rest;
    if gs == [] {
      assert u == [q] + rest;
    } else {
      var more := RenderAll(gs[1..]) + [q] + rest;
      Assoc(Render(gs[0]), RenderAll(gs[1..]), [q]);
      Assoc(Render(gs[0]), RenderAll(gs[1..]) + [q], rest);
      LiteralReadsBack(lib, q, gs[1..], rest);
      if gs[0].Raw? {
        assert u[1..] == more;
      } else {
        assert u[1..] == Render(gs[0])[1..] + more;
        EscapeReads(lib, q, gs[0], more);
      }
    }
  }

  // ---------- JSONObject.quote ----------

  function HexDigit(d: int): (c: CodeUnit)
    requires 0 <= d < 16
    ensures IsHexDigit(c) && HexDigitValue(c) == d
  {
    if d < 10 then ZERO + d else 0x61 + d - 10
  }

  /** `Integer.toHexString`. */
  function HexText(n: nat): (t: Text)
    ensures t != []
  {
    if n < 16 then [HexDigit(n)] else HexText(n / 16) + [HexDigit(n % 16)]
  }

  function Zeros(n: nat): Text {
    seq(n, _ => ZERO)
  }

  /** The text with leading zeros, for k digits. */
  function Padded(n: nat, k: nat): Text
    requires |HexText(n)| <= k
  {
    Zeros(k - |HexText(n)|) + HexText(n)
  }

  lemma PaddedStep(n: nat, k: nat)
    requires k > 0 && |HexText(n / 16)| <= k
    ensures |HexText(n)| <= k + 1 && Padded(n, k + 1) == Padded(n / 16, k) + [HexDigit(n % 16)]
  {
    if n < 16 {
      assert HexText(n / 16) == [ZERO] && HexText(n) == [HexDigit(n)];
    } else {
      Assoc(Zeros(k - |HexText(n / 16)|), HexText(n / 16), [HexDigit(n % 16)]);
    }
  }

  lemma HexTextOfCodeUnit(c: CodeUnit)
    ensures |HexText(c)| <= 4
    ensures Padded(c, 4)
         == [HexDigit(c / 4096), HexDigit(c / 256 % 16), HexDigit(c / 16 % 16), HexDigit(c % 16)]
  {
    assert c / 16 / 16 == c / 256 && c / 256 / 16 == c / 4096;
    assert Padded(c / 4096, 1) == [HexDigit(c / 4096)];
    hide HexText, Padded;
    PaddedStep(c / 256, 1);
    PaddedStep(c / 16, 2);
    PaddedStep(c, 3);
  }

  /** The characters that `quote` writes as \u escapes. */
  predicate IsHidden(c: CodeUnit) {
    c < SPACE || 0x80 <= c < 0xA0 || 0x2000 <= c < 0x2100
  }

  /** How `quote` spells c after the character b. */
  function Spelling(b: CodeUnit, c: CodeUnit): Glyph {
    if c == BACKSLASH || c == QUOTE then Short(c)
    else if c == SLASH then if b == LESS then Short(SLASH) else Raw(SLASH)
    else if c == BACKSPACE then Short(LETTER_B)
    else if c == TAB then Short(LETTER_T)
    else if c == LF then Short(LETTER_N)
    else if c == FF then Short(LETTER_F)
    else if c == CR then Short(LETTER_R)
    else if IsHidden(c) then
      Hex(HexTextOfCodeUnit(c); Zeros(4 - |HexText(c)|) + HexText(c))
    else Raw(c)
  }

  function Spellings(b: CodeUnit, s: Text): seq<Glyph>
    decreases s
  {
    if s == [] then [] else [Spelling(b, s[0])] + Spellings(s[0], s[1..])
  }

  function Quote(s: Text): Text {
    [QUOTE] + RenderAll(Spellings(0, s)) + [QUOTE]
  }

  lemma FourHexDigits(c: CodeUnit)
    ensures c / 4096 < 16
    ensures c == ((c / 4096 * 16 + c / 256 % 16) * 16 + c / 16 % 16) * 16 + c % 16
  {
    assert c / 256 / 16 == c / 4096 && c / 16 / 16 == c / 256;
  }

  lemma SpellingMeans(lib: Library, b: CodeUnit, c: CodeUnit)
    ensures Rfc8259(Spelling(b, c)) && Readable(lib, QUOTE, Spelling(b, c))
    ensures Meaning(lib, QUOTE, Spelling(b, c)) == c
  {
    hide ParseSigned, Digits;
    if Spelling(b, c).Hex? {
      FourHexDigits(c);
      HexTextOfCodeUnit(c);
      DigitsOfFour(lib, Spelling(b, c).digits);
      hide HexText, Zeros;
    }
  }

  /** A lower-case hex digit. */
  function LowerHex(d: int): int {
    if d < 10 then 0x30 + d else 0x57 + d
  }

  /** What `quote` writes for the character c behind b, by ASCII code. */
  lemma SpellingTable(b: CodeUnit, c: CodeUnit)
    ensures var t := Render(Spelling(b, c));
            && (c in {0x22, 0x5C} ==> t == [0x5C, c])
            && (c == 0x2F ==> t == if b == 0x3C then [0x5C, 0x2F] else [0x2F])
            && (c == 0x08 ==> t == [0x5C, 0x62]) && (c == 0x09 ==> t == [0x5C, 0x74])
            && (c == 0x0A ==> t == [0x5C, 0x6E]) && (c == 0x0C ==> t == [0x5C, 0x66])
            && (c == 0x0D ==> t == [0x5C, 0x72])
    ensures c !in {0x08, 0x09, 0x0A, 0x0C, 0x0D} && (c < 0x20 || 0x80 <= c < 0xA0 || 0x2000 <= c < 0x2100) ==>
              Render(Spelling(b, c))
              == [0x5C, 0x75, LowerHex(c / 4096), LowerHex(c / 256 % 16), LowerHex(c / 16 % 16), LowerHex(c % 16)]
    ensures c !in {0x22, 0x2F, 0x5C} && c >= 0x20 && !(0x80 <= c < 0xA0) && !(0x2000 <= c < 0x2100) ==>
              Render(Spelling(b, c)) == [c]
  {
    if Spelling(b, c).Hex? {
      FourHexDigits(c);
      HexTextOfCodeUnit(c);
      hide HexText, Zeros;
    }
  }

  /** Every glyph that `quote` writes is legal by RFC 8259, and together they mean the string. */
  lemma {:induction false} SpellingsMean(lib: Library, b: CodeUnit, s: Text)
    ensures |Spellings(b, s)| == |s|
    ensures forall i :: 0 <= i < |s| ==>
              Rfc8259(Spellings(b, s)[i]) && Readable(lib, QUOTE, Spellings(b, s)[i])
    ensures MeaningAll(lib, QUOTE, Spellings(b, s)) == s
    decreases s
  {
    if s != [] {
      SpellingMeans(lib, b, s[0]);
      SpellingsMean(lib, s[0], s[1..]);
      assert Spellings(b, s)[1..] == Spellings(s[0], s[1..]);
    }
  }

  /** `nextString` after the opening quote of `quote(s)` gives s and stops behind the closing quote. */
  lemma QuoteReadsBack(lib: Library, s: Text, rest: Text)
    ensures Quote(s)[0] == QUOTE
    ensures NextString(lib, Quote(s)[1..] + rest, QUOTE) == Ok(s, rest)
  {
    SpellingsMean(lib, 0, s);
    LiteralReadsBack(lib, QUOTE, Spellings(0, s), rest);
    var t := RenderAll(Spellings(0, s));
    hide RenderAll, Spellings, NextString;
    Assoc([QUOTE], t, [QUOTE]);
    assert ([QUOTE] + (t + [QUOTE]))[1..] == t + [QUOTE];
  }

  /** Two strings with the same literal are the same string. */
  lemma QuoteIsInjective(lib: Library, s: Text, t: Text)
    requires Quote(s) == Quote(t)
    ensures s == t
  {
    QuoteReadsBack(lib, s, []);
    QuoteReadsBack(lib, t, []);
  }

  // ---------- no `</` in a literal ----------

  predicate ClosesTag(t: Text) {
    exists i :: 0 <= i < |t| - 1 && t[i] == LESS && t[i + 1] == SLASH
  }

  lemma {:induction false} SpellingsCloseNoTag(b: CodeUnit, s: Text)
    ensures var t := RenderAll(Spellings(b, s)); !ClosesTag(t) && (b == LESS ==> Head(t) != SLASH)
    decreases s
  {
    if s != [] {
      var g, more := Render(Spelling(b, s[0])), RenderAll(Spellings(s[0], s[1..]));
      assert RenderAll(Spellings(b, s)) == g + more;
      SpellingsCloseNoTag(s[0], s[1..]);
      HexTextOfCodeUnit(s[0]);
      assert LESS !in g || g == [LESS];
      assert !ClosesTag(g);
      JoinClosesNoTag(g, more);
    }
  }

  lemma JoinClosesNoTag(a: Text, b: Text)
    requires !ClosesTag(a) && !ClosesTag(b) && a != []
    requires a[|a| - 1] == LESS ==> Head(b) != SLASH
    ensures !ClosesTag(a + b)
  {
    var t := a + b;
    forall i | 0 <= i < |t| - 1 ensures !(t[i] == LESS && t[i + 1] == SLASH) {
      if i >= |a| {
        assert t[i] == b[i - |a|] && t[i + 1] == b[i - |a| + 1];
      } else if i < |a| - 1 {
        assert t[i] == a[i] && t[i + 1] == a[i + 1];
      } else {
        assert t[i + 1] == b[0];
      }
    }
  }

  /** A literal never contains `<` directly followed by `/`, whatever the string. */
  lemma QuoteClosesNoTag(s: Text)
    ensures !ClosesTag(Quote(s))
  {
    var t := RenderAll(Spellings(0, s));
    SpellingsCloseNoTag(0, s);
    JoinClosesNoTag([QUOTE], t);
    JoinClosesNoTag([QUOTE] + t, [QUOTE]);
  }
}
