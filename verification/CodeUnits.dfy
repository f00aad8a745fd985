/**
 Java text as sequences of UTF-16 code units, and the character classes the JSON
 classes test for.
 */
module CodeUnits {

  /** A Java `char`. */
  type CodeUnit = c: int | 0 <= c <= 0xFFFF

  type Text = seq<CodeUnit>

  const BACKSPACE: CodeUnit := 0x08
  const TAB: CodeUnit := 0x09
  const LF: CodeUnit := 0x0A
  const FF: CodeUnit := 0x0C
  const CR: CodeUnit := 0x0D
  const SPACE: CodeUnit := 0x20
  const QUOTE: CodeUnit := 0x22
  const HASH: CodeUnit := 0x23
  const APOSTROPHE: CodeUnit := 0x27
  const PLUS: CodeUnit := 0x2B
  const COMMA: CodeUnit := 0x2C
  const MINUS: CodeUnit := 0x2D
  const DOT: CodeUnit := 0x2E
  const SLASH: CodeUnit := 0x2F
  const ZERO: CodeUnit := 0x30
  const NINE: CodeUnit := 0x39
  const COLON: CodeUnit := 0x3A
  const SEMICOLON: CodeUnit := 0x3B
  const LESS: CodeUnit := 0x3C
  const EQUALS: CodeUnit := 0x3D
  const GREATER: CodeUnit := 0x3E
  const OPEN_BRACKET: CodeUnit := 0x5B
  const BACKSLASH: CodeUnit := 0x5C
  const CLOSE_BRACKET: CodeUnit := 0x5D
  const OPEN_BRACE: CodeUnit := 0x7B
  const CLOSE_BRACE: CodeUnit := 0x7D

  const LETTER_B: CodeUnit := 0x62
  const LETTER_F: CodeUnit := 0x66
  const LETTER_N: CodeUnit := 0x6E
  const LETTER_R: CodeUnit := 0x72
  const LETTER_T: CodeUnit := 0x74
  const LETTER_U: CodeUnit := 0x75

  const TRUE_WORD: Text := [0x74, 0x72, 0x75, 0x65]
  const FALSE_WORD: Text := [0x66, 0x61, 0x6C, 0x73, 0x65]
  const NULL_WORD: Text := [0x6E, 0x75, 0x6C, 0x6C]

  /** The names mean the ASCII characters. */
  lemma CodesAreAscii()
    ensures [QUOTE, HASH, APOSTROPHE, PLUS, COMMA, MINUS, DOT, SLASH] == Codes("\"#'+,-./")
    ensures [ZERO, NINE, COLON, SEMICOLON, LESS, EQUALS, GREATER] == Codes("09:;<=>")
    ensures [SPACE, OPEN_BRACKET, BACKSLASH, CLOSE_BRACKET, OPEN_BRACE, CLOSE_BRACE] == Codes(" [\\]{}")
    ensures [LETTER_B, LETTER_F, LETTER_N, LETTER_R, LETTER_T, LETTER_U] == Codes("bfnrtu")
    ensures [TAB, LF, CR] == Codes("\t\n\r") && [BACKSPACE, FF] == [8, 12]
    ensures TRUE_WORD == Codes("true") && FALSE_WORD == Codes("false") && NULL_WORD == Codes("null")
  {
  }

  function Codes(s: seq<char>): seq<int> {
    seq(|s|, i requires 0 <= i < |s| => s[i] as int)
  }

  /** What reading one more character gives: 0 at the end, as for a NUL character. */
  function Head(u: Text): CodeUnit {
    if u == [] then 0 else u[0]
  }

  /** What is left after reading one more character. */
  function Tail(u: Text): Text {
    if u == [] then [] else u[1..]
  }

  /** The characters skipped between tokens: everything up to the space, except NUL. */
  predicate IsBlank(c: CodeUnit) {
    0 < c <= SPACE
  }

  predicate Blank(ws: Text) {
    forall i :: 0 <= i < |ws| ==> IsBlank(ws[i])
  }

  function SkipBlank(u: Text): (v: Text)
    ensures |v| <= |u|
    ensures !IsBlank(Head(v))
  {
    if u != [] && IsBlank(u[0]) then SkipBlank(u[1..]) else u
  }

  /** `String.trim`, whose blanks include the NUL character. */
  function Trim(s: Text): Text {
    TrimRight(TrimLeft(s))
  }

  function TrimLeft(s: Text): (t: Text)
    ensures |t| <= |s|
  {
    if s != [] && s[0] <= SPACE then TrimLeft(s[1..]) else s
  }

  function TrimRight(s: Text): (t: Text)
    ensures |t| <= |s|
  {
    if s != [] && s[|s| - 1] <= SPACE then TrimRight(s[..|s| - 1]) else s
  }

  function Spaces(n: int): Text {
    seq(if n < 0 then 0 else n, _ => SPACE)
  }

  // ---------- facts about skipping and trimming ----------

  lemma {:induction false} SkipBlankPad(ws: Text, u: Text)
    requires Blank(ws)
    ensures SkipBlank(ws + u) == SkipBlank(u)
  {
    if ws == [] {
      assert ws + u == u;
    } else {
      assert (ws + u)[1..] == ws[1..] + u;
      SkipBlankPad(ws[1..], u);
    }
  }

  lemma {:induction false} TrimRightPad(s: Text, ws: Text)
    requires s != [] && s[|s| - 1] > SPACE
    requires Blank(ws)
    ensures TrimRight(s + ws) == s
  {
    if ws == [] {
      assert s + ws == s;
    } else {
      assert (s + ws)[..|s + ws| - 1] == s + ws[..|ws| - 1];
      TrimRightPad(s, ws[..|ws| - 1]);
    }
  }
}
