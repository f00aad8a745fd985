/**
 The parser as a pure function of the unread text: what `JSONTokener.nextString` and
 `nextValue` and the tokener constructors of `JSONObject` and `JSONArray` do, with the
 text that is left unread as part of the result.
 */
module JsonParser {
  import opened Options
  import opened CodeUnits
  import opened JsonValue
  import opened JsonScalars

  /** The exceptions a parse can end in, without their texts. */
  datatype Error =
    | ObjectBegin | ObjectEnd | KeyColon | PairSeparator | DuplicateKey(key: Text)
    | ArrayBegin | ArraySeparator
    | UnterminatedString | IllegalEscape | SubstringBounds | BadHex
    | MissingValue

  datatype Outcome<+T> = Ok(value: T, rest: Text) | Fail(error: Error)

  // ---------- strings ----------

  /** The character a one-letter escape stands for, or None for an illegal one. */
  function ShortEscape(c: CodeUnit): Option<CodeUnit> {
    if c == LETTER_B then Some(BACKSPACE)
    else if c == LETTER_T then Some(TAB)
    else if c == LETTER_N then Some(LF)
    else if c == LETTER_F then Some(FF)
    else if c == LETTER_R then Some(CR)
    else if c == QUOTE || c == APOSTROPHE || c == BACKSLASH || c == SLASH then Some(c)
    else None
  }

  /** `next(4)`: four characters, none of them the end of the text or a NUL. */
  function TakeFour(u: Text): Outcome<Text> {
    if |u| >= 4 && 0 !in u[..4] then Ok(u[..4], u[4..]) else Fail(SubstringBounds)
  }

  /** The character of a \u escape: `(char)Integer.parseInt(next(4), 16)`. */
  function HexEscape(lib: Library, u: Text): (r: Outcome<CodeUnit>)
    ensures r.Ok? ==> |r.rest| < |u|
  {
    match TakeFour(u)
    case Fail(e) => Fail(e)
    case Ok(hex, rest) =>
      match ParseSigned(lib, hex, 16)
      case None => Fail(BadHex)
      case Some(n) => Ok(n % 0x1_0000, rest)
  }

  /** An escape, after its backslash. */
  function Escape(lib: Library, u: Text): (r: Outcome<CodeUnit>)
    ensures r.Ok? ==> |r.rest| < |u|
  {
    if Head(u) == LETTER_U then HexEscape(lib, Tail(u))
    else
      match ShortEscape(Head(u))
      case None => Fail(IllegalEscape)
      case Some(e) => Ok(e, Tail(u))
  }

  /** Puts characters that were already read in front of the rest of a string. */
  function Prefixed(s: Text, r: Outcome<Text>): Outcome<Text> {
    match r
    case Ok(t, rest) => Ok(s + t, rest)
    case Fail(e) => Fail(e)
  }

  lemma PrefixedNothing(r: Outcome<Text>)
    ensures Prefixed([], r) == r
  {
    if r.Ok? {
      assert [] + r.value == r.value;
    }
  }

  lemma PrefixedTwice(s: Text, t: Text, r: Outcome<Text>)
    ensures Prefixed(s, Prefixed(t, r)) == Prefixed(s + t, r)
  {
    if r.Ok? {
      assert s + (t + r.value) == s + t + r.value;
    }
  }

  function NextString(lib: Library, u: Text, quote: CodeUnit): (r: Outcome<Text>)
    ensures r.Ok? ==> |r.rest| < |u|
  {
    if u == [] || u[0] == 0 || u[0] == LF || u[0] == CR then Fail(UnterminatedString)
    else if u[0] == BACKSLASH then
      match Escape(lib, u[1..])
      case Fail(e) => Fail(e)
      case Ok(c, rest) => Prefixed([c], NextString(lib, rest, quote))
    else if u[0] == quote then Ok([], u[1..])
    else Prefixed([u[0]], NextString(lib, u[1..], quote))
  }

  // ---------- unquoted tokens ----------

  /** The characters that end an unquoted token, beside the control characters. */
  const DELIMITERS: set<CodeUnit> := {
    COMMA, COLON, CLOSE_BRACKET, CLOSE_BRACE, SLASH, BACKSLASH, QUOTE,
    OPEN_BRACKET, OPEN_BRACE, SEMICOLON, EQUALS, HASH
  }

  predicate IsBare(c: CodeUnit) {
    c >= SPACE && c !in DELIMITERS
  }

  function Bare(u: Text): (s: Text)
    ensures s <= u
    ensures u != [] && IsBare(u[0]) <==> s != []
  {
    if u != [] && IsBare(u[0]) then [u[0]] + Bare(u[1..]) else []
  }

  // ---------- values ----------

  /** `toString` of a value used as a key. */
  function ToText(lib: Library, v: Value): Text {
    match v
    case Str(s) => s
    case Null => NULL_WORD
    case Bool(b) => if b then TRUE_WORD else FALSE_WORD
    case Int(n) => LongText(n)
    case _ => lib.toText(v)
  }

  predicate IsSeparator(c: CodeUnit) {
    c == COMMA || c == SEMICOLON
  }

  function NextValue(lib: Library, u: Text): (r: Outcome<Value>)
    decreases |u|, 1
    ensures r.Ok? ==> |r.rest| < |u|
  {
    var v := SkipBlank(u);
    var c := Head(v);
    if c == QUOTE || c == APOSTROPHE then
      match NextString(lib, v[1..], c)
      case Ok(s, rest) => Ok(Str(s), rest)
      case Fail(e) => Fail(e)
    else if c == OPEN_BRACE then ParseObject(lib, v)
    else if c == OPEN_BRACKET then ParseArray(lib, v)
    else
      var token := Trim(Bare(v));
      if token == [] then Fail(MissingValue)
      else Ok(StringToValue(lib, token), v[|Bare(v)|..])
  }

  /** `new JSONObject(tokener)`. */
  function ParseObject(lib: Library, u: Text): (r: Outcome<Value>)
    decreases |u|, 0
    ensures r.Ok? ==> |r.rest| < |u| && r.value.Obj?
  {
    var v := SkipBlank(u);
    if Head(v) != OPEN_BRACE then Fail(ObjectBegin) else ObjectRest(lib, v[1..], map[])
  }

  /** The loop of the object constructor, at its head with the members m already put. */
  function ObjectRest(lib: Library, u: Text, m: map<Text, Value>): (r: Outcome<Value>)
    decreases |u|, 3
    ensures r.Ok? ==> |r.rest| < |u| && r.value.Obj?
  {
    var v := SkipBlank(u);
    if Head(v) == 0 then Fail(ObjectEnd)
    else if Head(v) == CLOSE_BRACE then Ok(Obj(m), v[1..])
    else
      match Pair(lib, v)
      case Fail(e) => Fail(e)
      case Ok((key, x), afterPair) =>
        if key in m then Fail(DuplicateKey(key))
        else
          match ItemEnd(afterPair, CLOSE_BRACE, PairSeparator)
          case Fail(e) => Fail(e)
          case Ok(closed, rest) =>
            if closed then Ok(Obj(m[key := x]), rest) else ObjectRest(lib, rest, m[key := x])
  }

  /**
   What stands after a member or an element: a separator, the closing bracket, or both.
   The value says whether the bracket was there.
   */
  function ItemEnd(u: Text, close: CodeUnit, error: Error): (r: Outcome<bool>)
    requires close != 0
    ensures r.Ok? ==> |r.rest| < |u|
  {
    var s := SkipBlank(u);
    if IsSeparator(Head(s)) then
      var t := SkipBlank(s[1..]);
      if Head(t) == close then Ok(true, t[1..]) else Ok(false, t)
    else if Head(s) == close then Ok(true, s[1..])
    else Fail(error)
  }

  /** A key, what stands after it, and its value. */
  function Pair(lib: Library, u: Text): (r: Outcome<(Text, Value)>)
    decreases |u|, 2
    ensures r.Ok? ==> |r.rest| < |u|
  {
    match NextValue(lib, u)
    case Fail(e) => Fail(e)
    case Ok(k, afterKey) =>
      match KeySeparator(afterKey)
      case Fail(e) => Fail(e)
      case Ok(_, w) =>
        match NextValue(lib, w)
        case Fail(e) => Fail(e)
        case Ok(x, rest) => Ok((ToText(lib, k), x), rest)
  }

  /** What stands between a key and its value: `:`, `=` or `=>`. */
  function KeySeparator(u: Text): (r: Outcome<()>)
    ensures r.Ok? ==> |r.rest| < |u|
  {
    var w := SkipBlank(u);
    if Head(w) == EQUALS then Ok((), if Head(w[1..]) == GREATER then w[2..] else w[1..])
    else if Head(w) == COLON then Ok((), w[1..])
    else Fail(KeyColon)
  }

  /** `new JSONArray(tokener)`. */
  function ParseArray(lib: Library, u: Text): (r: Outcome<Value>)
    decreases |u|, 0
    ensures r.Ok? ==> |r.rest| < |u| && r.value.Arr?
  {
    var v := SkipBlank(u);
    if Head(v) != OPEN_BRACKET then Fail(ArrayBegin)
    else
      var w := SkipBlank(v[1..]);
      if Head(w) == CLOSE_BRACKET then Ok(Arr([]), w[1..]) else ArrayRest(lib, w, [])
  }

  /** The loop of the array constructor, at its head with the given elements already added. */
  function ArrayRest(lib: Library, u: Text, items: seq<Value>): (r: Outcome<Value>)
    decreases |u|, 3
    ensures r.Ok? ==> |r.rest| < |u| && r.value.Arr?
  {
    match Element(lib, u)
    case Fail(e) => Fail(e)
    case Ok(x, afterElement) =>
      match ItemEnd(afterElement, CLOSE_BRACKET, ArraySeparator)
      case Fail(e) => Fail(e)
      case Ok(closed, rest) =>
        if closed then Ok(Arr(items + [x]), rest) else ArrayRest(lib, rest, items + [x])
  }

  /** One array element; one that is left out before a comma is null. */
  function Element(lib: Library, u: Text): (r: Outcome<Value>)
    decreases |u|, 2
    ensures r.Ok? ==> |r.rest| <= |u|
  {
    var v := SkipBlank(u);
    if Head(v) == COMMA then Ok(Null, v) else NextValue(lib, v)
  }
}
