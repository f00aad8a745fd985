/**
 Why the parser refuses a text: two members with the same key, anywhere in it, end the parse
 with that exception, and the other exceptions name what is missing.
 */
module JsonRefusal {
  import opened Options
  import opened CodeUnits
  import opened JsonValue
  import opened JsonScalars
  import opened JsonParser
  import opened JsonLayout

  // ---------- double keys ----------

  predicate FindsDouble<T>(r: Outcome<T>) {
    r.Fail? && r.error.DuplicateKey?
  }

  /** A layout with a double key somewhere is refused for it, wherever it stands. */
  lemma {:induction false} DoubleKeyRefused(lib: Library, l: Layout, u: Text)
    requires WellFormed(lib, l) && !KeysDiffer(lib, l) && Stops(u)
    ensures FindsDouble(NextValue(lib, Print(l) + u))
    decreases l, 1
  {
    var t := Print(l) + u;
    assert [] + t == t;
    if l.ArrayOf? {
      DoubleKeyInArray(lib, l, [], u);
    } else {
      DoubleKeyInObject(lib, l, [], u);
    }
  }

  /** An object layout that repeats a key, itself or in a value or key of it, is refused. */
  lemma {:induction false} DoubleKeyInObject(lib: Library, l: Layout, pad: Text, u: Text)
    requires WellFormed(lib, l) && l.ObjectOf? && !KeysDiffer(lib, l) && Blank(pad)
    ensures FindsDouble(ParseObject(lib, pad + (Print(l) + u)))
    decreases l, 0
  {
    var v := PrintMembers(l.members) + u;
    assert Print(l) + u == [OPEN_BRACE] + (l.pad + v);
    ObjectOpens(lib, pad, l.pad, v);
    DoubleKeyInMembers(lib, l.members, u, map[]);
  }

  lemma {:induction false} DoubleKeyInArray(lib: Library, l: Layout, pad: Text, u: Text)
    requires WellFormed(lib, l) && l.ArrayOf? && !KeysDiffer(lib, l) && Blank(pad)
    ensures FindsDouble(ParseArray(lib, pad + (Print(l) + u)))
    decreases l, 0
  {
    var v := PrintItems(l.items) + u;
    assert Print(l) + u == [OPEN_BRACKET] + (l.pad + v);
    ItemsStart(lib, l.items);
    ArrayOpens(lib, pad, l.pad, v);
    DoubleKeyInItems(lib, l.items, u, []);
  }

  lemma {:induction false} DoubleKeyInItem(lib: Library, item: Layout, after: Text, d: CodeUnit, u: Text)
    requires WellFormed(lib, item) && !KeysDiffer(lib, item) && Blank(after) && d in DELIMITERS
    ensures FindsDouble(Element(lib, Print(item) + (after + ([d] + u))))
    decreases item, 2
  {
    var v := after + ([d] + u);
    StopsBehindBlanks(after, d, u);
    DoubleKeyRefused(lib, item, v);
    LayoutStarts(lib, item);
    assert SkipBlank(Print(item) + v) == Print(item) + v;
  }

  lemma ElementFails(lib: Library, t: Text, done: seq<Value>)
    requires FindsDouble(Element(lib, t))
    ensures FindsDouble(ArrayRest(lib, t, done))
  {
    hide Element;
  }

  lemma {:induction false} DoubleKeyInItems(lib: Library, items: Items, u: Text, done: seq<Value>)
    requires WellFormedItems(lib, items) && !KeysDifferItems(lib, items)
    ensures FindsDouble(ArrayRest(lib, PrintItems(items) + u, done))
    decreases items, 0
  {
    hide ArrayRest, Element;
    var t := PrintItems(items) + u;
    match items
    case LastItem(item, after) =>
      assert t == Print(item) + (after + ([CLOSE_BRACKET] + u));
      DoubleKeyInItem(lib, item, after, CLOSE_BRACKET, u);
      ElementFails(lib, t, done);
    case ItemThen(item, after, separator, pad, more) =>
      var w := PrintItems(more) + u;
      assert t == Print(item) + (after + ([separator] + (pad + w)));
      if KeysDiffer(lib, item) {
        ItemReads(lib, item, after, separator, pad + w);
        ItemsGoOn(lib, t, separator, pad, more, u, done);
        DoubleKeyInItems(lib, more, u, done + [Denotes(lib, item)]);
      } else {
        DoubleKeyInItem(lib, item, after, separator, pad + w);
        ElementFails(lib, t, done);
      }
    case NothingThen(pad, more) =>
      assert t == [COMMA] + (pad + (PrintItems(more) + u));
      OmittedElement(lib, t);
      ItemsGoOn(lib, t, COMMA, pad, more, u, done);
      DoubleKeyInItems(lib, more, u, done + [Null]);
  }

  lemma OmittedElement(lib: Library, t: Text)
    requires Head(t) == COMMA
    ensures Element(lib, t) == Ok(Null, t) && SkipBlank(t) == t
  {
  }

  /** Behind an element and a separator the loop goes on with the other elements. */
  lemma ItemsGoOn(lib: Library, t: Text, d: CodeUnit, pad: Text, more: Items, u: Text, done: seq<Value>)
    requires WellFormedItems(lib, more) && !more.CloseArray? && IsSeparator(d) && Blank(pad)
    requires Element(lib, t).Ok? && SkipBlank(Element(lib, t).rest) == [d] + (pad + (PrintItems(more) + u))
    ensures ArrayRest(lib, t, done) == ArrayRest(lib, PrintItems(more) + u, done + [Element(lib, t).value])
  {
    ItemsStart(lib, more);
    SeparatorReads(Element(lib, t).rest, d, pad, CLOSE_BRACKET, ArraySeparator, PrintItems(more) + u);
    hide Element, ItemEnd, PrintItems;
  }

  lemma {:induction false} DoubleKeyInPair(lib: Library, m: MemberText, d: CodeUnit, u: Text)
    requires WellFormedMember(lib, m) && !KeysDifferMember(lib, m) && d in DELIMITERS
    ensures FindsDouble(Pair(lib, PrintMember(m) + ([d] + u)))
    decreases m, 3
  {
    var behind := m.after + ([d] + u);
    var v := m.beforeValue + (Print(m.value) + behind);
    var t := Print(m.key) + (m.afterKey + (m.colon + v));
    assert PrintMember(m) + ([d] + u) == t;
    hide NextValue, Print, Pair, KeySeparator;
    if KeysDiffer(lib, m.key) {
      KeyReads(lib, m, v);
      ColonReads(lib, m, NextValue(lib, t).rest, behind);
      StopsBehindBlanks(m.after, d, u);
      DoubleKeyRefused(lib, m.value, behind);
      SkipBlankPad(m.beforeValue, Print(m.value) + behind);
      NextValueSkips(lib, v, Print(m.value) + behind);
      PairFails(lib, t);
    } else {
      assert m.colon + v == [m.colon[0]] + (m.colon[1..] + v);
      StopsBehindBlanks(m.afterKey, m.colon[0], m.colon[1..] + v);
      DoubleKeyRefused(lib, m.key, m.afterKey + (m.colon + v));
      PairFails(lib, t);
    }
  }

  /** A pair ends as its key does, or as its value. */
  lemma PairFails(lib: Library, t: Text)
    requires var key := NextValue(lib, t);
             || FindsDouble(key)
             || (key.Ok? && KeySeparator(key.rest).Ok? && FindsDouble(NextValue(lib, KeySeparator(key.rest).rest)))
    ensures FindsDouble(Pair(lib, t))
  {
    hide NextValue, KeySeparator;
  }

  lemma {:induction false} DoubleKeyInMembers(lib: Library, members: Members, u: Text, m: map<Text, Value>)
    requires WellFormedMembers(lib, members) && !KeysDifferMembers(lib, members, m)
    ensures FindsDouble(ObjectRest(lib, PrintMembers(members) + u, m))
    decreases members, 0
  {
    var t := PrintMembers(members) + u;
    MembersStart(lib, members);
    assert SkipBlank(t) == t;
    match members
    case LastMember(member) =>
      assert t == PrintMember(member) + ([CLOSE_BRACE] + u);
      if KeysDifferMember(lib, member) {
        PairReads(lib, member, CLOSE_BRACE, u);
      } else {
        DoubleKeyInPair(lib, member, CLOSE_BRACE, u);
      }
    case MemberThen(member, separator, pad, more) =>
      var w := PrintMembers(more) + u;
      assert t == PrintMember(member) + ([separator] + (pad + w));
      if KeysDifferMember(lib, member) {
        PairReads(lib, member, separator, pad + w);
        if KeyOf(lib, member) !in m {
          MembersStart(lib, more);
          SeparatorReads(Pair(lib, t).rest, separator, pad, CLOSE_BRACE, PairSeparator, w);
          DoubleKeyInMembers(lib, more, u, m[KeyOf(lib, member) := Denotes(lib, member.value)]);
        }
      } else {
        DoubleKeyInPair(lib, member, separator, pad + w);
      }
  }

  // ---------- signs by ASCII code ----------

  /** The characters that the parser tells apart. */
  lemma SignsByCode(c: CodeUnit)
    ensures IsBlank(c) <==> 0 < c <= 0x20
    ensures IsBare(c)
       <==> c >= 0x20 && c !in {0x22, 0x23, 0x2C, 0x2F, 0x3A, 0x3B, 0x3D, 0x5B, 0x5C, 0x5D, 0x7B, 0x7D}
    ensures IsSeparator(c) <==> c == 0x2C || c == 0x3B
    ensures ShortEscape(c)
         == if c == 0x62 then Some(0x08) else if c == 0x74 then Some(0x09) else if c == 0x6E then Some(0x0A)
            else if c == 0x66 then Some(0x0C) else if c == 0x72 then Some(0x0D)
            else if c in {0x22, 0x27, 0x2F, 0x5C} then Some(c) else None
  {
  }

  /** What the first sign of a value decides, and what may stand behind a key and behind an entry. */
  lemma FirstSignDecides(lib: Library, u: Text)
    ensures var v := SkipBlank(u);
            && (Head(v) in {0x22, 0x27} ==>
                  NextValue(lib, u)
                  == match NextString(lib, v[1..], v[0]) case Ok(s, rest) => Ok(Str(s), rest) case Fail(e) => Fail(e))
            && (Head(v) == 0x7B ==> NextValue(lib, u) == ParseObject(lib, v))
            && (Head(v) == 0x5B ==> NextValue(lib, u) == ParseArray(lib, v))
            && (Head(v) == 0x3A ==> KeySeparator(u) == Ok((), v[1..]))
            && (Head(v) == 0x3D ==> KeySeparator(u) == Ok((), if Head(v[1..]) == 0x3E then v[2..] else v[1..]))
            && (Head(v) == 0x5D ==> ItemEnd(u, CLOSE_BRACKET, ArraySeparator) == Ok(true, v[1..]))
            && (Head(v) == 0x7D ==> ItemEnd(u, CLOSE_BRACE, PairSeparator) == Ok(true, v[1..]))
            && (Head(v) in {0x2C, 0x3B} ==>
                  && ItemEnd(u, CLOSE_BRACKET, ArraySeparator).Ok? && ItemEnd(u, CLOSE_BRACE, PairSeparator).Ok?)
  {
    hide ObjectRest, ArrayRest, NextString;
  }

  /** The key that a value makes. */
  lemma KeysFromValues(lib: Library, s: Text, n: int)
    ensures ToText(lib, Str(s)) == s && ToText(lib, Int(n)) == LongText(n)
    ensures ToText(lib, Null) == Codes("null")
    ensures ToText(lib, Bool(true)) == Codes("true") && ToText(lib, Bool(false)) == Codes("false")
  {
    CodesAreAscii();
  }

  // ---------- the other exceptions ----------

  /** Which exception names which missing sign, by ASCII code. */
  lemma RefusalsNameWhatIsMissing(lib: Library, u: Text)
    ensures Head(SkipBlank(u)) != 0x7B ==> ParseObject(lib, u) == Fail(ObjectBegin)
    ensures Head(SkipBlank(u)) != 0x5B ==> ParseArray(lib, u) == Fail(ArrayBegin)
    ensures Head(SkipBlank(u)) in {0x2C, 0x3A, 0x3B, 0x3D, 0x5D, 0x7D} ==> NextValue(lib, u) == Fail(MissingValue)
    ensures Head(SkipBlank(u)) !in {0x3A, 0x3D} ==> KeySeparator(u) == Fail(KeyColon)
    ensures Head(SkipBlank(u)) !in {0x2C, 0x3B, 0x5D} ==>
              ItemEnd(u, CLOSE_BRACKET, ArraySeparator) == Fail(ArraySeparator)
    ensures Head(SkipBlank(u)) !in {0x2C, 0x3B, 0x7D} ==>
              ItemEnd(u, CLOSE_BRACE, PairSeparator) == Fail(PairSeparator)
  {
    hide ObjectRest, ArrayRest;
  }

  /** The texts that end too early. */
  lemma RefusalsAtTheEnd(lib: Library, u: Text, m: map<Text, Value>, q: CodeUnit)
    ensures Head(SkipBlank(u)) == 0 ==> ObjectRest(lib, u, m) == Fail(ObjectEnd) && NextValue(lib, u) == Fail(MissingValue)
    ensures Head(u) in {0x00, 0x0A, 0x0D} ==> NextString(lib, u, q) == Fail(UnterminatedString)
    ensures u != [] && u[0] == 0x5C && Head(u[1..]) !in {0x22, 0x27, 0x2F, 0x5C, 0x62, 0x66, 0x6E, 0x72, 0x74, 0x75} ==>
              NextString(lib, u, q) == Fail(IllegalEscape)
  {
  }
}
