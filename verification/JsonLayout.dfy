/**
 Texts of JSON values, with every freedom the parser grants: blanks between tokens, any
 spelling of a string, `;` for `,`, `=` or `=>` for `:`, a separator before a closing
 bracket, and null elements left out. Each such text is parsed to what it denotes.
 */
module JsonLayout {
  import opened CodeUnits
  import opened JsonValue
  import opened JsonScalars
  import opened JsonParser
  import opened JsonStrings

  datatype Layout =
    | Token(token: Text)
    | Literal(quote: CodeUnit, glyphs: seq<Glyph>)
    | ArrayOf(pad: Text, items: Items)
    | ObjectOf(pad: Text, members: Members)

  /** The text behind `[` and its blanks; behind a separator, CloseArray is an extra separator. */
  datatype Items =
    | CloseArray
    | LastItem(item: Layout, after: Text)
    | ItemThen(item: Layout, after: Text, separator: CodeUnit, pad: Text, items: Items)
    | NothingThen(pad: Text, items: Items)

  /** The text behind `{` and its blanks. */
  datatype Members =
    | CloseObject
    | LastMember(member: MemberText)
    | MemberThen(member: MemberText, separator: CodeUnit, pad: Text, members: Members)

  datatype MemberText =
    MemberText(key: Layout, afterKey: Text, colon: Text, beforeValue: Text, value: Layout, after: Text)

  // ---------- the text ----------

  function Print(l: Layout): Text {
    match l
    case Token(token) => token
    case Literal(quote, glyphs) => [quote] + RenderAll(glyphs) + [quote]
    case ArrayOf(pad, items) => [OPEN_BRACKET] + pad + PrintItems(items)
    case ObjectOf(pad, members) => [OPEN_BRACE] + pad + PrintMembers(members)
  }

  function PrintItems(items: Items): (t: Text)
    ensures t != []
  {
    match items
    case CloseArray => [CLOSE_BRACKET]
    case LastItem(item, after) => Print(item) + after + [CLOSE_BRACKET]
    case ItemThen(item, after, separator, pad, more) =>
      Print(item) + after + [separator] + pad + PrintItems(more)
    case NothingThen(pad, more) => [COMMA] + pad + PrintItems(more)
  }

  function PrintMembers(members: Members): (t: Text)
    ensures t != []
  {
    match members
    case CloseObject => [CLOSE_BRACE]
    case LastMember(member) => PrintMember(member) + [CLOSE_BRACE]
    case MemberThen(member, separator, pad, more) =>
      PrintMember(member) + [separator] + pad + PrintMembers(more)
  }

  function PrintMember(m: MemberText): Text {
    Print(m.key) + m.afterKey + m.colon + m.beforeValue + Print(m.value) + m.after
  }

  // ---------- the value ----------

  function Denotes(lib: Library, l: Layout): Value
    requires WellFormed(lib, l)
  {
    match l
    case Token(token) => StringToValue(lib, token)
    case Literal(quote, glyphs) => Str(MeaningAll(lib, quote, glyphs))
    case ArrayOf(pad, items) => Arr(DenotesItems(lib, items))
    case ObjectOf(pad, members) => Obj(DenotesMembers(lib, members, map[]))
  }

  function DenotesItems(lib: Library, items: Items): seq<Value>
    requires WellFormedItems(lib, items)
  {
    match items
    case CloseArray => []
    case LastItem(item, _) => [Denotes(lib, item)]
    case ItemThen(item, _, _, _, more) => [Denotes(lib, item)] + DenotesItems(lib, more)
    case NothingThen(_, more) => [Null] + DenotesItems(lib, more)
  }

  function DenotesMembers(lib: Library, members: Members, m: map<Text, Value>): map<Text, Value>
    requires WellFormedMembers(lib, members)
  {
    match members
    case CloseObject => m
    case LastMember(member) => m[KeyOf(lib, member) := Denotes(lib, member.value)]
    case MemberThen(member, _, _, more) =>
      DenotesMembers(lib, more, m[KeyOf(lib, member) := Denotes(lib, member.value)])
  }

  function KeyOf(lib: Library, member: MemberText): Text
    requires WellFormedMember(lib, member)
  {
    ToText(lib, Denotes(lib, member.key))
  }

  // ---------- what makes a layout legal ----------

  /** Shape only: blanks are blanks, tokens are tokens, and signs are among the tolerated ones. */
  predicate WellFormed(lib: Library, l: Layout) {
    match l
    case Token(token) => IsToken(token)
    case Literal(quote, glyphs) =>
      && (quote == QUOTE || quote == APOSTROPHE)
      && forall i :: 0 <= i < |glyphs| ==> Readable(lib, quote, glyphs[i])
    case ArrayOf(pad, items) => Blank(pad) && WellFormedItems(lib, items)
    case ObjectOf(pad, members) => Blank(pad) && WellFormedMembers(lib, members)
  }

  /** An unquoted token as the parser leaves it after trimming. */
  predicate IsToken(token: Text) {
    && token != []
    && (forall i :: 0 <= i < |token| ==> IsBare(token[i]))
    && token[0] > SPACE && token[0] != APOSTROPHE
    && token[|token| - 1] > SPACE
  }

  predicate WellFormedItems(lib: Library, items: Items) {
    match items
    case CloseArray => true
    case LastItem(item, after) => WellFormed(lib, item) && Blank(after)
    case ItemThen(item, after, separator, pad, more) =>
      WellFormed(lib, item) && Blank(after) && IsSeparator(separator) && Blank(pad) && WellFormedItems(lib, more)
    case NothingThen(pad, more) => Blank(pad) && WellFormedItems(lib, more)
  }

  predicate WellFormedMembers(lib: Library, members: Members) {
    match members
    case CloseObject => true
    case LastMember(member) => WellFormedMember(lib, member)
    case MemberThen(member, separator, pad, more) =>
      WellFormedMember(lib, member) && IsSeparator(separator) && Blank(pad) && WellFormedMembers(lib, more)
  }

  predicate WellFormedMember(lib: Library, m: MemberText) {
    && WellFormed(lib, m.key) && Blank(m.afterKey)
    && (m.colon == [COLON] || m.colon == [EQUALS] || m.colon == [EQUALS, GREATER])
    && (m.colon == [EQUALS] ==> Head(m.beforeValue + Print(m.value)) != GREATER)
    && Blank(m.beforeValue) && WellFormed(lib, m.value) && Blank(m.after)
  }

  /** No object in the layout has two members with the same key. */
  predicate KeysDiffer(lib: Library, l: Layout)
    requires WellFormed(lib, l)
  {
    match l
    case ArrayOf(_, items) => KeysDifferItems(lib, items)
    case ObjectOf(_, members) => KeysDifferMembers(lib, members, map[])
    case _ => true
  }

  predicate KeysDifferItems(lib: Library, items: Items)
    requires WellFormedItems(lib, items)
  {
    match items
    case CloseArray => true
    case LastItem(item, _) => KeysDiffer(lib, item)
    case ItemThen(item, _, _, _, more) => KeysDiffer(lib, item) && KeysDifferItems(lib, more)
    case NothingThen(_, more) => KeysDifferItems(lib, more)
  }

  /** The members behind those already in m. */
  predicate KeysDifferMembers(lib: Library, members: Members, m: map<Text, Value>)
    requires WellFormedMembers(lib, members)
  {
    match members
    case CloseObject => true
    case LastMember(member) =>
      && KeysDifferMember(lib, member)
      && KeyOf(lib, member) !in m
    case MemberThen(member, _, _, more) =>
      && KeysDifferMember(lib, member)
      && KeyOf(lib, member) !in m
      && KeysDifferMembers(lib, more, m[KeyOf(lib, member) := Denotes(lib, member.value)])
  }

  predicate KeysDifferMember(lib: Library, member: MemberText)
    requires WellFormedMember(lib, member)
  {
    KeysDiffer(lib, member.key) && KeysDiffer(lib, member.value)
  }

  // ---------- unquoted tokens ----------

  /** An unquoted token cannot run into this text: blanks, then a delimiter or the end. */
  predicate Stops(u: Text) {
    Head(SkipBlank(u)) == 0 || Head(SkipBlank(u)) in DELIMITERS
  }

  lemma StopsBehindBlanks(ws: Text, d: CodeUnit, u: Text)
    requires Blank(ws) && d in DELIMITERS
    ensures Stops(ws + ([d] + u)) && SkipBlank(ws + ([d] + u)) == [d] + u
  {
    SkipBlankPad(ws, [d] + u);
  }

  lemma {:induction false} BareToken(token: Text, u: Text)
    requires forall i :: 0 <= i < |token| ==> IsBare(token[i])
    ensures Bare(token + u) == token + Bare(u)
  {
    if token == [] {
      assert token + u == u;
    } else {
      assert (token + u)[1..] == token[1..] + u;
      BareToken(token[1..], u);
    }
  }

  lemma {:induction false} BareStops(u: Text)
    requires Stops(u)
    ensures Blank(Bare(u)) && SkipBlank(u[|Bare(u)|..]) == SkipBlank(u)
  {
    if u != [] && IsBare(u[0]) {
      assert IsBlank(u[0]) || SkipBlank(u) == u;
      BareStops(u[1..]);
      assert u[1..][|Bare(u[1..])|..] == u[|Bare(u)|..];
    }
  }

  lemma TokenReads(lib: Library, token: Text, u: Text)
    requires IsToken(token) && Stops(u)
    ensures var r := NextValue(lib, token + u);
            r.Ok? && r.value == StringToValue(lib, token) && SkipBlank(r.rest) == SkipBlank(u)
  {
    hide NextValue, StringToValue, Stops;
    var v := token + u;
    assert SkipBlank(v) == v && Head(v) == token[0];
    BareToken(token, u);
    BareStops(u);
    TrimmedToken(token, Bare(u));
    BareValue(lib, v);
    assert v[|Bare(v)|..] == u[|Bare(u)|..];
  }

  lemma TrimmedToken(token: Text, ws: Text)
    requires IsToken(token) && Blank(ws)
    ensures Trim(token + ws) == token
  {
    assert TrimLeft(token + ws) == token + ws;
    TrimRightPad(token, ws);
  }

  /** The unquoted token at the start of the text. */
  lemma BareValue(lib: Library, v: Text)
    requires v != [] && SkipBlank(v) == v && IsBare(v[0]) && v[0] != APOSTROPHE && Trim(Bare(v)) != []
    ensures NextValue(lib, v) == Ok(StringToValue(lib, Trim(Bare(v))), v[|Bare(v)|..])
  {
    hide StringToValue, Trim, Bare, ParseObject, ParseArray, NextString;
  }

  // ---------- the theorem ----------

  /**
   A layout followed by text its last token cannot run into is read as the value it denotes.
   What is left unread is that text, up to blanks behind a token.
   */
  ghost predicate Reads(lib: Library, l: Layout, u: Text)
    requires WellFormed(lib, l)
  {
    var r := NextValue(lib, Print(l) + u);
    && r.Ok? && r.value == Denotes(lib, l)
    && SkipBlank(r.rest) == SkipBlank(u)
    && (!l.Token? ==> r.rest == u)
  }

  lemma {:induction false} LayoutReads(lib: Library, l: Layout, u: Text)
    requires WellFormed(lib, l) && KeysDiffer(lib, l) && Stops(u)
    ensures Reads(lib, l, u)
    decreases l, 1
  {
    match l
    case Token(token) => TokenReads(lib, token, u);
    case Literal(_, _) => LiteralReads(lib, l, u);
    case ArrayOf(_, _) =>
      ArrayTextReads(lib, l, [], u);
      ArrayReads(lib, l, u);
    case ObjectOf(_, _) =>
      ObjectTextReads(lib, l, [], u);
      ObjectReads(lib, l, u);
  }

  lemma LiteralReads(lib: Library, l: Layout, u: Text)
    requires WellFormed(lib, l) && l.Literal?
    ensures Reads(lib, l, u)
  {
    var t := Print(l) + u;
    assert t[1..] == RenderAll(l.glyphs) + [l.quote] + u;
    LiteralReadsBack(lib, l.quote, l.glyphs, u);
    hide RenderAll, MeaningAll, NextString, Readable;
  }

  lemma ArrayReads(lib: Library, l: Layout, u: Text)
    requires WellFormed(lib, l) && l.ArrayOf? && ParseArray(lib, [] + (Print(l) + u)) == Ok(Denotes(lib, l), u)
    ensures Reads(lib, l, u)
  {
    var t := Print(l) + u;
    assert [] + t == t && SkipBlank(t) == t && Head(t) == OPEN_BRACKET;
    hide Print, Denotes, ParseArray, ParseObject, WellFormed;
  }

  lemma ObjectReads(lib: Library, l: Layout, u: Text)
    requires WellFormed(lib, l) && l.ObjectOf? && ParseObject(lib, [] + (Print(l) + u)) == Ok(Denotes(lib, l), u)
    ensures Reads(lib, l, u)
  {
    var t := Print(l) + u;
    assert [] + t == t && SkipBlank(t) == t && Head(t) == OPEN_BRACE;
    hide Print, Denotes, ParseArray, ParseObject, WellFormed;
  }

  /** A value starts with no blank and with none of the signs the loops look for. */
  lemma LayoutStarts(lib: Library, l: Layout)
    requires WellFormed(lib, l)
    ensures Print(l) != [] && Print(l)[0] > SPACE
    ensures Print(l)[0] !in {COMMA, CLOSE_BRACKET, CLOSE_BRACE}
  {
    if l.Token? {
      assert IsBare(l.token[0]);
    }
  }

  lemma ItemsStart(lib: Library, items: Items)
    requires WellFormedItems(lib, items)
    ensures PrintItems(items)[0] > SPACE
    ensures PrintItems(items)[0] == CLOSE_BRACKET <==> items.CloseArray?
  {
    if items.LastItem? || items.ItemThen? {
      LayoutStarts(lib, items.item);
    }
  }

  lemma MembersStart(lib: Library, members: Members)
    requires WellFormedMembers(lib, members)
    ensures PrintMembers(members)[0] > SPACE
    ensures PrintMembers(members)[0] == CLOSE_BRACE <==> members.CloseObject?
  {
    if !members.CloseObject? {
      LayoutStarts(lib, members.member.key);
    }
  }

  /** A closing bracket behind a value ends the loop. */
  lemma CloseReads(u: Text, close: CodeUnit, error: Error, v: Text)
    requires close == CLOSE_BRACKET || close == CLOSE_BRACE
    requires SkipBlank(u) == [close] + v
    ensures ItemEnd(u, close, error) == Ok(true, v)
  {
    assert ([close] + v)[1..] == v;
  }

  /** So does one behind a separator; any other sign there keeps the loop going. */
  lemma SeparatorReads(u: Text, d: CodeUnit, pad: Text, close: CodeUnit, error: Error, v: Text)
    requires close != 0 && IsSeparator(d) && Blank(pad)
    requires v != [] && v[0] > SPACE
    requires SkipBlank(u) == [d] + (pad + v)
    ensures ItemEnd(u, close, error) == if v[0] == close then Ok(true, v[1..]) else Ok(false, v)
  {
    assert ([d] + (pad + v))[1..] == pad + v;
    SkipBlankPad(pad, v);
    assert SkipBlank(v) == v;
  }

  /** An element, and the sign that stands behind it. */
  lemma {:induction false} ItemReads(lib: Library, item: Layout, after: Text, d: CodeUnit, u: Text)
    requires WellFormed(lib, item) && KeysDiffer(lib, item) && Blank(after) && d in DELIMITERS
    ensures var r := Element(lib, Print(item) + (after + ([d] + u)));
            r.Ok? && r.value == Denotes(lib, item) && SkipBlank(r.rest) == [d] + u
    decreases item, 2
  {
    var v := after + ([d] + u);
    StopsBehindBlanks(after, d, u);
    LayoutReads(lib, item, v);
    LayoutStarts(lib, item);
    assert SkipBlank(Print(item) + v) == Print(item) + v;
  }

  lemma {:induction false} ItemsRead(lib: Library, items: Items, u: Text, done: seq<Value>)
    requires WellFormedItems(lib, items) && KeysDifferItems(lib, items) && !items.CloseArray?
    ensures ArrayRest(lib, PrintItems(items) + u, done) == Ok(Arr(done + DenotesItems(lib, items)), u)
    decreases items, 0
  {
    match items
    case LastItem(item, after) => LastItemReads(lib, item, after, u, done);
    case ItemThen(item, after, separator, pad, more) =>
      var w := PrintItems(more) + u;
      var t := Print(item) + (after + ([separator] + (pad + w)));
      assert PrintItems(items) + u == t;
      ItemReads(lib, item, after, separator, pad + w);
      MoreItemsRead(lib, t, separator, pad, more, u, done);
    case NothingThen(pad, more) =>
      var t := [COMMA] + (pad + (PrintItems(more) + u));
      assert PrintItems(items) + u == t;
      assert SkipBlank(t) == t;
      MoreItemsRead(lib, t, COMMA, pad, more, u, done);
  }

  lemma {:induction false} LastItemReads(lib: Library, item: Layout, after: Text, u: Text, done: seq<Value>)
    requires WellFormed(lib, item) && Blank(after) && KeysDiffer(lib, item)
    ensures ArrayRest(lib, PrintItems(LastItem(item, after)) + u, done) == Ok(Arr(done + [Denotes(lib, item)]), u)
    decreases item, 3
  {
    var t := Print(item) + (after + ([CLOSE_BRACKET] + u));
    assert PrintItems(LastItem(item, after)) + u == t;
    ItemReads(lib, item, after, CLOSE_BRACKET, u);
    CloseReads(Element(lib, t).rest, CLOSE_BRACKET, ArraySeparator, u);
  }

  lemma {:induction false} MoreItemsRead(
    lib: Library, t: Text, d: CodeUnit, pad: Text, more: Items, u: Text, done: seq<Value>)
    requires WellFormedItems(lib, more) && KeysDifferItems(lib, more)
    requires IsSeparator(d) && Blank(pad)
    requires Element(lib, t).Ok? && SkipBlank(Element(lib, t).rest) == [d] + (pad + (PrintItems(more) + u))
    ensures ArrayRest(lib, t, done) == Ok(Arr(done + ([Element(lib, t).value] + DenotesItems(lib, more))), u)
    decreases more, 1
  {
    var w := PrintItems(more) + u;
    var x := Element(lib, t).value;
    ItemsStart(lib, more);
    SeparatorReads(Element(lib, t).rest, d, pad, CLOSE_BRACKET, ArraySeparator, w);
    assert done + ([x] + DenotesItems(lib, more)) == done + [x] + DenotesItems(lib, more);
    if more.CloseArray? {
      assert w[1..] == u;
      assert done + [x] + [] == done + [x];
    } else {
      ItemsRead(lib, more, u, done + [x]);
    }
  }

  lemma {:induction false} MembersRead(lib: Library, members: Members, u: Text, m: map<Text, Value>)
    requires WellFormedMembers(lib, members) && KeysDifferMembers(lib, members, m)
    ensures ObjectRest(lib, PrintMembers(members) + u, m) == Ok(Obj(DenotesMembers(lib, members, m)), u)
    decreases members, 0
  {
    var t := PrintMembers(members) + u;
    MembersStart(lib, members);
    assert SkipBlank(t) == t;
    match members
    case CloseObject =>
      assert t[1..] == u;
    case LastMember(member) =>
      assert t == PrintMember(member) + ([CLOSE_BRACE] + u);
      PairReads(lib, member, CLOSE_BRACE, u);
      CloseReads(Pair(lib, t).rest, CLOSE_BRACE, PairSeparator, u);
    case MemberThen(member, separator, pad, more) =>
      var w := PrintMembers(more) + u;
      assert t == PrintMember(member) + ([separator] + (pad + w));
      PairReads(lib, member, separator, pad + w);
      MembersStart(lib, more);
      SeparatorReads(Pair(lib, t).rest, separator, pad, CLOSE_BRACE, PairSeparator, w);
      if more.CloseObject? {
        assert w[1..] == u;
      } else {
        MembersRead(lib, more, u, m[KeyOf(lib, member) := Denotes(lib, member.value)]);
      }
  }

  lemma {:induction false} KeyReads(lib: Library, m: MemberText, v: Text)
    requires WellFormedMember(lib, m) && KeysDiffer(lib, m.key)
    ensures var r := NextValue(lib, Print(m.key) + (m.afterKey + (m.colon + v)));
            r.Ok? && ToText(lib, r.value) == KeyOf(lib, m) && SkipBlank(r.rest) == m.colon + v
    decreases m, 2
  {
    assert m.colon + v == [m.colon[0]] + (m.colon[1..] + v);
    StopsBehindBlanks(m.afterKey, m.colon[0], m.colon[1..] + v);
    LayoutReads(lib, m.key, m.afterKey + (m.colon + v));
  }

  lemma {:induction false} ValueReads(lib: Library, m: MemberText, d: CodeUnit, u: Text)
    requires WellFormedMember(lib, m) && KeysDifferMember(lib, m) && d in DELIMITERS
    ensures var r := NextValue(lib, m.beforeValue + (Print(m.value) + (m.after + ([d] + u))));
            r.Ok? && r.value == Denotes(lib, m.value) && SkipBlank(r.rest) == [d] + u
    decreases m, 2
  {
    var behind := m.after + ([d] + u);
    StopsBehindBlanks(m.after, d, u);
    LayoutReads(lib, m.value, behind);
    SkipBlankPad(m.beforeValue, Print(m.value) + behind);
    NextValueSkips(lib, m.beforeValue + (Print(m.value) + behind), Print(m.value) + behind);
  }

  lemma {:induction false} PairReads(lib: Library, m: MemberText, d: CodeUnit, u: Text)
    requires WellFormedMember(lib, m) && KeysDifferMember(lib, m) && d in DELIMITERS
    ensures var r := Pair(lib, PrintMember(m) + ([d] + u));
            r.Ok? && r.value == (KeyOf(lib, m), Denotes(lib, m.value)) && SkipBlank(r.rest) == [d] + u
    decreases m, 3
  {
    var behind := m.after + ([d] + u);
    var v := m.beforeValue + (Print(m.value) + behind);
    var t := Print(m.key) + (m.afterKey + (m.colon + v));
    assert PrintMember(m) + ([d] + u) == t;
    KeyReads(lib, m, v);
    ColonReads(lib, m, NextValue(lib, t).rest, behind);
    ValueReads(lib, m, d, u);
  }

  lemma NextValueSkips(lib: Library, t: Text, v: Text)
    requires SkipBlank(t) == SkipBlank(v)
    ensures NextValue(lib, t) == NextValue(lib, v)
  {
  }

  lemma ColonReads(lib: Library, m: MemberText, u: Text, behind: Text)
    requires WellFormedMember(lib, m)
    requires SkipBlank(u) == m.colon + (m.beforeValue + (Print(m.value) + behind))
    ensures KeySeparator(u) == Ok((), m.beforeValue + (Print(m.value) + behind))
  {
    var t := m.beforeValue + (Print(m.value) + behind);
    var w := SkipBlank(u);
    LayoutStarts(lib, m.value);
    assert Head(t) == Head(m.beforeValue + Print(m.value));
    if m.colon == [EQUALS, GREATER] {
      assert w[2..] == t;
    } else {
      assert w[1..] == t;
    }
  }

  /**
   The text of an object layout, with any blanks in front and any text behind, is parsed to
   the object it denotes, and parsing stops right behind its closing brace.
   */
  lemma {:induction false} ObjectTextReads(lib: Library, l: Layout, pad: Text, u: Text)
    requires WellFormed(lib, l) && KeysDiffer(lib, l) && l.ObjectOf? && Blank(pad)
    ensures ParseObject(lib, pad + (Print(l) + u)) == Ok(Denotes(lib, l), u)
    decreases l, 0
  {
    var v := PrintMembers(l.members) + u;
    assert Print(l) + u == [OPEN_BRACE] + (l.pad + v);
    MembersStart(lib, l.members);
    ObjectOpens(lib, pad, l.pad, v);
    MembersRead(lib, l.members, u, map[]);
  }

  lemma ObjectOpens(lib: Library, pad: Text, inner: Text, v: Text)
    requires Blank(pad) && Blank(inner)
    ensures ParseObject(lib, pad + ([OPEN_BRACE] + (inner + v))) == ObjectRest(lib, v, map[])
  {
    var t := [OPEN_BRACE] + (inner + v);
    SkipBlankPad(pad, t);
    assert SkipBlank(t) == t && t[1..] == inner + v;
    SkipBlankPad(inner, v);
  }

  /** The same for an array. */
  lemma {:induction false} ArrayTextReads(lib: Library, l: Layout, pad: Text, u: Text)
    requires WellFormed(lib, l) && KeysDiffer(lib, l) && l.ArrayOf? && Blank(pad)
    ensures ParseArray(lib, pad + (Print(l) + u)) == Ok(Denotes(lib, l), u)
    decreases l, 0
  {
    var v := PrintItems(l.items) + u;
    assert Print(l) + u == [OPEN_BRACKET] + (l.pad + v);
    ItemsStart(lib, l.items);
    ArrayOpens(lib, pad, l.pad, v);
    if l.items.CloseArray? {
      assert v[1..] == u;
    } else {
      ItemsRead(lib, l.items, u, []);
      assert [] + DenotesItems(lib, l.items) == DenotesItems(lib, l.items);
    }
  }

  lemma ArrayOpens(lib: Library, pad: Text, inner: Text, v: Text)
    requires Blank(pad) && Blank(inner) && v != [] && v[0] > SPACE
    ensures ParseArray(lib, pad + ([OPEN_BRACKET] + (inner + v)))
         == if v[0] == CLOSE_BRACKET then Ok(Arr([]), v[1..]) else ArrayRest(lib, v, [])
  {
    var t := [OPEN_BRACKET] + (inner + v);
    SkipBlankPad(pad, t);
    assert SkipBlank(t) == t && t[1..] == inner + v;
    SkipBlankPad(inner, v);
    assert SkipBlank(v) == v;
  }
}
