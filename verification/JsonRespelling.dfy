/**
 Respelling a JSON text: the freedoms of the parser as a relation between layouts, which keeps
 what the text denotes.
 */
module JsonRespelling {
  import opened CodeUnits
  import opened JsonValue
  import opened JsonScalars
  import opened JsonParser
  import opened JsonStrings
  import opened JsonLayout
  import opened JsonPrinter
  import opened JsonRoundTrip

  const NULL_TOKEN: Layout := Token(NULL_WORD)

  /**
   b is another spelling of a: any blanks, either separator, an extra separator before a closing
   bracket or none, any of the signs between key and value, any spelling of a string in either
   quote, and an element null left out before a comma.
   */
  predicate Respells(lib: Library, a: Layout, b: Layout) {
    match (a, b)
    case (Token(s), Token(t)) => s == t
    case (Literal(q, gs), Literal(r, hs)) =>
      WellFormed(lib, a) && WellFormed(lib, b) && MeaningAll(lib, q, gs) == MeaningAll(lib, r, hs)
    case (ArrayOf(_, xs), ArrayOf(pad, ys)) => Blank(pad) && RespellsItems(lib, xs, ys)
    case (ObjectOf(_, xs), ObjectOf(pad, ys)) => Blank(pad) && RespellsMembers(lib, xs, ys)
    case _ => false
  }

  predicate RespellsItems(lib: Library, xs: Items, ys: Items) {
    match (xs, ys)
    case (CloseArray, CloseArray) => true
    case (LastItem(x, _), LastItem(y, after)) => Respells(lib, x, y) && Blank(after)
    case (LastItem(x, _), ItemThen(y, after, separator, pad, more)) =>
      Respells(lib, x, y) && Blank(after) && IsSeparator(separator) && Blank(pad) && more.CloseArray?
    case (LastItem(x, _), NothingThen(pad, more)) => x == NULL_TOKEN && Blank(pad) && more.CloseArray?
    case (ItemThen(x, _, _, _, rest), LastItem(y, after)) => rest.CloseArray? && Respells(lib, x, y) && Blank(after)
    case (ItemThen(x, _, _, _, rest), ItemThen(y, after, separator, pad, more)) =>
      Respells(lib, x, y) && Blank(after) && IsSeparator(separator) && Blank(pad) && RespellsItems(lib, rest, more)
    case (ItemThen(x, _, _, _, rest), NothingThen(pad, more)) =>
      x == NULL_TOKEN && Blank(pad) && RespellsItems(lib, rest, more)
    case (NothingThen(_, rest), NothingThen(pad, more)) => Blank(pad) && RespellsItems(lib, rest, more)
    case _ => false
  }

  predicate RespellsMembers(lib: Library, xs: Members, ys: Members) {
    match (xs, ys)
    case (CloseObject, CloseObject) => true
    case (LastMember(x), LastMember(y)) => RespellsMember(lib, x, y)
    case (LastMember(x), MemberThen(y, separator, pad, more)) =>
      RespellsMember(lib, x, y) && IsSeparator(separator) && Blank(pad) && more.CloseObject?
    case (MemberThen(x, _, _, rest), LastMember(y)) => rest.CloseObject? && RespellsMember(lib, x, y)
    case (MemberThen(x, _, _, rest), MemberThen(y, separator, pad, more)) =>
      RespellsMember(lib, x, y) && IsSeparator(separator) && Blank(pad) && RespellsMembers(lib, rest, more)
    case _ => false
  }

  /** A lone `=` must not run into a value that starts with `>`. */
  predicate RespellsMember(lib: Library, x: MemberText, y: MemberText) {
    && Respells(lib, x.key, y.key) && Respells(lib, x.value, y.value)
    && Blank(y.afterKey) && Blank(y.beforeValue) && Blank(y.after)
    && (y.colon == [COLON] || y.colon == [EQUALS] || y.colon == [EQUALS, GREATER])
    && (y.colon == [EQUALS] ==> Head(y.beforeValue + Print(y.value)) != GREATER)
  }

  /** A respelling is legal where the text was, and denotes the same value. */
  lemma {:induction false} RespellingKeeps(lib: Library, a: Layout, b: Layout)
    requires WellFormed(lib, a) && Respells(lib, a, b)
    ensures WellFormed(lib, b) && Denotes(lib, b) == Denotes(lib, a)
    ensures KeysDiffer(lib, b) == KeysDiffer(lib, a)
    decreases a
  {
    match a
    case Token(_) =>
    case Literal(_, _) =>
    case ArrayOf(_, xs) => RespellingKeepsItems(lib, xs, b.items);
    case ObjectOf(_, xs) => RespellingKeepsMembers(lib, xs, b.members, map[]);
  }

  lemma {:induction false} RespellingKeepsItems(lib: Library, xs: Items, ys: Items)
    requires WellFormedItems(lib, xs) && RespellsItems(lib, xs, ys)
    ensures WellFormedItems(lib, ys) && DenotesItems(lib, ys) == DenotesItems(lib, xs)
    ensures KeysDifferItems(lib, ys) == KeysDifferItems(lib, xs)
    decreases xs
  {
    WordTokensReadBack(lib);
    if (xs.LastItem? || xs.ItemThen?) && (ys.LastItem? || ys.ItemThen?) {
      RespellingKeeps(lib, xs.item, ys.item);
    }
    if (xs.ItemThen? || xs.NothingThen?) && (ys.ItemThen? || ys.NothingThen?) {
      RespellingKeepsItems(lib, xs.items, ys.items);
    }
  }

  lemma {:induction false} RespellingKeepsMembers(lib: Library, xs: Members, ys: Members, m: map<Text, Value>)
    requires WellFormedMembers(lib, xs) && RespellsMembers(lib, xs, ys)
    ensures WellFormedMembers(lib, ys) && DenotesMembers(lib, ys, m) == DenotesMembers(lib, xs, m)
    ensures KeysDifferMembers(lib, ys, m) == KeysDifferMembers(lib, xs, m)
    decreases xs
  {
    if !xs.CloseObject? {
      var x, y := xs.member, ys.member;
      RespellingKeeps(lib, x.key, y.key);
      RespellingKeeps(lib, x.value, y.value);
      if xs.MemberThen? && ys.MemberThen? {
        RespellingKeepsMembers(lib, xs.members, ys.members, m[KeyOf(lib, x) := Denotes(lib, x.value)]);
      }
    }
  }

  /** Every layout is a spelling of itself, so the strict text is one of those. */
  lemma {:induction false} RespellsItself(lib: Library, a: Layout)
    requires WellFormed(lib, a)
    ensures Respells(lib, a, a)
    decreases a
  {
    match a
    case Token(_) =>
    case Literal(_, _) =>
    case ArrayOf(_, xs) => ItemsRespellThemselves(lib, xs);
    case ObjectOf(_, xs) => MembersRespellThemselves(lib, xs);
  }

  lemma {:induction false} ItemsRespellThemselves(lib: Library, xs: Items)
    requires WellFormedItems(lib, xs)
    ensures RespellsItems(lib, xs, xs)
    decreases xs
  {
    match xs
    case CloseArray =>
    case LastItem(x, _) => RespellsItself(lib, x);
    case ItemThen(x, _, _, _, more) =>
      RespellsItself(lib, x);
      ItemsRespellThemselves(lib, more);
    case NothingThen(_, more) => ItemsRespellThemselves(lib, more);
  }

  lemma {:induction false} MembersRespellThemselves(lib: Library, xs: Members)
    requires WellFormedMembers(lib, xs)
    ensures RespellsMembers(lib, xs, xs)
    decreases xs
  {
    if !xs.CloseObject? {
      RespellsItself(lib, xs.member.key);
      RespellsItself(lib, xs.member.value);
    }
    if xs.MemberThen? {
      MembersRespellThemselves(lib, xs.members);
    }
  }

  /** Any respelling of what `write` prints for an object is parsed to the same object. */
  lemma RespelledObjectReadsAlike(
    lib: Library, t: Tree, indentFactor: int, indent: int, l: Layout, pad: Text, rest: Text)
    requires Legal(t) && t.ObjTree? && Blank(pad)
    requires Respells(lib, Pretty(t, indentFactor, indent), l)
    ensures ParseObject(lib, pad + (Print(l) + rest)) == Ok(Content(t), rest)
  {
    PrettySpells(lib, t, indentFactor, indent);
    RespellingKeeps(lib, Pretty(t, indentFactor, indent), l);
    ObjectTextReads(lib, l, pad, rest);
  }

  lemma RespelledArrayReadsAlike(
    lib: Library, t: Tree, indentFactor: int, indent: int, l: Layout, pad: Text, rest: Text)
    requires Legal(t) && t.ArrTree? && Blank(pad)
    requires Respells(lib, Pretty(t, indentFactor, indent), l)
    ensures ParseArray(lib, pad + (Print(l) + rest)) == Ok(Content(t), rest)
  {
    PrettySpells(lib, t, indentFactor, indent);
    RespellingKeeps(lib, Pretty(t, indentFactor, indent), l);
    ArrayTextReads(lib, l, pad, rest);
  }
}
